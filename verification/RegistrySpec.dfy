/** The registry of internal/application as a value: its three maps, what each operation
    makes of them, and the invariant that ties them together. */
module RegistrySpec {
  import opened Text
  import opened Patterns
  import opened Filtering

  datatype Status = Healthy | Unhealthy | Unknown

  datatype Route = Route(verb: string, path: string, public: bool, rateLimit: int, scopes: seq<string>)
  {
    function FullPath(basePath: string): string {
      if basePath == "" then path else if path == "" then basePath else basePath + path
    }
  }

  datatype RouteEntry = RouteEntry(serviceName: string, basePath: string, route: Route, registeredAt: int)

  datatype Request = Request(
    serviceName: string, host: string, port: int, healthURL: string, version: string,
    basePath: string, routes: seq<Route>, metadata: map<string, string>)

  /** A snapshot of one instance; times are integers of the clock's unit. */
  datatype Instance = Instance(
    id: Id, serviceName: string, host: string, port: int, healthURL: string, version: string,
    status: Status, weight: int, metadata: map<string, string>, registeredAt: int, lastHeartbeat: int)

  datatype Config = Config(heartbeatTTL: int, strictPatternMatching: bool)

  datatype State = State(
    instances: map<Id, Instance>, services: map<string, seq<Id>>, routes: map<string, RouteEntry>)

  const EMPTY := State(map[], map[], map[])

  // ---------- requests ----------

  datatype RequestError = NoServiceName | NoHost | BadPort | NoBasePath | NoRoutes

  function Validate(req: Request): Option<RequestError> {
    if req.serviceName == "" then Some(NoServiceName)
    else if req.host == "" then Some(NoHost)
    else if req.port <= 0 || req.port > 65535 then Some(BadPort)
    else if req.basePath == "" then Some(NoBasePath)
    else if |req.routes| == 0 then Some(NoRoutes)
    else None
  }

  function RouteKey(verb: string, path: string): string {
    verb + ":" + path
  }

  function KeyOf(basePath: string, route: Route): string {
    RouteKey(route.verb, route.FullPath(basePath))
  }

  function KeysOf(basePath: string, routes: seq<Route>): set<string> {
    set i | 0 <= i < |routes| :: KeyOf(basePath, routes[i])
  }

  /** What a request must have to be taken at all. */
  lemma ValidIff(req: Request)
    ensures Validate(req).None? <==>
            req.serviceName != "" && req.host != "" && 1 <= req.port <= 65535 && req.basePath != "" && req.routes != []
    ensures Validate(req) == Some(NoServiceName) <==> req.serviceName == ""
    ensures Validate(req) == Some(NoRoutes) ==> req.routes == [] && req.basePath != ""
    ensures Validate(req) == Some(BadPort) ==> !(1 <= req.port <= 65535) && req.host != ""
    ensures Validate(req) == Some(NoHost) ==> req.host == "" && req.serviceName != ""
    ensures Validate(req) == Some(NoBasePath) ==> req.basePath == "" && 1 <= req.port <= 65535
  {
  }

  /** A route's key, spelled out: method, colon, base path, path. */
  lemma KeySpelled(basePath: string, route: Route)
    ensures KeyOf(basePath, route) == route.verb + ":" + basePath + route.path
  {
    if basePath != "" && route.path != "" {
      assert route.verb + ":" + (basePath + route.path) == route.verb + ":" + basePath + route.path;
    } else if basePath == "" {
      assert route.verb + ":" + basePath == route.verb + ":";
    }
  }

  // ---------- collisions ----------

  predicate ExactClash(routes: map<string, RouteEntry>, service: string, verb: string, path: string) {
    var key := RouteKey(verb, path);
    key in routes && routes[key].serviceName != service
  }

  /** The existing route at key belongs to another service, has the same method, and overlaps path. */
  predicate PatternClash(routes: map<string, RouteEntry>, service: string, verb: string, path: string, key: string)
    requires key in routes
  {
    && routes[key].serviceName != service
    && match Cut(key, ':')
       case None => false
       case Some((existingMethod, existingPath)) =>
         existingMethod == verb && PathsOverlap(Normalize(path), Normalize(existingPath))
  }

  predicate Clear(cfg: Config, routes: map<string, RouteEntry>, service: string, basePath: string, route: Route) {
    && !ExactClash(routes, service, route.verb, route.FullPath(basePath))
    && (cfg.strictPatternMatching ==>
        forall key :: key in routes ==> !PatternClash(routes, service, route.verb, route.FullPath(basePath), key))
  }

  /** ValidateRoutes reports no collision. */
  predicate Accepted(cfg: Config, routes: map<string, RouteEntry>, req: Request) {
    forall i :: 0 <= i < |req.routes| ==> Clear(cfg, routes, req.serviceName, req.basePath, req.routes[i])
  }

  // ---------- operations ----------

  function NewInstance(id: Id, req: Request, now: int): Instance {
    Instance(id, req.serviceName, req.host, req.port,
             if req.healthURL == "" then "/health" else req.healthURL,
             req.version, Healthy, 1, req.metadata, now, now)
  }

  function AddRoutes(table: map<string, RouteEntry>, service: string, basePath: string, routes: seq<Route>, now: int)
    : map<string, RouteEntry>
  {
    if routes == [] then table
    else
      var last := routes[|routes| - 1];
      AddRoutes(table, service, basePath, routes[..|routes| - 1], now)
        [KeyOf(basePath, last) := RouteEntry(service, basePath, last, now)]
  }

  function IdsOf(services: map<string, seq<Id>>, service: string): seq<Id> {
    if service in services then services[service] else []
  }

  /** The write-locked half of Register. */
  function Commit(st: State, id: Id, req: Request, now: int): State {
    State(st.instances[id := NewInstance(id, req, now)],
          st.services[req.serviceName := IdsOf(st.services, req.serviceName) + [id]],
          AddRoutes(st.routes, req.serviceName, req.basePath, req.routes, now))
  }

  /** The state without the instances in dead: every list keeps its order, emptied services
      go, and with them their routes. */
  function Remove(st: State, dead: set<Id>): State {
    var live := st.instances.Keys - dead;
    State(st.instances - dead,
          map s | s in st.services && Filter(st.services[s], live) != [] :: Filter(st.services[s], live),
          map k | k in st.routes && Filter(IdsOf(st.services, st.routes[k].serviceName), live) != [] :: st.routes[k])
  }

  function Beat(st: State, id: Id, now: int): State {
    if id in st.instances
    then st.(instances := st.instances[id := st.instances[id].(lastHeartbeat := now)])
    else st
  }

  predicate Expired(inst: Instance, ttl: int, now: int) {
    now - inst.lastHeartbeat > ttl * 2
  }

  /** What the sweep makes of one instance it meets. */
  function Swept(inst: Instance, ttl: int, now: int): Instance {
    if !Expired(inst, ttl, now) && now - inst.lastHeartbeat > ttl && inst.status == Healthy
    then inst.(status := Unhealthy)
    else inst
  }

  function SweepAll(instances: map<Id, Instance>, ttl: int, now: int): map<Id, Instance> {
    map id | id in instances :: Swept(instances[id], ttl, now)
  }

  function ExpiredIds(instances: map<Id, Instance>, ttl: int, now: int): set<Id> {
    set id | id in instances && Expired(instances[id], ttl, now)
  }

  function Cleanup(st: State, ttl: int, now: int): State {
    Remove(st.(instances := SweepAll(st.instances, ttl, now)), ExpiredIds(st.instances, ttl, now))
  }

  // ---------- the invariant ----------

  function Members(instances: map<Id, Instance>, service: string): set<Id> {
    set id | id in instances && instances[id].serviceName == service
  }

  /** The list a service must have: its instances in the order in which they were committed. */
  function Listed(log: seq<Id>, instances: map<Id, Instance>, service: string): seq<Id> {
    Filter(log, Members(instances, service))
  }

  /** The services map is the index of the instances: an entry for exactly the services that
      have an instance, holding their ids in the order of the log. */
  ghost predicate Indexed(log: seq<Id>, st: State) {
    && (forall s :: IdsOf(st.services, s) == Listed(log, st.instances, s))
    && (forall s :: s in st.services ==> st.services[s] != [])
  }

  /** log is the sequence of all ids ever committed, in order. */
  ghost predicate Consistent(log: seq<Id>, st: State) {
    && NoDup(log)
    && (forall id :: id in st.instances ==> st.instances[id].id == id && id in log)
    && Indexed(log, st)
    && (forall k :: k in st.routes ==> st.routes[k].serviceName in st.services)
  }

  // ---------- consequences of the invariant ----------

  lemma ListSound(log: seq<Id>, st: State, s: string)
    requires Consistent(log, st)
    ensures NoDup(IdsOf(st.services, s))
    ensures forall id :: id in IdsOf(st.services, s) <==> id in st.instances && st.instances[id].serviceName == s
    ensures s in st.services <==> IdsOf(st.services, s) != []
  {
    assert IdsOf(st.services, s) == Listed(log, st.instances, s);
    FilterNoDup(log, Members(st.instances, s));
  }

  /** A services map without empty lists is fixed by the lists it gives. */
  lemma SameServices(a: map<string, seq<Id>>, b: map<string, seq<Id>>)
    requires forall s :: s in a ==> a[s] != []
    requires forall s :: s in b ==> b[s] != []
    requires forall s :: IdsOf(a, s) == IdsOf(b, s)
    ensures a == b
  {
    forall s ensures s in a <==> s in b
             ensures s in a && s in b ==> a[s] == b[s]
    {
      assert IdsOf(a, s) == IdsOf(b, s);
    }
  }

  /** An index is fixed by which ids exist and whom they belong to. */
  lemma SameIndex(log: seq<Id>, st: State, instances: map<Id, Instance>)
    requires Consistent(log, st)
    requires instances.Keys == st.instances.Keys
    requires forall id :: id in instances ==>
             instances[id].serviceName == st.instances[id].serviceName && instances[id].id == id
    ensures Consistent(log, st.(instances := instances))
  {
    forall s ensures Listed(log, instances, s) == Listed(log, st.instances, s) {
      assert Members(instances, s) == Members(st.instances, s);
    }
  }

  // ---------- Register ----------

  lemma {:induction false} AddRoutesAt(table: map<string, RouteEntry>, service: string, basePath: string,
      routes: seq<Route>, now: int)
    ensures var after := AddRoutes(table, service, basePath, routes, now);
            && after.Keys == table.Keys + KeysOf(basePath, routes)
            && forall k :: k in after ==>
                 if k in KeysOf(basePath, routes) then after[k].serviceName == service else after[k] == table[k]
  {
    if routes != [] {
      var front, last := routes[..|routes| - 1], routes[|routes| - 1];
      AddRoutesAt(table, service, basePath, front, now);
      KeysSnoc(basePath, front, last, routes);
    }
  }

  /** The entry that a request leaves at each of its keys: that of the last of its routes with the
      key, as the request gives it, with the time of the registration. */
  lemma {:induction false} CommittedRoute(
      table: map<string, RouteEntry>, service: string, basePath: string, routes: seq<Route>, now: int, i: nat)
    requires i < |routes|
    requires forall j :: i < j < |routes| ==> KeyOf(basePath, routes[j]) != KeyOf(basePath, routes[i])
    ensures var key := routes[i].verb + ":" + basePath + routes[i].path;
      var after := AddRoutes(table, service, basePath, routes, now);
      key in after && after[key] == RouteEntry(service, basePath, routes[i], now)
  {
    KeySpelled(basePath, routes[i]);
    if i < |routes| - 1 {
      CommittedRoute(table, service, basePath, routes[..|routes| - 1], now, i);
    }
  }

  lemma KeysSnoc(basePath: string, front: seq<Route>, last: Route, routes: seq<Route>)
    requires routes == front + [last]
    ensures KeysOf(basePath, routes) == KeysOf(basePath, front) + {KeyOf(basePath, last)}
  {
    assert forall i :: 0 <= i < |front| ==> front[i] == routes[i];
    assert routes[|front|] == last;
  }

  lemma CommitLists(log: seq<Id>, st: State, id: Id, req: Request, now: int, s: string)
    requires Consistent(log, st) && id !in log
    ensures IdsOf(Commit(st, id, req, now).services, s) == Listed(log + [id], Commit(st, id, req, now).instances, s)
  {
    var members := Members(Commit(st, id, req, now).instances, s);
    FilterAppend(log, id, members);
    FilterAgree(log, members, Members(st.instances, s));
    assert IdsOf(st.services, s) == Listed(log, st.instances, s);
  }

  lemma CommitConsistent(log: seq<Id>, st: State, id: Id, req: Request, now: int)
    requires Consistent(log, st) && id !in log
    ensures Consistent(log + [id], Commit(st, id, req, now))
  {
    AddRoutesAt(st.routes, req.serviceName, req.basePath, req.routes, now);
    forall s
      ensures IdsOf(Commit(st, id, req, now).services, s) == Listed(log + [id], Commit(st, id, req, now).instances, s)
    {
      CommitLists(log, st, id, req, now, s);
    }
  }

  // ---------- Deregister and cleanup ----------

  lemma RemoveLists(log: seq<Id>, st: State, dead: set<Id>, s: string)
    requires Consistent(log, st)
    ensures IdsOf(Remove(st, dead).services, s) == Filter(IdsOf(st.services, s), st.instances.Keys - dead)
    ensures IdsOf(Remove(st, dead).services, s) == Listed(log, st.instances - dead, s)
  {
    assert IdsOf(st.services, s) == Listed(log, st.instances, s);
    FilterTwice(log, Members(st.instances, s), st.instances.Keys - dead);
    assert Members(st.instances, s) * (st.instances.Keys - dead) == Members(st.instances - dead, s);
  }

  lemma RemoveConsistent(log: seq<Id>, st: State, dead: set<Id>)
    requires Consistent(log, st)
    ensures Consistent(log, Remove(st, dead))
  {
    var st' := Remove(st, dead);
    forall s ensures IdsOf(st'.services, s) == Listed(log, st'.instances, s) {
      RemoveLists(log, st, dead, s);
    }
    forall k | k in st'.routes ensures st'.routes[k].serviceName in st'.services {
      RemoveRoute(log, st, dead, k);
    }
  }

  /** A route outlives a removal exactly when its owner still has an instance. */
  lemma RemoveRoute(log: seq<Id>, st: State, dead: set<Id>, k: string)
    requires Consistent(log, st) && k in st.routes
    ensures k in Remove(st, dead).routes <==> st.routes[k].serviceName in Remove(st, dead).services
    ensures k in Remove(st, dead).routes <==> Listed(log, st.instances - dead, st.routes[k].serviceName) != []
    ensures k in Remove(st, dead).routes ==> Remove(st, dead).routes[k] == st.routes[k]
  {
    RemoveLists(log, st, dead, st.routes[k].serviceName);
  }

  lemma RemoveTwice(log: seq<Id>, st: State, dead: set<Id>, dead': set<Id>)
    requires Consistent(log, st)
    ensures Remove(Remove(st, dead), dead') == Remove(st, dead + dead')
  {
    RemoveConsistent(log, st, dead);
    RemoveListsTwice(log, st, dead, dead');
    RemoveRoutesTwice(log, st, dead, dead');
    assert st.instances - dead - dead' == st.instances - (dead + dead');
  }

  lemma RemoveRoutesTwice(log: seq<Id>, st: State, dead: set<Id>, dead': set<Id>)
    requires Consistent(log, st) && Consistent(log, Remove(st, dead))
    ensures Remove(Remove(st, dead), dead').routes == Remove(st, dead + dead').routes
  {
    var two, one := Remove(Remove(st, dead), dead').routes, Remove(st, dead + dead').routes;
    forall k | k in st.routes
      ensures k in two <==> k in one
      ensures k in two ==> two[k] == st.routes[k]
    {
      RemoveRouteTwice(log, st, dead, dead', k);
    }
  }

  lemma RemoveListsTwice(log: seq<Id>, st: State, dead: set<Id>, dead': set<Id>)
    requires Consistent(log, st) && Consistent(log, Remove(st, dead))
    ensures Remove(Remove(st, dead), dead').services == Remove(st, dead + dead').services
  {
    var mid := Remove(st, dead);
    assert mid.instances - dead' == st.instances - (dead + dead');
    forall s ensures IdsOf(Remove(mid, dead').services, s) == IdsOf(Remove(st, dead + dead').services, s) {
      RemoveLists(log, mid, dead', s);
      RemoveLists(log, st, dead + dead', s);
    }
    SameServices(Remove(mid, dead').services, Remove(st, dead + dead').services);
  }

  lemma RemoveRouteTwice(log: seq<Id>, st: State, dead: set<Id>, dead': set<Id>, k: string)
    requires Consistent(log, st) && k in st.routes
    requires Consistent(log, Remove(st, dead))
    ensures k in Remove(Remove(st, dead), dead').routes <==> k in Remove(st, dead + dead').routes
    ensures k in Remove(Remove(st, dead), dead').routes ==> Remove(Remove(st, dead), dead').routes[k] == st.routes[k]
  {
    var s := st.routes[k].serviceName;
    RemoveRoute(log, st, dead, k);
    RemoveRoute(log, st, dead + dead', k);
    assert Remove(st, dead).instances - dead' == st.instances - (dead + dead');
    if k in Remove(st, dead).routes {
      RemoveRoute(log, Remove(st, dead), dead', k);
    } else {
      FewerListed(log, st.instances, dead, dead', s);
    }
  }

  lemma FewerListed(log: seq<Id>, instances: map<Id, Instance>, dead: set<Id>, dead': set<Id>, s: string)
    requires Listed(log, instances - dead, s) == []
    ensures Listed(log, instances - (dead + dead'), s) == []
  {
    FilterTwice(log, Members(instances - dead, s), Members(instances - (dead + dead'), s));
    assert Members(instances - dead, s) * Members(instances - (dead + dead'), s) ==
        Members(instances - (dead + dead'), s);
  }

  lemma RemoveNothing(log: seq<Id>, st: State)
    requires Consistent(log, st)
    ensures Remove(st, {}) == st
  {
    assert st.instances - {} == st.instances;
    forall s ensures IdsOf(Remove(st, {}).services, s) == IdsOf(st.services, s) {
      RemoveLists(log, st, {}, s);
    }
    SameServices(Remove(st, {}).services, st.services);
    RemoveNoRoutes(log, st);
  }

  lemma RemoveNoRoutes(log: seq<Id>, st: State)
    requires Consistent(log, st) && Remove(st, {}).services == st.services
    ensures Remove(st, {}).routes == st.routes
  {
    forall k | k in st.routes ensures k in Remove(st, {}).routes && Remove(st, {}).routes[k] == st.routes[k] {
      RemoveRoute(log, st, {}, k);
    }
  }

  lemma RemoveAbsent(log: seq<Id>, st: State, id: Id)
    requires Consistent(log, st) && id !in st.instances
    ensures Remove(st, {id}) == st
  {
    RemoveNothing(log, st);
    assert st.instances - {id} == st.instances - {};
    assert st.instances.Keys - {id} == st.instances.Keys - {};
  }

  function WithoutService(routes: map<string, RouteEntry>, service: string): map<string, RouteEntry> {
    map k | k in routes && routes[k].serviceName != service :: routes[k]
  }

  /** A service's list replaced; an empty one is no entry. */
  function WithList(services: map<string, seq<Id>>, service: string, ids: seq<Id>): map<string, seq<Id>> {
    if ids == [] then services - {service} else services[service := ids]
  }

  /** What removing one instance does to the maps, as the code does it. */
  lemma RemoveOne(log: seq<Id>, st: State, id: Id, i: nat)
    requires Consistent(log, st) && id in st.instances
    requires var ids := IdsOf(st.services, st.instances[id].serviceName); i < |ids| && ids[i] == id
    ensures var s := st.instances[id].serviceName;
            var ids := IdsOf(st.services, s);
            var rest := ids[..i] + ids[i + 1..];
            && Remove(st, {id}).services == WithList(st.services, s, rest)
            && Remove(st, {id}).routes ==
                 (if rest == [] then WithoutService(st.routes, s) else st.routes)
  {
    var s := st.instances[id].serviceName;
    var ids := IdsOf(st.services, s);
    var rest, live := ids[..i] + ids[i + 1..], st.instances.Keys - {id};
    forall s' ensures Filter(IdsOf(st.services, s'), live) == if s' == s then rest else IdsOf(st.services, s') {
      RemoveOneList(log, st, id, i, s');
    }
    RemoveOneServices(log, st, id, rest);
    RemoveOneRoutes(log, st, id, rest);
  }

  lemma RemoveOneServices(log: seq<Id>, st: State, id: Id, rest: seq<Id>)
    requires Consistent(log, st) && id in st.instances
    requires forall s :: Filter(IdsOf(st.services, s), st.instances.Keys - {id}) ==
                         if s == st.instances[id].serviceName then rest else IdsOf(st.services, s)
    ensures Remove(st, {id}).services ==
              WithList(st.services, st.instances[id].serviceName, rest)
  {
    var target := WithList(st.services, st.instances[id].serviceName, rest);
    forall s ensures IdsOf(Remove(st, {id}).services, s) == IdsOf(target, s) {
      RemoveLists(log, st, {id}, s);
    }
    SameServices(Remove(st, {id}).services, target);
  }

  lemma RemoveOneList(log: seq<Id>, st: State, id: Id, i: nat, s: string)
    requires Consistent(log, st) && id in st.instances
    requires var ids := IdsOf(st.services, st.instances[id].serviceName); i < |ids| && ids[i] == id
    ensures var ids := IdsOf(st.services, s);
            Filter(ids, st.instances.Keys - {id}) ==
            if s == st.instances[id].serviceName then ids[..i] + ids[i + 1..] else ids
  {
    var ids := IdsOf(st.services, s);
    ListSound(log, st, s);
    if s == st.instances[id].serviceName {
      RemoveAtIsFilter(ids, i, st.instances.Keys - {id});
    } else {
      FilterAll(ids, st.instances.Keys - {id});
    }
  }

  lemma RemoveOneRoutes(log: seq<Id>, st: State, id: Id, rest: seq<Id>)
    requires Consistent(log, st) && id in st.instances
    requires forall s :: Filter(IdsOf(st.services, s), st.instances.Keys - {id}) ==
                         if s == st.instances[id].serviceName then rest else IdsOf(st.services, s)
    ensures Remove(st, {id}).routes ==
              (if rest == [] then WithoutService(st.routes, st.instances[id].serviceName) else st.routes)
  {
    forall k | k in st.routes
      ensures k in Remove(st, {id}).routes <==>
              (rest == [] ==> st.routes[k].serviceName != st.instances[id].serviceName)
    {
      assert st.services[st.routes[k].serviceName] != [];
    }
  }

  /** Removing one at a time, in the given order. */
  function RemoveEach(st: State, order: seq<Id>): State {
    if order == [] then st else Remove(RemoveEach(st, order[..|order| - 1]), {order[|order| - 1]})
  }

  function Elements(order: seq<Id>): set<Id> {
    set i | 0 <= i < |order| :: order[i]
  }

  /** One-at-a-time removal ends in one state, whatever the order and repetitions. */
  lemma {:induction false} RemoveEachIsRemove(log: seq<Id>, st: State, order: seq<Id>)
    requires Consistent(log, st)
    ensures RemoveEach(st, order) == Remove(st, Elements(order))
  {
    if order == [] {
      RemoveNothing(log, st);
      assert Elements(order) == {};
    } else {
      var front, last := order[..|order| - 1], order[|order| - 1];
      RemoveEachIsRemove(log, st, front);
      RemoveTwice(log, st, Elements(front), {last});
      ElementsSnoc(front, last, order);
    }
  }

  lemma ElementsSnoc(front: seq<Id>, last: Id, order: seq<Id>)
    requires order == front + [last]
    ensures Elements(order) == Elements(front) + {last}
  {
    assert forall i :: 0 <= i < |front| ==> front[i] == order[i];
    assert order[|front|] == last;
  }

  lemma SweepConsistent(log: seq<Id>, st: State, ttl: int, now: int)
    requires Consistent(log, st)
    ensures Consistent(log, st.(instances := SweepAll(st.instances, ttl, now)))
  {
    SameIndex(log, st, SweepAll(st.instances, ttl, now));
  }

  lemma CleanupConsistent(log: seq<Id>, st: State, ttl: int, now: int)
    requires Consistent(log, st)
    ensures Consistent(log, Cleanup(st, ttl, now))
  {
    SweepConsistent(log, st, ttl, now);
    RemoveConsistent(log, st.(instances := SweepAll(st.instances, ttl, now)), ExpiredIds(st.instances, ttl, now));
  }

  lemma BeatConsistent(log: seq<Id>, st: State, id: Id, now: int)
    requires Consistent(log, st)
    ensures Consistent(log, Beat(st, id, now))
  {
    if id in st.instances {
      SameIndex(log, st, Beat(st, id, now).instances);
    }
  }

  /** One cleanup pass, instance by instance: who survives, and in which status. */
  lemma CleanupInstances(st: State, ttl: int, now: int)
    ensures var after := Cleanup(st, ttl, now).instances;
      && (forall id :: id in after <==> id in st.instances && now - st.instances[id].lastHeartbeat <= ttl * 2)
      && (forall id :: id in after ==>
           after[id].status ==
           if now - st.instances[id].lastHeartbeat > ttl && st.instances[id].status == Healthy then Unhealthy
           else st.instances[id].status)
      && (forall id :: id in after && now - st.instances[id].lastHeartbeat <= ttl ==> after[id] == st.instances[id])
      && (forall id :: id in after ==> after[id].(status := st.instances[id].status) == st.instances[id])
  {
  }

  /** A removal drops no more and no less than it must: a service stays exactly while it has an
      instance, and a route exactly while its owner does, unchanged. */
  lemma RemoveIsExact(log: seq<Id>, st: State, dead: set<Id>)
    requires Consistent(log, st)
    ensures var st' := Remove(st, dead);
      && st'.instances == st.instances - dead
      && (forall s :: IdsOf(st'.services, s) == Filter(IdsOf(st.services, s), st'.instances.Keys))
      && (forall s :: s in st'.services <==> Members(st'.instances, s) != {})
      && (forall k :: k in st'.routes <==> k in st.routes && Members(st'.instances, st.routes[k].serviceName) != {})
      && (forall k :: k in st'.routes ==> st'.routes[k] == st.routes[k])
  {
    var st' := Remove(st, dead);
    RemoveConsistent(log, st, dead);
    assert st'.instances.Keys == st.instances.Keys - dead;
    forall s ensures IdsOf(st'.services, s) == Filter(IdsOf(st.services, s), st'.instances.Keys)
             ensures s in st'.services <==> Members(st'.instances, s) != {}
    {
      RemoveLists(log, st, dead, s);
      ServiceIffMembers(log, st', s);
    }
    forall k | k in st.routes
      ensures k in st'.routes <==> st.routes[k].serviceName in st'.services
      ensures k in st'.routes ==> st'.routes[k] == st.routes[k]
    {
      RemoveRoute(log, st, dead, k);
    }
  }

  lemma ServiceIffMembers(log: seq<Id>, st: State, s: string)
    requires Consistent(log, st)
    ensures s in st.services <==> Members(st.instances, s) != {}
  {
    ListSound(log, st, s);
    if s in st.services {
      assert IdsOf(st.services, s)[0] in Members(st.instances, s);
    }
  }

  /** One cleanup pass, index and routes: each list is the old list filtered, and a service
      or a route stays exactly when an instance of the service survives. */
  lemma CleanupIndex(log: seq<Id>, st: State, ttl: int, now: int)
    requires Consistent(log, st)
    ensures var st' := Cleanup(st, ttl, now);
      && (forall s :: IdsOf(st'.services, s) == Filter(IdsOf(st.services, s), st'.instances.Keys))
      && (forall s :: s in st'.services <==> IdsOf(st'.services, s) != [])
      && (forall k :: k in st'.routes <==> k in st.routes && Members(st'.instances, st.routes[k].serviceName) != {})
      && (forall k :: k in st'.routes ==> st'.routes[k] == st.routes[k])
  {
    SweepConsistent(log, st, ttl, now);
    RemoveIsExact(log, st.(instances := SweepAll(st.instances, ttl, now)), ExpiredIds(st.instances, ttl, now));
    CleanupConsistent(log, st, ttl, now);
    forall s ensures s in Cleanup(st, ttl, now).services <==> IdsOf(Cleanup(st, ttl, now).services, s) != [] {
      ListSound(log, Cleanup(st, ttl, now), s);
    }
  }
}
