/** The service registry of internal/application, as the object it is: three maps that its
    methods update step by step, over instance objects that are updated in place. */
module Registry {
  import opened Clock
  import opened Text
  import opened Patterns
  import opened Filtering
  import opened Lists
  import opened RegistrySpec

  /** An entry of the instances map; the registry writes only its status and last heartbeat. */
  class ServiceInstance {
    const id: Id
    const serviceName: string
    const host: string
    const port: int
    const healthURL: string
    const version: string
    const weight: int
    const metadata: map<string, string>
    const registeredAt: int
    var status: Status
    var lastHeartbeat: int

    constructor (id: Id, req: Request, now: int)
      ensures Snapshot() == NewInstance(id, req, now)
      ensures status == Healthy && weight == 1 && registeredAt == lastHeartbeat == now
    {
      this.id, serviceName, host, port := id, req.serviceName, req.host, req.port;
      healthURL := if req.healthURL == "" then "/health" else req.healthURL;
      version, weight, metadata := req.version, 1, req.metadata;
      registeredAt, lastHeartbeat, status := now, now, Healthy;
    }

    function Snapshot(): Instance
      reads this
    {
      Instance(id, serviceName, host, port, healthURL, version, status, weight, metadata, registeredAt, lastHeartbeat)
    }

    method Touch(now: int)
      modifies this`lastHeartbeat
      ensures Snapshot() == old(Snapshot()).(lastHeartbeat := now)
    {
      lastHeartbeat := now;
    }

    method MarkUnhealthy()
      modifies this`status
      ensures Snapshot() == old(Snapshot()).(status := Unhealthy)
    {
      status := Unhealthy;
    }
  }

  datatype Collision =
    | ExactCollision(verb: string, path: string, registeredBy: string, registeredAt: int)
    | PatternCollision(verb: string, path: string, registeredBy: string, registeredAt: int)

  /** keys lists, once each, the routes that clash with a requested one. */
  ghost predicate ListsClashes(
      routes: map<string, RouteEntry>, service: string, verb: string, path: string, keys: seq<string>)
  {
    NoDup(keys) && forall k :: k in keys <==> k in routes && PatternClash(routes, service, verb, path, k)
  }

  /** One report for each of the keys, in their order. */
  function Reports(routes: map<string, RouteEntry>, verb: string, path: string, keys: seq<string>): (r: seq<Collision>)
    requires forall k :: k in keys ==> k in routes
    ensures |r| == |keys|
    ensures forall i :: 0 <= i < |r| ==>
      r[i] == PatternCollision(verb, path, routes[keys[i]].serviceName, routes[keys[i]].registeredAt)
  {
    seq(|keys|, i requires 0 <= i < |keys| =>
      PatternCollision(verb, path, routes[keys[i]].serviceName, routes[keys[i]].registeredAt))
  }

  /** The reports for one requested route: the exact one alone, or in strict mode one for each
      clashing route, in some order of the map. */
  ghost predicate Reported(
    cfg: Config, routes: map<string, RouteEntry>, service: string, basePath: string, route: Route,
    block: seq<Collision>)
  {
    var path := route.FullPath(basePath);
    if ExactClash(routes, service, route.verb, path) then
      var entry := routes[RouteKey(route.verb, path)];
      block == [ExactCollision(route.verb, path, entry.serviceName, entry.registeredAt)]
    else if cfg.strictPatternMatching then
      exists keys :: ListsClashes(routes, service, route.verb, path, keys) &&
          block == Reports(routes, route.verb, path, keys)
    else block == []
  }

  ghost predicate BlocksFor(
    cfg: Config, routes: map<string, RouteEntry>, service: string, basePath: string, requested: seq<Route>,
    blocks: seq<seq<Collision>>)
  {
    && |blocks| == |requested|
    && forall i :: 0 <= i < |blocks| ==> Reported(cfg, routes, service, basePath, requested[i], blocks[i])
  }

  predicate AllClear(
    cfg: Config, routes: map<string, RouteEntry>, service: string, basePath: string, requested: seq<Route>)
  {
    forall i :: 0 <= i < |requested| ==> Clear(cfg, routes, service, basePath, requested[i])
  }

  lemma OneMoreBlock(
      cfg: Config, routes: map<string, RouteEntry>, service: string, basePath: string, front: seq<Route>, route: Route,
      blocks: seq<seq<Collision>>, block: seq<Collision>)
    requires BlocksFor(cfg, routes, service, basePath, front, blocks)
    requires Flat(blocks) == [] <==> AllClear(cfg, routes, service, basePath, front)
    requires Reported(cfg, routes, service, basePath, route, block)
    ensures BlocksFor(cfg, routes, service, basePath, front + [route], blocks + [block])
    ensures Flat(blocks + [block]) == Flat(blocks) + block
    ensures Flat(blocks + [block]) == [] <==> AllClear(cfg, routes, service, basePath, front + [route])
  {
    BlocksSnoc(cfg, routes, service, basePath, front, route, blocks, block);
    FlatSnoc(blocks, block);
    ReportedNothing(cfg, routes, service, basePath, route, block);
    ClearSnoc(cfg, routes, service, basePath, front, route);
  }

  lemma BlocksSnoc(
      cfg: Config, routes: map<string, RouteEntry>, service: string, basePath: string, front: seq<Route>, route: Route,
      blocks: seq<seq<Collision>>, block: seq<Collision>)
    requires BlocksFor(cfg, routes, service, basePath, front, blocks)
    requires Reported(cfg, routes, service, basePath, route, block)
    ensures BlocksFor(cfg, routes, service, basePath, front + [route], blocks + [block])
  {
    var all := blocks + [block];
    forall i | 0 <= i < |all| ensures Reported(cfg, routes, service, basePath, (front + [route])[i], all[i]) {
      if i < |blocks| {
        assert Reported(cfg, routes, service, basePath, front[i], blocks[i]);
      }
    }
  }

  lemma ClearSnoc(
      cfg: Config, routes: map<string, RouteEntry>, service: string, basePath: string, front: seq<Route>, route: Route)
    ensures AllClear(cfg, routes, service, basePath, front + [route]) <==>
            AllClear(cfg, routes, service, basePath, front) && Clear(cfg, routes, service, basePath, route)
  {
    var all := front + [route];
    if AllClear(cfg, routes, service, basePath, all) {
      forall i | 0 <= i < |front| ensures Clear(cfg, routes, service, basePath, front[i]) {
        assert all[i] == front[i];
      }
      assert all[|front|] == route;
    }
  }

  lemma ReportedNothing(
      cfg: Config, routes: map<string, RouteEntry>, service: string, basePath: string, route: Route,
      block: seq<Collision>)
    requires Reported(cfg, routes, service, basePath, route, block)
    ensures block == [] <==> Clear(cfg, routes, service, basePath, route)
  {
    var path := route.FullPath(basePath);
    if !ExactClash(routes, service, route.verb, path) && cfg.strictPatternMatching {
      var keys :| ListsClashes(routes, service, route.verb, path, keys) &&
          block == Reports(routes, route.verb, path, keys);
      assert |block| == |keys|;
      if keys != [] {
        assert keys[0] in keys;
      }
    }
  }

  datatype RegisterResponse = RegisterResponse(
    instanceID: Id, heartbeatInterval: int, heartbeatURL: string, registeredRoutes: seq<string>)

  datatype RegisterResult =
    | Invalid(error: RequestError)
    | Collided(collisions: seq<Collision>)
    | Registered(response: RegisterResponse)

  /** int(d.Seconds()): whole seconds, truncated toward zero. */
  function WholeSeconds(d: int): int {
    if d >= 0 then d / SECOND else -(-d / SECOND)
  }

  class Registry {
    const config: Config
    var instances: map<Id, ServiceInstance>
    var services: map<string, seq<Id>>
    var routes: map<string, RouteEntry>

    /** Every id ever committed, in order; kept only to state the invariant. */
    ghost var log: seq<Id>

    ghost function Value(): State
      reads this`instances, this`services, this`routes, instances.Values
    {
      State(Snapshots(), services, routes)
    }

    ghost function Snapshots(): map<Id, Instance>
      reads this`instances, instances.Values
    {
      map id | id in instances :: instances[id].Snapshot()
    }

    ghost predicate Valid()
      reads this, instances.Values
    {
      Consistent(log, Value())
    }

    /** Every instance is stored under its own id. */
    ghost predicate Keyed()
      reads this`instances, instances.Values
    {
      forall id :: id in instances ==> instances[id].id == id
    }

    lemma ValidIsKeyed()
      requires Valid()
      ensures Keyed()
    {
      assert forall id :: id in instances ==> Value().instances[id].id == id;
    }

    constructor (cfg: Config)
      ensures Valid() && Value() == EMPTY && config == cfg && log == []
    {
      config := cfg;
      instances, services, routes, log := map[], map[], map[], [];
    }

    // ---------- registration ----------

    method CheckExactCollision(serviceName: string, verb: string, path: string) returns (collision: Option<Collision>)
      ensures collision.Some? <==> ExactClash(routes, serviceName, verb, path)
      ensures collision.Some? ==> var entry := routes[RouteKey(verb, path)];
                                  collision.value == ExactCollision(verb, path, entry.serviceName, entry.registeredAt)
    {
      var key := RouteKey(verb, path);
      if key in routes {
        var entry := routes[key];
        if entry.serviceName == serviceName {
          return None;
        }
        return Some(ExactCollision(verb, path, entry.serviceName, entry.registeredAt));
      }
      return None;
    }

    /** The order of the map's keys is arbitrary; that each clashing route is reported once is not. */
    method CheckPatternCollision(serviceName: string, verb: string, path: string) returns (collisions: seq<Collision>)
      ensures exists keys ::
        ListsClashes(routes, serviceName, verb, path, keys) && collisions == Reports(routes, verb, path, keys)
    {
      collisions := [];
      ghost var keys: seq<string> := [];
      var normalizedNew := Normalize(path);
      var todo := routes.Keys;
      while todo != {}
        invariant todo <= routes.Keys && NoDup(keys)
        invariant forall k :: k in keys <==>
                 k in routes && k !in todo && PatternClash(routes, serviceName, verb, path, k)
        invariant collisions == Reports(routes, verb, path, keys)
        decreases todo
      {
        var key :| key in todo;
        todo := todo - {key};
        var entry := routes[key];
        if entry.serviceName == serviceName {
          continue;
        }
        var parts := Cut(key, ':');
        if parts.None? {
          continue;
        }
        var (existingMethod, existingPath) := parts.value;
        if existingMethod != verb {
          continue;
        }
        var overlap := CheckPathsOverlap(normalizedNew, Normalize(existingPath));
        if overlap {
          collisions := collisions + [PatternCollision(verb, path, entry.serviceName, entry.registeredAt)];
          keys := keys + [key];
        }
      }
      assert ListsClashes(routes, serviceName, verb, path, keys);
    }

    /** What the loop of ValidateRoutes appends for one route. */
    method CollisionsOf(serviceName: string, basePath: string, route: Route) returns (block: seq<Collision>)
      ensures Reported(config, routes, serviceName, basePath, route, block)
    {
      var fullPath := route.FullPath(basePath);
      var collision := CheckExactCollision(serviceName, route.verb, fullPath);
      if collision.Some? {
        return [collision.value];
      }
      if config.strictPatternMatching {
        block := CheckPatternCollision(serviceName, route.verb, fullPath);
        return;
      }
      return [];
    }

    method ValidateRoutes(serviceName: string, basePath: string, requested: seq<Route>)
      returns (collisions: seq<Collision>, ghost blocks: seq<seq<Collision>>)
      ensures BlocksFor(config, routes, serviceName, basePath, requested, blocks) && collisions == Flat(blocks)
      ensures collisions == [] <==> AllClear(config, routes, serviceName, basePath, requested)
    {
      collisions, blocks := [], [];
      for n := 0 to |requested|
        invariant BlocksFor(config, routes, serviceName, basePath, requested[..n], blocks) && collisions == Flat(blocks)
        invariant collisions == [] <==> AllClear(config, routes, serviceName, basePath, requested[..n])
      {
        var block := CollisionsOf(serviceName, basePath, requested[n]);
        assert requested[..n + 1] == requested[..n] + [requested[n]];
        OneMoreBlock(config, routes, serviceName, basePath, requested[..n], requested[n], blocks, block);
        collisions, blocks := collisions + block, blocks + [block];
      }
      assert requested[..|requested|] == requested;
    }

    /** The write-locked half of Register: nothing about the routes is checked again. */
    method CommitRegistration(instanceID: Id, req: Request, now: int) returns (registeredRoutes: seq<string>)
      requires Valid() && instanceID !in log
      modifies this
      ensures Valid() && log == old(log) + [instanceID]
      ensures Value() == Commit(old(Value()), instanceID, req, now)
      ensures instanceID in instances && fresh(instances[instanceID]) && instances - {instanceID} == old(instances)
      ensures |registeredRoutes| == |req.routes|
      ensures forall i :: 0 <= i < |req.routes| ==> registeredRoutes[i] == KeyOf(req.basePath, req.routes[i])
    {
      ghost var before := Value();
      assert instanceID !in before.instances;
      registeredRoutes := StoreInstance(instanceID, req, now);
      log := log + [instanceID];
      CommitConsistent(old(log), before, instanceID, req, now);
    }

    method StoreInstance(instanceID: Id, req: Request, now: int) returns (registeredRoutes: seq<string>)
      requires instanceID !in instances
      modifies this`instances, this`services, this`routes
      ensures Value() == Commit(old(Value()), instanceID, req, now)
      ensures instanceID in instances && fresh(instances[instanceID]) && instances - {instanceID} == old(instances)
      ensures |registeredRoutes| == |req.routes|
      ensures forall i :: 0 <= i < |req.routes| ==> registeredRoutes[i] == KeyOf(req.basePath, req.routes[i])
    {
      PutInstance(instanceID, req, now);
      services := services[req.serviceName := IdsOf(services, req.serviceName) + [instanceID]];
      registeredRoutes := CommitRoutes(req, now);
    }

    method PutInstance(instanceID: Id, req: Request, now: int)
      requires instanceID !in instances
      modifies this`instances
      ensures Snapshots() == old(Snapshots())[instanceID := NewInstance(instanceID, req, now)]
      ensures instanceID in instances && fresh(instances[instanceID]) && instances - {instanceID} == old(instances)
    {
      ghost var before := Snapshots();
      var instance := new ServiceInstance(instanceID, req, now);
      instances := instances[instanceID := instance];
    }

    method CommitRoutes(req: Request, now: int) returns (registeredRoutes: seq<string>)
      modifies this`routes
      ensures routes == AddRoutes(old(routes), req.serviceName, req.basePath, req.routes, now)
      ensures |registeredRoutes| == |req.routes|
      ensures forall i :: 0 <= i < |req.routes| ==> registeredRoutes[i] == KeyOf(req.basePath, req.routes[i])
    {
      registeredRoutes := [];
      for n := 0 to |req.routes|
        invariant routes == AddRoutes(old(routes), req.serviceName, req.basePath, req.routes[..n], now)
        invariant |registeredRoutes| == n
        invariant forall i :: 0 <= i < n ==> registeredRoutes[i] == KeyOf(req.basePath, req.routes[i])
      {
        var route := req.routes[n];
        var fullPath := route.FullPath(req.basePath);
        var key := RouteKey(route.verb, fullPath);
        assert req.routes[..n + 1][..n] == req.routes[..n];
        routes := routes[key := RouteEntry(req.serviceName, req.basePath, route, now)];
        registeredRoutes := registeredRoutes + [key];
      }
      assert req.routes[..|req.routes|] == req.routes;
    }

    /** Register with nothing between its two halves. */
    method Register(req: Request, freshID: Id, now: int) returns (result: RegisterResult)
      requires Valid() && freshID !in log
      modifies this
      ensures Valid()
      ensures Validate(req).Some? ==> result == Invalid(Validate(req).value)
      ensures Validate(req).None? && !Accepted(config, old(routes), req) ==>
        && result.Collided? && result.collisions != []
        && exists blocks ::
             && BlocksFor(config, old(routes), req.serviceName, req.basePath, req.routes, blocks)
             && result.collisions == Flat(blocks)
      ensures Validate(req).Some? || !Accepted(config, old(routes), req) ==> Value() == old(Value()) && log == old(log)
      ensures Validate(req).None? && Accepted(config, old(routes), req) ==>
        && result.Registered? && result.response.instanceID == freshID
        && result.response.heartbeatInterval == WholeSeconds(config.heartbeatTTL)
        && (0 <= config.heartbeatTTL ==>
             var interval := result.response.heartbeatInterval;
             interval * 1_000_000_000 <= config.heartbeatTTL < (interval + 1) * 1_000_000_000)
        && result.response.heartbeatURL == "/internal/registry/heartbeat"
        && |result.response.registeredRoutes| == |req.routes|
        && (forall i :: 0 <= i < |req.routes| ==>
             result.response.registeredRoutes[i] == req.routes[i].verb + ":" + req.basePath + req.routes[i].path)
        && Value() == Commit(old(Value()), freshID, req, now) && log == old(log) + [freshID]
      ensures result.Registered? ==>
        && freshID in instances && fresh(instances[freshID])
        && var instance := instances[freshID];
        && instance.id == freshID && instance.status == Healthy && instance.weight == 1
        && instance.registeredAt == now && instance.lastHeartbeat == now
        && instance.serviceName == req.serviceName && instance.host == req.host && instance.port == req.port
        && instance.version == req.version && instance.metadata == req.metadata
        && instance.healthURL == (if req.healthURL == "" then "/health" else req.healthURL)
    {
      var err := Validate(req);
      if err.Some? {
        return Invalid(err.value);
      }
      var collisions;
      ghost var blocks;
      collisions, blocks := ValidateRoutes(req.serviceName, req.basePath, req.routes);
      if |collisions| > 0 {
        return Collided(collisions);
      }
      var registeredRoutes := CommitRegistration(freshID, req, now);
      forall i | 0 <= i < |req.routes|
        ensures registeredRoutes[i] == req.routes[i].verb + ":" + req.basePath + req.routes[i].path
      {
        KeySpelled(req.basePath, req.routes[i]);
      }
      ghost var stored := Value().instances[freshID];
      assert stored == instances[freshID].Snapshot();
      var interval := WholeSeconds(config.heartbeatTTL);
      return Registered(RegisterResponse(freshID, interval, "/internal/registry/heartbeat", registeredRoutes));
    }

    // ---------- removal ----------

    method Deregister(instanceID: Id) returns (found: bool)
      requires Valid()
      modifies this
      ensures Valid() && log == old(log)
      ensures found <==> instanceID in old(instances)
      ensures Value() == if found then Remove(old(Value()), {instanceID}) else old(Value())
    {
      if instanceID !in instances {
        return false;
      }
      RemoveInstanceLocked(instanceID);
      return true;
    }

    /** removeInstanceLocked, whose statements Deregister repeats: close the gap in the
        service's list, drop an emptied service with its routes, drop the instance. */
    method RemoveInstanceLocked(instanceID: Id)
      requires Valid()
      modifies this
      ensures Valid() && log == old(log)
      ensures instances == old(instances) - {instanceID}
      ensures Value() == Remove(old(Value()), {instanceID})
    {
      ghost var before := Value();
      RemoveConsistent(log, before, {instanceID});
      if instanceID !in instances {
        RemoveAbsent(log, before, instanceID);
        assert instances - {instanceID} == instances;
        return;
      }
      ListSound(log, before, instances[instanceID].serviceName);
      assert before.instances[instanceID].serviceName == instances[instanceID].serviceName;
      ghost var at := RemovePresent(instanceID);
      RemoveOne(old(log), before, instanceID, at);
    }

    method RemovePresent(instanceID: Id) returns (ghost at: nat)
      requires instanceID in instances && instanceID in IdsOf(services, instances[instanceID].serviceName)
      modifies this`instances, this`services, this`routes
      ensures instances == old(instances) - {instanceID}
      ensures var s := old(instances[instanceID].serviceName);
              var ids := IdsOf(old(services), s);
              && at < |ids| && ids[at] == instanceID
              && var rest := ids[..at] + ids[at + 1..];
              && services == WithList(old(services), s, rest)
              && routes == (if rest == [] then WithoutService(old(routes), s) else old(routes))
      ensures Snapshots() == old(Snapshots()) - {instanceID}
    {
      var s := instances[instanceID].serviceName;
      at := CloseGap(s, instanceID);
      if |IdsOf(services, s)| == 0 {
        DropRoutesOf(s);
        services := services - {s};
        assert services == old(services) - {s};
      }
      instances := instances - {instanceID};
    }

    /** append(ids[:i], ids[i+1:]...) at the first occurrence. */
    method CloseGap(s: string, instanceID: Id) returns (ghost at: nat)
      requires instanceID in IdsOf(services, s)
      modifies this`services
      ensures var ids := IdsOf(old(services), s);
              at < |ids| && ids[at] == instanceID && services == old(services)[s := ids[..at] + ids[at + 1..]]
    {
      var instanceIDs := IdsOf(services, s);
      for i := 0 to |instanceIDs|
        invariant instanceID !in instanceIDs[..i] && services == old(services)
      {
        if instanceIDs[i] == instanceID {
          services := services[s := instanceIDs[..i] + instanceIDs[i + 1..]];
          return i;
        }
      }
    }

    /** Deletes a service's routes while ranging over the map. */
    method DropRoutesOf(s: string)
      modifies this`routes
      ensures routes == WithoutService(old(routes), s)
    {
      var todo := routes.Keys;
      while todo != {}
        invariant todo <= routes.Keys <= old(routes).Keys
        invariant forall k :: k in routes ==> routes[k] == old(routes)[k]
        invariant forall k :: k in old(routes) && k !in routes ==> old(routes)[k].serviceName == s
        invariant forall k :: k in routes && k !in todo ==> routes[k].serviceName != s
        decreases todo
      {
        var key :| key in todo;
        todo := todo - {key};
        if routes[key].serviceName == s {
          routes := routes - {key};
        }
      }
    }

    // ---------- heartbeat and cleanup ----------

    method Heartbeat(instanceID: Id, now: int) returns (found: bool)
      requires Valid()
      modifies instances.Values
      ensures Valid()
      ensures found <==> instanceID in instances
      ensures Value() == Beat(old(Value()), instanceID, now)
    {
      BeatConsistent(log, Value(), instanceID, now);
      ValidIsKeyed();
      if instanceID !in instances {
        return false;
      }
      TouchInstance(instanceID, now);
      return true;
    }

    method TouchInstance(instanceID: Id, now: int)
      requires instanceID in instances && Keyed()
      modifies instances[instanceID]
      ensures Value() == Beat(old(Value()), instanceID, now)
    {
      ghost var before := Value();
      instances[instanceID].Touch(now);
      forall id | id in instances && id != instanceID ensures instances[id].Snapshot() == before.instances[id] {
        assert instances[id] != instances[instanceID];
      }
      OneChanged(before.instances, instanceID);
    }

    /** One object was written: one snapshot differs. */
    lemma OneChanged(before: map<Id, Instance>, changed: Id)
      requires before.Keys == instances.Keys && changed in instances
      requires forall id :: id in instances && id != changed ==> instances[id].Snapshot() == before[id]
      ensures Snapshots() == before[changed := instances[changed].Snapshot()]
    {
    }

    /** cleanup: mark and collect over the map in any order, then remove in any order. */
    method Cleanup(now: int)
      requires Valid()
      modifies this, instances.Values
      ensures Valid() && log == old(log)
      ensures Value() == RegistrySpec.Cleanup(old(Value()), config.heartbeatTTL, now)
    {
      ghost var before := Value();
      ghost var dead := ExpiredIds(before.instances, config.heartbeatTTL, now);
      ghost var swept := before.(instances := SweepAll(before.instances, config.heartbeatTTL, now));
      ValidIsKeyed();
      var toRemove := MarkAndCollect(now);
      SweepConsistent(log, before, config.heartbeatTTL, now);
      RemoveAll(toRemove);
    }

    /** The second loop of cleanup. */
    method RemoveAll(toRemove: seq<Id>)
      requires Valid()
      modifies this
      ensures Valid() && log == old(log)
      ensures Value() == Remove(old(Value()), Elements(toRemove))
    {
      ghost var swept := Value();
      RemoveNothing(log, swept);
      assert toRemove[..0] == [] && Elements([]) == {};
      for n := 0 to |toRemove|
        invariant log == old(log) && Valid()
        invariant Value() == Remove(swept, Elements(toRemove[..n]))
      {
        ElementsSnoc(toRemove[..n], toRemove[n], toRemove[..n + 1]);
        RemoveTwice(log, swept, Elements(toRemove[..n]), {toRemove[n]});
        RemoveInstanceLocked(toRemove[n]);
      }
      assert toRemove[..|toRemove|] == toRemove;
    }

    /** The first loop of cleanup: every instance met is swept, the expired ones collected. */
    method MarkAndCollect(now: int) returns (toRemove: seq<Id>)
      requires Keyed()
      modifies instances.Values
      ensures Snapshots() == SweepAll(old(Snapshots()), config.heartbeatTTL, now)
      ensures Elements(toRemove) == ExpiredIds(old(Snapshots()), config.heartbeatTTL, now)
    {
      ghost var before := Snapshots();
      var ttl := config.heartbeatTTL;
      toRemove := [];
      var todo := instances.Keys;
      assert Snapshots() == SweptBut(before, todo, ttl, now);
      assert Elements(toRemove) == ExpiredIds(before, ttl, now) - todo;
      while todo != {}
        invariant todo <= before.Keys == instances.Keys && Keyed()
        invariant Snapshots() == SweptBut(before, todo, ttl, now)
        invariant Elements(toRemove) == ExpiredIds(before, ttl, now) - todo
        decreases todo
      {
        var id :| id in todo;
        OneMoreSwept(before, todo, id, ttl, now);
        todo := todo - {id};
        var expired := SweepOne(id, ttl, now);
        if expired {
          ElementsSnoc(toRemove, id, toRemove + [id]);
          toRemove := toRemove + [id];
        }
      }
      assert SweptBut(before, {}, ttl, now) == SweepAll(before, ttl, now);
    }

    /** The body of that loop, for one instance; no other is touched. */
    method SweepOne(id: Id, ttl: int, now: int) returns (expired: bool)
      requires id in instances && Keyed()
      modifies instances[id]
      ensures Snapshots() == old(Snapshots())[id := Swept(old(Snapshots())[id], ttl, now)]
      ensures expired <==> Expired(old(Snapshots())[id], ttl, now)
    {
      ghost var before := Snapshots();
      var instance := instances[id];
      var elapsed := now - instance.lastHeartbeat;
      expired := false;
      if elapsed > ttl * 2 {
        expired := true;
      } else if elapsed > ttl && instance.status == Healthy {
        instance.MarkUnhealthy();
      }
      forall other | other in instances && other != id ensures instances[other].Snapshot() == before[other] {
        assert instances[other] != instance;
      }
      OneChanged(before, id);
    }

    // ---------- queries ----------

    /** found lists exactly the instances with these ids, in this order. */
    ghost predicate Denotes(found: seq<ServiceInstance>, ids: seq<Id>)
      reads this`instances
    {
      |found| == |ids| && forall i :: 0 <= i < |ids| ==> ids[i] in instances && found[i] == instances[ids[i]]
    }

    /** The service's instances, in the order in which they registered. */
    method GetInstances(serviceName: string) returns (found: seq<ServiceInstance>)
      requires Valid()
      ensures Denotes(found, Filter(log, Members(Value().instances, serviceName)))
    {
      ListSound(log, Value(), serviceName);
      var instanceIDs := IdsOf(services, serviceName);
      assert instanceIDs == Listed(log, Value().instances, serviceName);
      found := [];
      if |instanceIDs| == 0 {
        return;
      }
      for n := 0 to |instanceIDs|
        invariant Denotes(found, instanceIDs[..n])
      {
        assert instanceIDs[n] in IdsOf(services, serviceName);
        if instanceIDs[n] in instances {
          found := found + [instances[instanceIDs[n]]];
        }
      }
      assert instanceIDs[..|instanceIDs|] == instanceIDs;
    }

    /** The healthy ones among them, in the same order. */
    method GetHealthyInstances(serviceName: string) returns (healthy: seq<ServiceInstance>)
      requires Valid()
      ensures Denotes(healthy, Filter(log, HealthyMembers(Value().instances, serviceName)))
    {
      ListSound(log, Value(), serviceName);
      HealthyListed(log, Value(), serviceName);
      var instanceIDs := IdsOf(services, serviceName);
      if |instanceIDs| == 0 {
        return [];
      }
      healthy := SelectHealthy(instanceIDs);
      FilterAgree(instanceIDs, HealthyIds(), HealthyMembers(Value().instances, serviceName));
    }

    ghost function HealthyIds(): set<Id>
      reads this`instances, instances.Values
    {
      set id | id in instances && instances[id].status == Healthy
    }

    method SelectHealthy(instanceIDs: seq<Id>) returns (healthy: seq<ServiceInstance>)
      ensures Denotes(healthy, Filter(instanceIDs, HealthyIds()))
    {
      healthy := [];
      for n := 0 to |instanceIDs|
        invariant Denotes(healthy, Filter(instanceIDs[..n], HealthyIds()))
      {
        assert instanceIDs[..n + 1] == instanceIDs[..n] + [instanceIDs[n]];
        FilterAppend(instanceIDs[..n], instanceIDs[n], HealthyIds());
        if instanceIDs[n] in instances && instances[instanceIDs[n]].status == Healthy {
          healthy := healthy + [instances[instanceIDs[n]]];
        }
      }
      assert instanceIDs[..|instanceIDs|] == instanceIDs;
    }

    /** Every service with an instance, and for each what GetInstances gives. */
    method GetAllServices() returns (result: map<string, seq<ServiceInstance>>)
      requires Valid()
      ensures forall s :: s in result <==> Members(Value().instances, s) != {}
      ensures forall s :: s in result ==> Denotes(result[s], Filter(log, Members(Value().instances, s)))
    {
      result := map[];
      var todo := services.Keys;
      while todo != {}
        invariant todo <= services.Keys
        invariant result.Keys == services.Keys - todo
        invariant forall s :: s in result ==> Denotes(result[s], Filter(log, Members(Value().instances, s)))
        decreases todo
      {
        var serviceName :| serviceName in todo;
        todo := todo - {serviceName};
        assert IdsOf(services, serviceName) == Listed(log, Value().instances, serviceName);
        var found := GetInstances(serviceName);
        if |found| > 0 {
          result := result[serviceName := found];
        }
      }
      ServicesAreOccupied(log, Value());
    }

    /** A copy of the route table. */
    method GetAllRoutes() returns (result: map<string, RouteEntry>)
      ensures result == routes
    {
      result := map[];
      var todo := routes.Keys;
      while todo != {}
        invariant todo <= routes.Keys
        invariant result.Keys == routes.Keys - todo
        invariant forall k :: k in result ==> result[k] == routes[k]
        decreases todo
      {
        var k :| k in todo;
        todo := todo - {k};
        result := result[k := routes[k]];
      }
    }
  }

  /** A committed instance is healthy, so it is listed at once, and last. */
  lemma NewestIsListedLast(log: seq<Id>, st: State, id: Id, req: Request, now: int)
    requires Consistent(log, st) && id !in log
    ensures var after := Commit(st, id, req, now);
      && Filter(log + [id], HealthyMembers(after.instances, req.serviceName)) ==
         Filter(log, HealthyMembers(st.instances, req.serviceName)) + [id]
      && Filter(log + [id], Members(after.instances, req.serviceName)) ==
         Filter(log, Members(st.instances, req.serviceName)) + [id]
  {
    var after := Commit(st, id, req, now);
    FilterAppend(log, id, HealthyMembers(after.instances, req.serviceName));
    FilterAgree(log, HealthyMembers(after.instances, req.serviceName), HealthyMembers(st.instances, req.serviceName));
    FilterAppend(log, id, Members(after.instances, req.serviceName));
    FilterAgree(log, Members(after.instances, req.serviceName), Members(st.instances, req.serviceName));
  }

  /** The sweep of all instances but those in todo. */
  function SweptBut(instances: map<Id, Instance>, todo: set<Id>, ttl: int, now: int): map<Id, Instance> {
    map id | id in instances :: if id in todo then instances[id] else Swept(instances[id], ttl, now)
  }

  lemma OneMoreSwept(before: map<Id, Instance>, todo: set<Id>, id: Id, ttl: int, now: int)
    requires id in todo && todo <= before.Keys
    ensures SweptBut(before, todo, ttl, now)[id] == before[id]
    ensures SweptBut(before, todo, ttl, now)[id := Swept(before[id], ttl, now)] ==
            SweptBut(before, todo - {id}, ttl, now)
    ensures ExpiredIds(before, ttl, now) - (todo - {id}) ==
            (ExpiredIds(before, ttl, now) - todo) + (if Expired(before[id], ttl, now) then {id} else {})
  {
  }

  lemma HealthyListed(log: seq<Id>, st: State, service: string)
    requires Consistent(log, st)
    ensures Filter(IdsOf(st.services, service), HealthyMembers(st.instances, service)) ==
            Filter(log, HealthyMembers(st.instances, service))
  {
    assert IdsOf(st.services, service) == Listed(log, st.instances, service);
    FilterTwice(log, Members(st.instances, service), HealthyMembers(st.instances, service));
    assert Members(st.instances, service) * HealthyMembers(st.instances, service) ==
        HealthyMembers(st.instances, service);
  }

  lemma ServicesAreOccupied(log: seq<Id>, st: State)
    requires Consistent(log, st)
    ensures forall s :: s in st.services <==> Members(st.instances, s) != {}
  {
    forall s ensures s in st.services <==> Members(st.instances, s) != {} {
      ServiceIffMembers(log, st, s);
    }
  }

  function HealthyMembers(instances: map<Id, Instance>, service: string): set<Id> {
    set id | id in instances && instances[id].serviceName == service && instances[id].status == Healthy
  }
}
