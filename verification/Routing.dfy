/** Route lookup over the registry's table, and what strict registration buys it: the service
    that serves a request does not depend on the order in which the table is walked. */
module Routing {
  import opened Text
  import opened Patterns
  import opened Matcher
  import opened Filtering
  import opened RegistrySpec
  import opened Runs
  import Registry

  datatype MatchResult = MatchResult(entry: RouteEntry, params: Option<Bindings>)

  /** The route stored at key serves the request. */
  predicate Serves(routes: map<string, RouteEntry>, key: string, verb: string, path: string) {
    && key in routes
    && Cut(key, ':').Some?
    && Cut(key, ':').value.0 == verb
    && Accepts(Cut(key, ':').value.1, path)
  }

  /** The results MatchRoute may return, one for each order of the walk. */
  ghost predicate PossibleMatch(
      routes: map<string, RouteEntry>, verb: string, path: string, result: Option<MatchResult>)
  {
    var exactKey := RouteKey(verb, path);
    if exactKey in routes then result == Some(MatchResult(routes[exactKey], None))
    else match result
      case None => forall key :: !Serves(routes, key, verb, path)
      case Some(found) => exists key :: ServedBy(routes, key, verb, path, found)
  }

  predicate ServedBy(routes: map<string, RouteEntry>, key: string, verb: string, path: string, found: MatchResult) {
    && Serves(routes, key, verb, path)
    && found == MatchResult(routes[key], Some(Params(Segments(Cut(key, ':').value.1), Segments(path))))
  }

  /** MatchRoute: the exact key first, then the first serving route met. */
  method MatchRoute(registry: Registry.Registry, verb: string, path: string) returns (result: Option<MatchResult>)
    ensures PossibleMatch(registry.routes, verb, path, result)
  {
    var routes := registry.GetAllRoutes();
    var exactKey := RouteKey(verb, path);
    if exactKey in routes {
      return Some(MatchResult(routes[exactKey], None));
    }
    var todo := routes.Keys;
    while todo != {}
      invariant todo <= routes.Keys
      invariant forall key :: Serves(routes, key, verb, path) ==> key in todo
      decreases todo
    {
      var key :| key in todo;
      todo := todo - {key};
      var parts := Cut(key, ':');
      if parts.None? {
        continue;
      }
      var (routeMethod, routePath) := parts.value;
      if routeMethod != verb {
        continue;
      }
      var params := MatchPathWithParams(routePath, path);
      if params.Some? {
        result := Some(MatchResult(routes[key], params));
        assert ServedBy(routes, key, verb, path, result.value);
        return;
      }
    }
    return None;
  }

  // ---------- disjointness ----------

  predicate KeysOverlap(k1: string, k2: string) {
    match (Cut(k1, ':'), Cut(k2, ':'))
    case (Some((m1, p1)), Some((m2, p2))) => m1 == m2 && PathsOverlap(Normalize(p1), Normalize(p2))
    case _ => false
  }

  /** Keys of different services are never related. */
  predicate Separate(routes: map<string, RouteEntry>, related: (string, string) -> bool) {
    forall k1, k2 :: k1 in routes && k2 in routes && routes[k1].serviceName != routes[k2].serviceName ==>
        !related(k1, k2)
  }

  /** Routes of different services never overlap. */
  predicate Disjoint(routes: map<string, RouteEntry>) {
    Separate(routes, KeysOverlap)
  }

  /** What the request must be for the table to stay readable: methods are tokens, so
      without a colon (section 9.1 of RFC 9110). */
  predicate PlainMethods(req: Request) {
    forall i :: 0 <= i < |req.routes| ==> ':' !in req.routes[i].verb
  }

  predicate RoutablePaths(req: Request) {
    forall i :: 0 <= i < |req.routes| ==> Routable(req.routes[i].FullPath(req.basePath))
  }

  predicate RoutableTable(routes: map<string, RouteEntry>) {
    forall k :: k in routes && Cut(k, ':').Some? ==> Routable(Cut(k, ':').value.1)
  }

  lemma KeysOverlapSymmetric(k1: string, k2: string)
    ensures KeysOverlap(k1, k2) == KeysOverlap(k2, k1)
  {
  }

  lemma KeyParts(basePath: string, route: Route)
    requires ':' !in route.verb
    ensures Cut(KeyOf(basePath, route), ':') == Some((route.verb, route.FullPath(basePath)))
  {
    CutAtFirst(route.verb, route.FullPath(basePath), ':');
    assert KeyOf(basePath, route) == route.verb + [':'] + route.FullPath(basePath);
  }

  /** A key is read back as the method and the path it was made of exactly when the method has
      no colon. */
  lemma KeyReadBackIff(basePath: string, route: Route)
    ensures Cut(KeyOf(basePath, route), ':') == Some((route.verb, route.FullPath(basePath))) <==> ':' !in route.verb
  {
    if ':' !in route.verb {
      KeyParts(basePath, route);
    } else if Cut(KeyOf(basePath, route), ':').Some? {
      CutStopsAtFirst(KeyOf(basePath, route), ':');
    }
  }

  /** A pattern clash is an overlap of keys with another service's route. */
  lemma ClashIsOverlap(routes: map<string, RouteEntry>, service: string, basePath: string, route: Route, k: string)
    requires k in routes && ':' !in route.verb
    ensures PatternClash(routes, service, route.verb, route.FullPath(basePath), k) <==>
            routes[k].serviceName != service && KeysOverlap(KeyOf(basePath, route), k)
  {
    KeyParts(basePath, route);
  }

  /** A commit keeps services' keys separate exactly when no key of the request is related to a
      key of another service that the commit does not overwrite. */
  lemma CommitSeparatesIff(related: (string, string) -> bool, st: State, id: Id, req: Request, now: int)
    requires forall k1, k2 :: related(k1, k2) ==> related(k2, k1)
    requires Separate(st.routes, related)
    ensures Separate(Commit(st, id, req, now).routes, related) <==>
            forall k1, k2 :: k1 in KeysOf(req.basePath, req.routes) && k2 in KeptOfOthers(st, req) ==> !related(k1, k2)
  {
    var after, keys := Commit(st, id, req, now).routes, KeysOf(req.basePath, req.routes);
    forall k ensures k in after <==> k in st.routes || k in keys
             ensures k in keys ==> after[k].serviceName == req.serviceName
             ensures k in st.routes && k !in keys ==> after[k] == st.routes[k]
    {
      AfterCommit(st, id, req, now, k);
    }
    if forall k1, k2 :: k1 in keys && k2 in KeptOfOthers(st, req) ==> !related(k1, k2) {
      forall k1, k2 | k1 in after && k2 in after && after[k1].serviceName != after[k2].serviceName
        ensures !related(k1, k2)
      {
        if k1 in keys {
          assert k2 in KeptOfOthers(st, req);
        } else if k2 in keys {
          assert k1 in KeptOfOthers(st, req);
        }
      }
    }
  }

  /** The keys of other services that a commit leaves in place. */
  function KeptOfOthers(st: State, req: Request): set<string> {
    set k | k in st.routes && k !in KeysOf(req.basePath, req.routes) && st.routes[k].serviceName != req.serviceName
  }

  /** The commit half keeps routes disjoint exactly when every route of another service that
      the request overlaps is one whose very key the commit overwrites. */
  lemma CommitKeepsDisjointIff(st: State, id: Id, req: Request, now: int)
    requires Disjoint(st.routes) && PlainMethods(req)
    ensures Disjoint(Commit(st, id, req, now).routes) <==>
            forall i, k :: 0 <= i < |req.routes| && k in st.routes && k !in KeysOf(req.basePath, req.routes) ==>
              !PatternClash(st.routes, req.serviceName, req.routes[i].verb, req.routes[i].FullPath(req.basePath), k)
  {
    forall k1, k2 | KeysOverlap(k1, k2) ensures KeysOverlap(k2, k1) {
      KeysOverlapSymmetric(k1, k2);
    }
    CommitSeparatesIff(KeysOverlap, st, id, req, now);
    forall i, k | 0 <= i < |req.routes| && k in st.routes
      ensures KeyOf(req.basePath, req.routes[i]) in KeysOf(req.basePath, req.routes)
      ensures PatternClash(st.routes, req.serviceName, req.routes[i].verb, req.routes[i].FullPath(req.basePath), k) <==>
              st.routes[k].serviceName != req.serviceName && KeysOverlap(KeyOf(req.basePath, req.routes[i]), k)
    {
      ClashIsOverlap(st.routes, req.serviceName, req.basePath, req.routes[i], k);
    }
    ByIndex(st, req);
  }

  lemma ByIndex(st: State, req: Request)
    ensures var keys, kept := KeysOf(req.basePath, req.routes), KeptOfOthers(st, req);
            (forall k1, k2 :: k1 in keys && k2 in kept ==> !KeysOverlap(k1, k2)) <==>
            forall i, k :: 0 <= i < |req.routes| && k in kept ==> !KeysOverlap(KeyOf(req.basePath, req.routes[i]), k)
  {
    var keys, kept := KeysOf(req.basePath, req.routes), KeptOfOthers(st, req);
    if forall k1, k2 :: k1 in keys && k2 in kept ==> !KeysOverlap(k1, k2) {
      forall i, k | 0 <= i < |req.routes| && k in kept ensures !KeysOverlap(KeyOf(req.basePath, req.routes[i]), k) {
        assert KeyOf(req.basePath, req.routes[i]) in keys;
      }
    }
    if forall i, k :: 0 <= i < |req.routes| && k in kept ==> !KeysOverlap(KeyOf(req.basePath, req.routes[i]), k) {
      forall k1, k2 | k1 in keys && k2 in kept ensures !KeysOverlap(k1, k2) {
        var i :| 0 <= i < |req.routes| && k1 == KeyOf(req.basePath, req.routes[i]);
      }
    }
  }

  lemma FewerRoutesDisjoint(before: map<string, RouteEntry>, after: map<string, RouteEntry>)
    requires Disjoint(before) && after.Keys <= before.Keys && forall k :: k in after ==> after[k] == before[k]
    ensures Disjoint(after)
  {
  }

  /** One atomic step under strict matching keeps routes disjoint and routable. */
  lemma StrictStep(sys: Sys, e: Event)
    requires Enabled(sys, e.op) && !e.op.Begin? && !e.op.Finish?
    requires sys.cfg.strictPatternMatching
    requires e.op.Register? ==> PlainMethods(e.op.req) && RoutablePaths(e.op.req)
    requires Disjoint(sys.st.routes) && RoutableTable(sys.st.routes)
    ensures Disjoint(Next(sys, e).st.routes) && RoutableTable(Next(sys, e).st.routes)
  {
    var after := Next(sys, e).st.routes;
    if e.op.Register? && Admits(sys, e.op.req) {
      var req := e.op.req;
      CommitKeepsDisjointIff(sys.st, e.op.id, req, e.at);
      forall i | 0 <= i < |req.routes|
        ensures Clear(sys.cfg, sys.st.routes, req.serviceName, req.basePath, req.routes[i])
      {
      }
      forall k | k in after && Cut(k, ':').Some? ensures Routable(Cut(k, ':').value.1) {
        AfterCommit(sys.st, e.op.id, req, e.at, k);
        if k in KeysOf(req.basePath, req.routes) {
          var i :| 0 <= i < |req.routes| && k == KeyOf(req.basePath, req.routes[i]);
          KeyParts(req.basePath, req.routes[i]);
        }
      }
    } else {
      assert after.Keys <= sys.st.routes.Keys && forall k :: k in after ==> after[k] == sys.st.routes[k];
      FewerRoutesDisjoint(sys.st.routes, after);
    }
  }

  predicate WellMannered(events: seq<Event>) {
    forall i :: 0 <= i < |events| && events[i].op.Register? ==>
        PlainMethods(events[i].op.req) && RoutablePaths(events[i].op.req)
  }

  lemma {:induction false} StrictRun(cfg: Config, tr: Trace, n: nat)
    requires IsRun(cfg, tr) && Atomic(tr.events) && n <= |tr.events|
    requires cfg.strictPatternMatching && WellMannered(tr.events)
    ensures Disjoint(tr.states[n].st.routes) && RoutableTable(tr.states[n].st.routes)
  {
    if n > 0 {
      StrictRun(cfg, tr, n - 1);
      RunKeepsInv(cfg, tr, n - 1);
      assert IsStep(tr, n - 1);
      StrictStep(tr.states[n - 1], tr.events[n - 1]);
    }
  }

  /** In a disjoint, routable table all routes that serve one request belong to one service. */
  lemma OneServiceServes(routes: map<string, RouteEntry>, k1: string, k2: string, verb: string, path: string)
    requires Disjoint(routes) && RoutableTable(routes)
    requires Serves(routes, k1, verb, path) && Serves(routes, k2, verb, path)
    ensures routes[k1].serviceName == routes[k2].serviceName
  {
    SharedPathIsReported(Cut(k1, ':').value.1, Cut(k2, ':').value.1, path);
    assert KeysOverlap(k1, k2);
  }

  lemma ExactKeyServes(routes: map<string, RouteEntry>, verb: string, path: string)
    requires ':' !in verb && RouteKey(verb, path) in routes
    ensures Serves(routes, RouteKey(verb, path), verb, path)
  {
    CutAtFirst(verb, path, ':');
    assert RouteKey(verb, path) == verb + [':'] + path;
    AcceptsItself(path);
  }

  /** In every state of every strict run with atomic registration, all routes that serve a
      request, an exact hit included, belong to one service. */
  lemma StrictOwnersAgree(cfg: Config, tr: Trace, n: nat, k1: string, k2: string, verb: string, path: string)
    requires IsRun(cfg, tr) && Atomic(tr.events) && n <= |tr.events|
    requires cfg.strictPatternMatching && WellMannered(tr.events)
    requires var routes := tr.states[n].st.routes; Serves(routes, k1, verb, path) && Serves(routes, k2, verb, path)
    ensures tr.states[n].st.routes[k1].serviceName == tr.states[n].st.routes[k2].serviceName
  {
    StrictRun(cfg, tr, n);
    OneServiceServes(tr.states[n].st.routes, k1, k2, verb, path);
  }

  /** Whatever MatchRoute returns has a registered instance behind it, in every interleaving. */
  lemma MatchedServiceIsLive(cfg: Config, tr: Trace, n: nat, verb: string, path: string, r: Option<MatchResult>)
    requires IsRun(cfg, tr) && n <= |tr.events|
    requires PossibleMatch(tr.states[n].st.routes, verb, path, r) && r.Some?
    ensures Members(tr.states[n].st.instances, r.value.entry.serviceName) != {}
  {
    IndexInEveryRun(cfg, tr, n);
    var routes := tr.states[n].st.routes;
    if RouteKey(verb, path) !in routes {
      var k :| ServedBy(routes, k, verb, path, r.value);
    }
  }

  // ---------- when routing is deterministic, exactly ----------

  predicate SameService(r1: Option<MatchResult>, r2: Option<MatchResult>) {
    match (r1, r2)
    case (Some(m1), Some(m2)) => m1.entry.serviceName == m2.entry.serviceName
    case _ => r1 == r2
  }

  /** For every request, all orders of the walk find the same service, or all find none. */
  ghost predicate Deterministic(routes: map<string, RouteEntry>) {
    forall verb, path, r1, r2 ::
      PossibleMatch(routes, verb, path, r1) && PossibleMatch(routes, verb, path, r2) ==> SameService(r1, r2)
  }

  /** Some request is served by both keys. */
  ghost predicate Compete(k1: string, k2: string) {
    && Cut(k1, ':').Some? && Cut(k2, ':').Some?
    && Cut(k1, ':').value.0 == Cut(k2, ':').value.0
    && exists path :: Accepts(Cut(k1, ':').value.1, path) && Accepts(Cut(k2, ':').value.1, path)
  }

  /** Slashes at the end change no segment, so a path can be made longer than any key. */
  lemma {:induction false} PadPath(path: string, n: nat) returns (longer: string)
    ensures |longer| >= n && Segments(longer) == Segments(path)
  {
    if n == 0 {
      longer := path;
    } else {
      var p := PadPath(path, n - 1);
      longer := p + ['/'];
      TrimPadded(p, '/');
    }
  }

  lemma OffEveryKey(routes: map<string, RouteEntry>, verb: string, path: string) returns (longer: string)
    ensures Segments(longer) == Segments(path) && RouteKey(verb, longer) !in routes
  {
    var n := LongerThanAll(routes.Keys);
    longer := PadPath(path, n);
    assert |RouteKey(verb, longer)| >= n;
  }

  /** Of two competing keys either may answer some request. */
  lemma EitherMayAnswer(routes: map<string, RouteEntry>, k1: string, k2: string)
    returns (verb: string, path: string, r1: Option<MatchResult>, r2: Option<MatchResult>)
    requires k1 in routes && k2 in routes && Compete(k1, k2)
    ensures PossibleMatch(routes, verb, path, r1) && PossibleMatch(routes, verb, path, r2)
    ensures r1.Some? && r1.value.entry == routes[k1]
    ensures r2.Some? && r2.value.entry == routes[k2]
  {
    var p1, p2 := Cut(k1, ':').value.1, Cut(k2, ':').value.1;
    verb := Cut(k1, ':').value.0;
    var short :| Accepts(p1, short) && Accepts(p2, short);
    path := OffEveryKey(routes, verb, short);
    r1 := Some(MatchResult(routes[k1], Some(Params(Segments(p1), Segments(path)))));
    r2 := Some(MatchResult(routes[k2], Some(Params(Segments(p2), Segments(path)))));
    assert ServedBy(routes, k1, verb, path, r1.value) && ServedBy(routes, k2, verb, path, r2.value);
  }

  lemma ServingKeysCompete(routes: map<string, RouteEntry>, k1: string, k2: string, verb: string, path: string)
    requires Serves(routes, k1, verb, path) && Serves(routes, k2, verb, path)
    ensures Compete(k1, k2)
  {
  }

  /** On any table: routing is deterministic exactly when no two services' keys compete. */
  lemma DeterministicIffNoneCompete(routes: map<string, RouteEntry>)
    ensures Deterministic(routes) <==>
            forall k1, k2 :: k1 in routes && k2 in routes && routes[k1].serviceName != routes[k2].serviceName ==>
                !Compete(k1, k2)
  {
    if k1, k2 :| k1 in routes && k2 in routes && routes[k1].serviceName != routes[k2].serviceName && Compete(k1, k2) {
      var verb, path, r1, r2 := EitherMayAnswer(routes, k1, k2);
      assert !SameService(r1, r2);
    } else {
      forall verb, path, r1, r2 | PossibleMatch(routes, verb, path, r1) && PossibleMatch(routes, verb, path, r2)
        ensures SameService(r1, r2)
      {
        if RouteKey(verb, path) !in routes && r1.Some? && r2.Some? {
          var k1 :| ServedBy(routes, k1, verb, path, r1.value);
          var k2 :| ServedBy(routes, k2, verb, path, r2.value);
          ServingKeysCompete(routes, k1, k2, verb, path);
        }
      }
    }
  }

  /** In every state of every strict run with atomic registration routing is deterministic. */
  lemma StrictRoutingIsDeterministic(cfg: Config, tr: Trace, n: nat)
    requires IsRun(cfg, tr) && Atomic(tr.events) && n <= |tr.events|
    requires cfg.strictPatternMatching && WellMannered(tr.events)
    ensures Deterministic(tr.states[n].st.routes)
  {
    var routes := tr.states[n].st.routes;
    DeterministicIffNoneCompete(routes);
    forall k1, k2 | k1 in routes && k2 in routes && Compete(k1, k2)
      ensures routes[k1].serviceName == routes[k2].serviceName
    {
      var path :| Accepts(Cut(k1, ':').value.1, path) && Accepts(Cut(k2, ':').value.1, path);
      StrictOwnersAgree(cfg, tr, n, k1, k2, Cut(k1, ':').value.0, path);
    }
  }

  /** Two keys name the same method and compatible patterns. */
  predicate KeysMeet(k1: string, k2: string) {
    match (Cut(k1, ':'), Cut(k2, ':'))
    case (Some((m1, p1)), Some((m2, p2))) => m1 == m2 && Compatible(Segments(p1), Segments(p2))
    case _ => false
  }

  /** That is when two keys compete, computed from their segments. */
  lemma CompeteIff(k1: string, k2: string)
    ensures Compete(k1, k2) <==> KeysMeet(k1, k2)
  {
    if Cut(k1, ':').Some? && Cut(k2, ':').Some? {
      SharePathIff(Cut(k1, ':').value.1, Cut(k2, ':').value.1);
    }
  }

  /** On any table, whatever its patterns: routing is deterministic exactly when no two
      services' keys meet. */
  lemma DeterministicIff(routes: map<string, RouteEntry>)
    ensures Deterministic(routes) <==> Separate(routes, KeysMeet)
  {
    DeterministicIffNoneCompete(routes);
    forall k1, k2 | k1 in routes && k2 in routes ensures Compete(k1, k2) <==> KeysMeet(k1, k2) {
      CompeteIff(k1, k2);
    }
  }

  /** A commit keeps routing deterministic exactly when no key of the request meets a key of
      another service, but for those that the commit overwrites. */
  lemma CommitKeepsDeterministicIff(st: State, id: Id, req: Request, now: int)
    requires Deterministic(st.routes)
    ensures Deterministic(Commit(st, id, req, now).routes) <==>
            forall k1, k2 :: k1 in KeysOf(req.basePath, req.routes) && k2 in KeptOfOthers(st, req) ==> !KeysMeet(k1, k2)
  {
    DeterministicIff(st.routes);
    DeterministicIff(Commit(st, id, req, now).routes);
    forall k1, k2 | KeysMeet(k1, k2) ensures KeysMeet(k2, k1) {
      CompeteIff(k1, k2);
      CompeteIff(k2, k1);
    }
    CommitSeparatesIff(KeysMeet, st, id, req, now);
  }

  /** The keys of other services. */
  function HeldByOthers(routes: map<string, RouteEntry>, service: string): set<string> {
    set k | k in routes && routes[k].serviceName != service
  }

  /** An admitted registration overwrites no key of another service. */
  lemma AdmittedKeepsOthers(sys: Sys, req: Request)
    requires Admits(sys, req)
    ensures KeptOfOthers(sys.st, req) == HeldByOthers(sys.st.routes, req.serviceName)
  {
    forall k | k in sys.st.routes && k in KeysOf(req.basePath, req.routes)
      ensures sys.st.routes[k].serviceName == req.serviceName
    {
      AcceptedKeysAreFree(sys.cfg, sys.st.routes, req, k);
    }
  }

  /** Under any config, an admitted registration in one step keeps routing deterministic exactly
      when none of its keys meets a key of another service. */
  lemma RegisterKeepsDeterministicIff(sys: Sys, id: Id, req: Request, at: int)
    requires Fresh(sys, id) && Admits(sys, req) && Deterministic(sys.st.routes)
    ensures Deterministic(Next(sys, Event(at, Register(id, req))).st.routes) <==>
            var keys, others := KeysOf(req.basePath, req.routes), HeldByOthers(sys.st.routes, req.serviceName);
            forall k1, k2 :: k1 in keys && k2 in others ==> !KeysMeet(k1, k2)
  {
    CommitKeepsDeterministicIff(sys.st, id, req, at);
    AdmittedKeepsOthers(sys, req);
  }

  // ---------- the strict check against that ----------

  predicate WellFormedTable(routes: map<string, RouteEntry>) {
    forall k :: k in routes && Cut(k, ':').Some? ==> WellFormed(Cut(k, ':').value.1)
  }

  predicate WellFormedPaths(req: Request) {
    forall i :: 0 <= i < |req.routes| ==> WellFormed(req.routes[i].FullPath(req.basePath))
  }

  lemma CompeteIsOverlap(routes: map<string, RouteEntry>, k1: string, k2: string)
    requires WellFormedTable(routes) && k1 in routes && k2 in routes
    ensures Compete(k1, k2) <==> KeysOverlap(k1, k2)
  {
    if Cut(k1, ':').Some? && Cut(k2, ':').Some? {
      OverlapIsExact(Cut(k1, ':').value.1, Cut(k2, ':').value.1);
    }
  }

  /** On well-formed patterns deterministic routing is what the registry's overlap test decides. */
  lemma DeterministicIffDisjoint(routes: map<string, RouteEntry>)
    requires WellFormedTable(routes)
    ensures Deterministic(routes) <==> Disjoint(routes)
  {
    DeterministicIffNoneCompete(routes);
    forall k1, k2 | k1 in routes && k2 in routes ensures Compete(k1, k2) <==> KeysOverlap(k1, k2) {
      CompeteIsOverlap(routes, k1, k2);
    }
  }

  lemma CommitKeepsWellFormed(st: State, id: Id, req: Request, now: int)
    requires WellFormedTable(st.routes) && PlainMethods(req) && WellFormedPaths(req)
    ensures WellFormedTable(Commit(st, id, req, now).routes)
  {
    var after := Commit(st, id, req, now).routes;
    forall k | k in after && Cut(k, ':').Some? ensures WellFormed(Cut(k, ':').value.1) {
      AfterCommit(st, id, req, now, k);
      if k in KeysOf(req.basePath, req.routes) {
        var i :| 0 <= i < |req.routes| && k == KeyOf(req.basePath, req.routes[i]);
        KeyParts(req.basePath, req.routes[i]);
      }
    }
  }

  function Strict(cfg: Config): Config {
    cfg.(strictPatternMatching := true)
  }

  lemma StrictAcceptance(cfg: Config, routes: map<string, RouteEntry>, req: Request)
    requires Accepted(cfg, routes, req)
    ensures Accepted(Strict(cfg), routes, req) <==>
            forall i, k :: 0 <= i < |req.routes| && k in routes ==>
              !PatternClash(routes, req.serviceName, req.routes[i].verb, req.routes[i].FullPath(req.basePath), k)
  {
    forall i | 0 <= i < |req.routes|
      ensures Clear(Strict(cfg), routes, req.serviceName, req.basePath, req.routes[i]) <==>
              forall k :: k in routes ==>
                !PatternClash(routes, req.serviceName, req.routes[i].verb, req.routes[i].FullPath(req.basePath), k)
    {
      assert Clear(cfg, routes, req.serviceName, req.basePath, req.routes[i]);
    }
  }

  /** On well-formed patterns the strict check is exact: under any config, an admitted
      registration in one step keeps routing deterministic exactly when that check would have
      let it through. */
  lemma StrictCheckIsExact(sys: Sys, id: Id, req: Request, at: int)
    requires Fresh(sys, id) && Admits(sys, req)
    requires Deterministic(sys.st.routes) && WellFormedTable(sys.st.routes) && PlainMethods(req) && WellFormedPaths(req)
    ensures Deterministic(Next(sys, Event(at, Register(id, req))).st.routes) <==>
            Accepted(Strict(sys.cfg), sys.st.routes, req)
  {
    CommitKeepsWellFormed(sys.st, id, req, at);
    DeterministicIffDisjoint(sys.st.routes);
    DeterministicIffDisjoint(Commit(sys.st, id, req, at).routes);
    CommitKeepsDisjointIff(sys.st, id, req, at);
    StrictAcceptance(sys.cfg, sys.st.routes, req);
    forall k | k in sys.st.routes && k in KeysOf(req.basePath, req.routes)
      ensures sys.st.routes[k].serviceName == req.serviceName
    {
      AcceptedKeysAreFree(sys.cfg, sys.st.routes, req, k);
    }
  }

  // ---------- the entry itself ----------

  /** For every request, all orders of the walk give the same entry with the same parameters. */
  ghost predicate EntryDeterministic(routes: map<string, RouteEntry>) {
    forall verb, path, r1, r2 ::
      PossibleMatch(routes, verb, path, r1) && PossibleMatch(routes, verb, path, r2) ==> r1 == r2
  }

  /** No two keys meet, those of one service included. */
  predicate NoneMeet(routes: map<string, RouteEntry>) {
    forall k1, k2 :: k1 in routes && k2 in routes && k1 != k2 ==> !KeysMeet(k1, k2)
  }

  /** Every entry is stored under the key of its own route. */
  predicate SelfKeyed(routes: map<string, RouteEntry>) {
    forall k :: k in routes ==> k == KeyOf(routes[k].basePath, routes[k].route)
  }

  lemma {:induction false} AddRoutesSelfKeyed(table: map<string, RouteEntry>, service: string, basePath: string,
      routes: seq<Route>, now: int)
    requires SelfKeyed(table)
    ensures SelfKeyed(AddRoutes(table, service, basePath, routes, now))
  {
    if routes != [] {
      AddRoutesSelfKeyed(table, service, basePath, routes[..|routes| - 1], now);
    }
  }

  lemma SelfKeyedStep(sys: Sys, e: Event)
    requires Enabled(sys, e.op) && SelfKeyed(sys.st.routes)
    ensures SelfKeyed(Next(sys, e).st.routes)
  {
    match e.op
    case Finish(ticket) =>
      var p := sys.pending[ticket];
      AddRoutesSelfKeyed(sys.st.routes, p.req.serviceName, p.req.basePath, p.req.routes, p.now);
    case Register(id, req) =>
      AddRoutesSelfKeyed(sys.st.routes, req.serviceName, req.basePath, req.routes, e.at);
    case _ =>
  }

  lemma {:induction false} SelfKeyedInEveryRun(cfg: Config, tr: Trace, n: nat)
    requires IsRun(cfg, tr) && n <= |tr.events|
    ensures SelfKeyed(tr.states[n].st.routes)
  {
    if n > 0 {
      SelfKeyedInEveryRun(cfg, tr, n - 1);
      assert IsStep(tr, n - 1);
      SelfKeyedStep(tr.states[n - 1], tr.events[n - 1]);
    }
  }

  /** The entry, its scopes and parameters included, is independent of the walk's order exactly
      when no two keys of the table meet. */
  lemma EntryDeterministicIff(routes: map<string, RouteEntry>)
    requires SelfKeyed(routes)
    ensures EntryDeterministic(routes) <==> NoneMeet(routes)
  {
    if k1, k2 :| k1 in routes && k2 in routes && k1 != k2 && KeysMeet(k1, k2) {
      CompeteIff(k1, k2);
      var verb, path, r1, r2 := EitherMayAnswer(routes, k1, k2);
      assert r1 != r2;
    } else {
      forall verb, path, r1, r2 | PossibleMatch(routes, verb, path, r1) && PossibleMatch(routes, verb, path, r2)
        ensures r1 == r2
      {
        if RouteKey(verb, path) !in routes && r1.Some? && r2.Some? {
          var k1 :| ServedBy(routes, k1, verb, path, r1.value);
          var k2 :| ServedBy(routes, k2, verb, path, r2.value);
          ServingKeysCompete(routes, k1, k2, verb, path);
          CompeteIff(k1, k2);
        }
      }
    }
  }

  // ---------- where the promise fails ----------

  /** A service's request for a single route. */
  datatype Offer = Offer(service: string, verb: string, pattern: string, public: bool)
  {
    function Route(): RegistrySpec.Route {
      RegistrySpec.Route(verb, "", public, 0, [])
    }

    function Request(): RegistrySpec.Request {
      RegistrySpec.Request(service, "h", 1, "", "", pattern, [Route()], map[])
    }

    function Key(): string {
      RouteKey(verb, pattern)
    }

    function Entry(at: int): RouteEntry {
      RouteEntry(service, pattern, Route(), at)
    }
  }

  predicate Sound(x: Offer) {
    x.service != "" && x.pattern != ""
  }

  lemma OfferedAlone(x: Offer, table: map<string, RouteEntry>, at: int)
    requires Sound(x)
    ensures Validate(x.Request()).None? && KeysOf(x.pattern, x.Request().routes) == {x.Key()}
    ensures AddRoutes(table, x.service, x.pattern, x.Request().routes, at) == table[x.Key() := x.Entry(at)]
  {
    var routes := x.Request().routes;
    assert KeyOf(x.pattern, routes[0]) == x.Key();
    assert AddRoutes(table, x.service, x.pattern, routes[..0], at) == table;
  }

  /** What the registry checks of y when it holds x alone. */
  predicate Passes(cfg: Config, x: Offer, y: Offer) {
    x.service == y.service ||
    (x.Key() != y.Key() && (cfg.strictPatternMatching ==> PassesStrictly(x, y)))
  }

  predicate PassesStrictly(x: Offer, y: Offer) {
    match Cut(x.Key(), ':')
    case None => true
    case Some((verb, pattern)) => verb != y.verb || !PathsOverlap(Normalize(y.pattern), Normalize(pattern))
  }

  function Both(x: Offer, y: Offer, at: int): map<string, RouteEntry> {
    map[x.Key() := x.Entry(at), y.Key() := y.Entry(at)]
  }

  /** Two offers are registered one after the other, each in one step. */
  lemma BothOffered(cfg: Config, x: Offer, y: Offer, at: int) returns (tr: Trace)
    requires Sound(x) && Sound(y) && Passes(cfg, x, y)
    ensures IsRun(cfg, tr) && Atomic(tr.events)
    ensures tr.events == [Event(at, Register("1", x.Request())), Event(at, Register("2", y.Request()))]
    ensures tr.states[2].st.routes == Both(x, y, at)
  {
    OfferedAlone(x, map[], at);
    OfferedAlone(y, map[x.Key() := x.Entry(at)], at);
    var first := Commit(EMPTY, "1", x.Request(), at);
    assert first.routes == map[x.Key() := x.Entry(at)];
    assert Clear(cfg, first.routes, y.service, y.pattern, y.Route());
    tr := BothRegistered(cfg, x.Request(), y.Request(), "1", "2", at);
  }

  /** A run of two registrations, each in one step, after which one request may be served by
      either of two services. */
  ghost predicate FailingRun(cfg: Config, tr: Trace, x: Offer, y: Offer, at: int) {
    && IsRun(cfg, tr) && Atomic(tr.events)
    && tr.events == [Event(at, Register("1", x.Request())), Event(at, Register("2", y.Request()))]
    && !Deterministic(tr.states[2].st.routes)
  }

  lemma CompetingOffers(x: Offer, y: Offer, at: int)
    requires x.service != y.service && Compete(x.Key(), y.Key()) && x.Key() != y.Key()
    ensures !Deterministic(Both(x, y, at))
  {
    DeterministicIffNoneCompete(Both(x, y, at));
  }

  /** Without strict matching: any two services whose patterns compete end up in a reachable
      state in which one request may be served by either. */
  lemma LaxRoutingIsAmbiguous(cfg: Config, x: Offer, y: Offer, at: int) returns (tr: Trace)
    requires !cfg.strictPatternMatching && Sound(x) && Sound(y)
    requires x.service != y.service && x.Key() != y.Key() && Compete(x.Key(), y.Key())
    ensures FailingRun(cfg, tr, x, y, at)
  {
    tr := BothOffered(cfg, x, y, at);
    CompetingOffers(x, y, at);
  }

  /** Under any config, strict or not, the same when the two registrations overlap in time. */
  lemma TwoPhaseRoutingIsAmbiguous(cfg: Config, x: Offer, y: Offer, at: int) returns (tr: Trace)
    requires Sound(x) && Sound(y)
    requires x.service != y.service && x.Key() != y.Key() && Compete(x.Key(), y.Key())
    ensures IsRun(cfg, tr) && |tr.events| == 4 && !Deterministic(tr.states[4].st.routes)
  {
    OfferedAlone(x, map[], at);
    OfferedAlone(y, map[x.Key() := x.Entry(at)], at);
    tr := BothBegunThenFinished(cfg, x.Request(), y.Request(), "1", "2", at);
    CompetingOffers(x, y, at);
  }

  // Each condition of the strict promise is needed: the four runs below meet all the others.

  /** Two offers that compete and that the registry still lets through. */
  lemma Escapes(cfg: Config, x: Offer, y: Offer, verb: string, p: string, q: string, path: string, at: int)
      returns (tr: Trace)
    requires Sound(x) && Sound(y) && x.service != y.service && x.Key() != y.Key() && Passes(cfg, x, y)
    requires Cut(x.Key(), ':') == Some((verb, p)) && Cut(y.Key(), ':') == Some((verb, q))
    requires Accepts(p, path) && Accepts(q, path)
    ensures FailingRun(cfg, tr, x, y, at)
  {
    tr := BothOffered(cfg, x, y, at);
    assert Compete(x.Key(), y.Key());
    CompetingOffers(x, y, at);
  }

  lemma OfferKey(x: Offer)
    requires ':' !in x.verb
    ensures Cut(x.Key(), ':') == Some((x.verb, x.pattern))
    ensures x.Key()[|x.verb| + 1..] == x.pattern
  {
    CutAtFirst(x.verb, x.pattern, ':');
    assert x.Key() == x.verb + [':'] + x.pattern;
  }

  /** A nameless parameter escapes the strict check, which takes it for a literal. */
  lemma NamelessParameterEscapes(cfg: Config, a: string, b: string, at: int) returns (tr: Trace)
    requires a != b && a != "" && b != ""
    ensures FailingRun(cfg, tr, Offer(a, "GET", "/:", true), Offer(b, "GET", "/x", true), at)
    ensures BraceLocal("/:") && "*" !in Segments("/:") && Routable("/x")
  {
    var x, y := Offer(a, "GET", "/:", true), Offer(b, "GET", "/x", true);
    OfferKey(x);
    OfferKey(y);
    NamelessUnseen();
    tr := Escapes(cfg, x, y, "GET", "/:", "/x", "/x", at);
  }

  lemma NamelessUnseen()
    ensures Accepts("/:", "/x") && Accepts("/x", "/x") && !PathsOverlap(Normalize("/x"), Normalize("/:"))
    ensures BraceLocal("/:") && "*" !in Segments("/:") && Routable("/x")
  {
    LoneX();
    SegmentsOfRooted([":"], "/:");
    LoneAccepts("/:", "/x", ":", "x");
    AcceptsItself("/x");
    LoneColonIsLocal();
    NamelessNotReported();
    SharedPathReportedIff("/x", "/:", "/x");
  }

  lemma NamelessNotReported()
    ensures !ReportedAt(["x"], [":"], 0)
  {
    ParamNormalizes(":");
    NormalizeSegment("x");
    StarFree([":"]);
    StarFree(["x"]);
  }

  lemma LoneAccepts(pattern: string, path: string, param: string, value: string)
    requires Segments(pattern) == [param] && Segments(path) == [value] && IsParam(param)
    ensures Accepts(pattern, path)
  {
    StarFree([param]);
  }

  lemma LoneWellFormed(pattern: string, segment: string)
    requires Segments(pattern) == [segment] && (NamedParam(segment) || PlainLiteral(segment))
    ensures Routable(pattern)
  {
    WellFormedIsRoutable(pattern);
  }

  lemma LoneColonIsLocal()
    ensures BraceLocal("/:")
  {
    assert "/:"[1..] == ":" && ":"[1..] == "";
    assert TrimLeft("/:", '/') == ":" && TrimRight(":", '/') == ":";
    assert ParamMatch(":") == 0 && KeepsSlashes("");
  }

  /** A catch-all escapes it when it stands for more or fewer segments than one. */
  lemma CatchAllEscapes(cfg: Config, a: string, b: string, at: int) returns (tr: Trace)
    requires a != b && a != "" && b != ""
    ensures FailingRun(cfg, tr, Offer(a, "GET", "/*", true), Offer(b, "GET", "/a/b", true), at)
    ensures BraceLocal("/*") && ":" !in Segments("/*") && Routable("/a/b")
  {
    var x, y := Offer(a, "GET", "/*", true), Offer(b, "GET", "/a/b", true);
    OfferKey(x);
    OfferKey(y);
    CatchAllUnseen();
    tr := Escapes(cfg, x, y, "GET", "/*", "/a/b", "/a/b", at);
  }

  lemma CatchAllUnseen()
    ensures Accepts("/*", "/a/b") && Accepts("/a/b", "/a/b") && !PathsOverlap(Normalize("/a/b"), Normalize("/*"))
    ensures BraceLocal("/*") && ":" !in Segments("/*") && Routable("/a/b")
  {
    SegmentsOfRooted(["*"], "/*");
    TwoSegments("a", "b", "/a/b");
    TwoWellFormed("a", "b", "/a/b");
    StarIsLocal();
    StarFree(["a", "b"]);
    CatchAllReportedIff("/a/b", "/*", "/a/b");
  }

  lemma StarIsLocal()
    ensures BraceLocal("/*")
  {
    assert "/*"[1..] == "*" && "*"[1..] == "";
    assert TrimLeft("/*", '/') == "*" && TrimRight("*", '/') == "*";
    assert ParamMatch("*") == 0 && KeepsSlashes("");
  }

  lemma TwoSegments(first: string, second: string, path: string)
    requires first != "" && second != "" && '/' !in first && '/' !in second
    requires path == "/" + first + "/" + second
    ensures Segments(path) == [first, second]
  {
    assert [first, second][1..] == [second];
    assert Join([first, second], '/') == first + ['/'] + second;
    SegmentsOfRooted([first, second], path);
  }

  /** A brace group that spans a slash escapes it: normalising loses a segment. */
  lemma BraceSpanEscapes(cfg: Config, a: string, b: string, at: int) returns (tr: Trace)
    requires a != b && a != "" && b != ""
    ensures FailingRun(cfg, tr, Offer(a, "GET", "/:p/b}", true), Offer(b, "GET", "/{a/b}", true), at)
    ensures Routable("/:p/b}") && "*" !in Segments("/{a/b}") && ":" !in Segments("/{a/b}")
  {
    var x, y := Offer(a, "GET", "/:p/b}", true), Offer(b, "GET", "/{a/b}", true);
    OfferKey(x);
    OfferKey(y);
    BraceSpanUnseen();
    assert x.pattern[1] == ':' && y.pattern[1] == '{';
    tr := Escapes(cfg, x, y, "GET", "/:p/b}", "/{a/b}", "/{a/b}", at);
  }

  lemma BraceSpanUnseen()
    ensures Accepts("/:p/b}", "/{a/b}") && Accepts("/{a/b}", "/{a/b}")
    ensures !PathsOverlap(Normalize("/{a/b}"), Normalize("/:p/b}"))
    ensures Routable("/:p/b}") && "*" !in Segments("/{a/b}") && ":" !in Segments("/{a/b}")
  {
    BraceSpanServed();
    GroupSpansSlash();
    BraceSpanReportedIff("/{a/b}", "/:p/b}", "/{a/b}");
  }

  lemma BraceSpanServed()
    ensures Accepts("/:p/b}", "/{a/b}") && Accepts("/{a/b}", "/{a/b}")
    ensures Routable("/:p/b}") && "*" !in Segments("/{a/b}") && ":" !in Segments("/{a/b}")
  {
    TwoSegments(":p", "b}", "/:p/b}");
    TwoSegments("{a", "b}", "/{a/b}");
    ParamThenLiteral(":p", "{a", "b}");
    AcceptsItself("/{a/b}");
    BraceSpanOther();
  }

  lemma BraceSpanOther()
    ensures Routable("/:p/b}")
  {
    TwoSegments(":p", "b}", "/:p/b}");
    TwoWellFormed(":p", "b}", "/:p/b}");
  }

  lemma TwoWellFormed(first: string, second: string, pattern: string)
    requires Segments(pattern) == [first, second]
    requires (NamedParam(first) || PlainLiteral(first)) && (NamedParam(second) || PlainLiteral(second))
    ensures Routable(pattern)
  {
    WellFormedIsRoutable(pattern);
  }

  lemma GroupSpansSlash()
    ensures !BraceLocal("/{a/b}")
  {
    var s := "{a/b}";
    assert "/{a/b}"[1..] == s;
    assert TrimLeft("/{a/b}", '/') == s && TrimRight(s, '/') == s;
    RunUnique(s[1..], '}', 3);
    assert s[..5][2] == '/';
  }

  /** So does a method with a colon, since the key is cut at its first colon: the route of the
      second service is then read as one for the method "GET". */
  lemma ColonMethodEscapes(cfg: Config, a: string, b: string, at: int) returns (tr: Trace)
    requires a != b && a != "" && b != ""
    ensures FailingRun(cfg, tr, Offer(a, "GET", "/:p/x", true), Offer(b, "GET:", "/x", true), at)
    ensures Routable("/:p/x") && Routable("/x")
  {
    var x, y := Offer(a, "GET", "/:p/x", true), Offer(b, "GET:", "/x", true);
    OfferKey(x);
    CutAtFirst("GET", ":/x", ':');
    assert y.Key() == "GET" + [':'] + ":/x";
    ReadAsGet();
    BothRoutable();
    assert x.Key()[4] == '/' && y.Key()[4] == ':';
    tr := Escapes(cfg, x, y, "GET", "/:p/x", ":/x", "/q/x", at);
  }

  lemma ReadAsGet()
    ensures Accepts("/:p/x", "/q/x") && Accepts(":/x", "/q/x")
  {
    TwoSegments(":p", "x", "/:p/x");
    TwoSegments("q", "x", "/q/x");
    NamelessThenX();
    ParamThenLiteral(":p", "q", "x");
    ParamThenLiteral(":", "q", "x");
  }

  lemma BothRoutable()
    ensures Routable("/:p/x") && Routable("/x")
  {
    TwoSegments(":p", "x", "/:p/x");
    TwoWellFormed(":p", "x", "/:p/x");
    SegmentsOfRooted(["x"], "/x");
    WellFormedIsRoutable("/x");
  }

  lemma ParamThenLiteral(param: string, value: string, literal: string)
    requires IsParam(param) && literal != "*"
    ensures Matches([param, literal], [value, literal])
  {
    assert FirstStar([param, literal][1..]) == 1;
  }

  lemma NamelessThenX()
    ensures Segments(":/x") == [":", "x"]
  {
    assert [":", "x"][1..] == ["x"];
    assert Join([":", "x"], '/') == ":/x";
    SegmentsOfJoin([":", "x"]);
  }

  /** The other way round, the strict check may refuse what would do no harm: it takes a brace
      group for a wildcard, the matcher takes it for a literal. In this strict run the second
      registration is refused, though with both routes routing would be deterministic. */
  lemma BraceNameRefusedNeedlessly(cfg: Config, a: string, b: string, at: int) returns (tr: Trace)
    requires a != b && a != "" && b != "" && cfg.strictPatternMatching
    ensures var x, y := Offer(a, "GET", "/{id}", true), Offer(b, "GET", "/x", true);
      && IsRun(cfg, tr) && |tr.events| == 2
      && tr.events == [Event(at, Register("1", x.Request())), Event(at, Register("2", y.Request()))]
      && tr.states[1].st.routes == map[x.Key() := x.Entry(at)] && tr.states[2] == tr.states[1]
      && Deterministic(Both(x, y, at))
    ensures Routable("/{id}") && Routable("/x")
  {
    var x, y := Offer(a, "GET", "/{id}", true), Offer(b, "GET", "/x", true);
    OfferKey(x);
    OfferKey(y);
    BraceNameReported();
    tr := SecondRefused(cfg, x, y, at);
    DeterministicTogether(x, y, at);
  }

  lemma DeterministicTogether(x: Offer, y: Offer, at: int)
    requires !KeysMeet(x.Key(), y.Key()) && !KeysMeet(y.Key(), x.Key())
    ensures Deterministic(Both(x, y, at))
  {
    DeterministicIff(Both(x, y, at));
  }

  lemma BraceNameReported()
    ensures Routable("/{id}") && Routable("/x") && PathsOverlap(Normalize("/x"), Normalize("/{id}"))
    ensures !Compatible(Segments("/x"), Segments("/{id}")) && !Compatible(Segments("/{id}"), Segments("/x"))
  {
    LoneX();
    LoneBraceName();
    LoneSegments("/x", "/{id}", "x", "{id}");
  }

  lemma LoneX()
    ensures Segments("/x") == ["x"] && Routable("/x")
  {
    SegmentsOfRooted(["x"], "/x");
    WellFormedIsRoutable("/x");
  }

  lemma LoneBraceName()
    ensures Segments("/{id}") == ["{id}"] && Routable("/{id}") && Normalize("{id}") == "*"
  {
    BraceNameNormalizes();
    SegmentsOfRooted(["{id}"], "/{id}");
  }

  /** Patterns of one literal each, the second of which the overlap test takes for a wildcard. */
  lemma LoneSegments(p: string, q: string, a: string, b: string)
    requires BraceLocal(p) && BraceLocal(q) && Segments(p) == [a] && Segments(q) == [b]
    requires !IsParam(a) && !IsParam(b) && a != b && a != "*" && b != "*" && Normalize(b) == "*"
    ensures PathsOverlap(Normalize(p), Normalize(q))
    ensures !Compatible(Segments(p), Segments(q)) && !Compatible(Segments(q), Segments(p))
  {
    SegmentsOfNormalized(p);
    SegmentsOfNormalized(q);
    LoneOverlap(Segments(Normalize(p)), Segments(Normalize(q)));
    LoneLiteralsDiffer(a, b);
  }

  lemma LoneOverlap(N: seq<string>, M: seq<string>)
    requires |N| == |M| == 1 && M[0] == "*"
    ensures SegmentsOverlap(N, M)
  {
  }

  lemma LoneLiteralsDiffer(a: string, b: string)
    requires !IsParam(a) && !IsParam(b) && a != b && a != "*" && b != "*"
    ensures !Compatible([a], [b]) && !Compatible([b], [a])
  {
    StarFree([a]);
    StarFree([b]);
    assert [a][0] != [b][0];
  }

  lemma BraceNameNormalizes()
    ensures BraceLocal("/{id}") && Normalize("{id}") == "*"
  {
    var s := "{id}";
    assert "/{id}"[1..] == s;
    assert TrimLeft("/{id}", '/') == s && TrimRight(s, '/') == s;
    RunUnique(s[1..], '}', 2);
    assert ParamMatch(s) == 4 && s[4..] == "" && s[..4] == s;
    assert KeepsSlashes("") && Normalize("") == "";
  }

  lemma SecondRefused(cfg: Config, x: Offer, y: Offer, at: int) returns (tr: Trace)
    requires Sound(x) && Sound(y) && x.service != y.service && cfg.strictPatternMatching && x.Key() != y.Key()
    requires Cut(x.Key(), ':') == Some((y.verb, x.pattern))
    requires PathsOverlap(Normalize(y.pattern), Normalize(x.pattern))
    ensures IsRun(cfg, tr)
    ensures tr.events == [Event(at, Register("1", x.Request())), Event(at, Register("2", y.Request()))]
    ensures tr.states[1].st.routes == map[x.Key() := x.Entry(at)] && tr.states[2] == tr.states[1]
  {
    OfferedAlone(x, map[], at);
    var s0 := Start(cfg);
    var s1 := Sys(cfg, Commit(EMPTY, "1", x.Request(), at), [] + ["1"], map[]);
    assert s1.st.routes == map[x.Key() := x.Entry(at)];
    Refused(cfg, s1, x, y, at);
    tr := Trace([s0, s1, s1], [Event(at, Register("1", x.Request())), Event(at, Register("2", y.Request()))]);
    assert Admits(s0, x.Request());
    assert IsStep(tr, 0) && IsStep(tr, 1);
  }

  lemma Refused(cfg: Config, sys: Sys, x: Offer, y: Offer, at: int)
    requires sys.cfg == cfg && sys.st.routes == map[x.Key() := x.Entry(at)]
    requires x.service != y.service && cfg.strictPatternMatching && Sound(y)
    requires Cut(x.Key(), ':') == Some((y.verb, x.pattern))
    requires PathsOverlap(Normalize(y.pattern), Normalize(x.pattern))
    ensures !Admits(sys, y.Request())
  {
    assert PatternClash(sys.st.routes, y.service, y.verb, y.pattern, x.Key());
    assert !Clear(cfg, sys.st.routes, y.service, y.pattern, y.Request().routes[0]);
  }

  /** Even in a strict run the entry may depend on the order of the walk: routes of one service
      are not checked against each other, and here one is public and the other is not. */
  lemma StrictEntryIsAmbiguous(cfg: Config, a: string, at: int)
    returns (tr: Trace, verb: string, path: string, r1: Option<MatchResult>, r2: Option<MatchResult>)
    requires a != ""
    ensures IsRun(cfg, tr) && Atomic(tr.events) && WellMannered(tr.events) && |tr.events| == 2
    ensures var routes := tr.states[2].st.routes;
            PossibleMatch(routes, verb, path, r1) && PossibleMatch(routes, verb, path, r2)
    ensures r1.Some? && r1.value.entry.serviceName == a && r1.value.entry.route.public
    ensures r2.Some? && r2.value.entry.serviceName == a && !r2.value.entry.route.public
  {
    var x, y := Offer(a, "GET", "/:p", true), Offer(a, "GET", "/:q", false);
    TwoParameterOffers(x, y);
    tr := BothOffered(cfg, x, y, at);
    TwoRegistrations(tr.events, x.Request(), y.Request(), at);
    verb, path, r1, r2 := EitherEntryMayAnswer(tr.states[2].st.routes, x, y, at);
  }

  lemma MannerlyOffer(x: Offer)
    requires Sound(x) && ':' !in x.verb && Routable(x.pattern)
    ensures PlainMethods(x.Request()) && RoutablePaths(x.Request())
  {
  }

  lemma TwoParameterOffers(x: Offer, y: Offer)
    requires Sound(x) && Sound(y) && x.verb == y.verb == "GET" && x.pattern == "/:p" && y.pattern == "/:q"
    ensures x.Key() != y.Key() && Compete(x.Key(), y.Key())
    ensures PlainMethods(x.Request()) && RoutablePaths(x.Request())
    ensures PlainMethods(y.Request()) && RoutablePaths(y.Request())
  {
    OfferKey(x);
    OfferKey(y);
    TwoParameters();
    MannerlyOffer(x);
    MannerlyOffer(y);
    assert x.Key()[4..][2] == 'p' && y.Key()[4..][2] == 'q';
  }

  lemma EitherEntryMayAnswer(routes: map<string, RouteEntry>, x: Offer, y: Offer, at: int)
    returns (verb: string, path: string, r1: Option<MatchResult>, r2: Option<MatchResult>)
    requires routes == Both(x, y, at) && x.Key() != y.Key() && Compete(x.Key(), y.Key())
    ensures PossibleMatch(routes, verb, path, r1) && PossibleMatch(routes, verb, path, r2)
    ensures r1.Some? && r1.value.entry == x.Entry(at)
    ensures r2.Some? && r2.value.entry == y.Entry(at)
  {
    verb, path, r1, r2 := EitherMayAnswer(routes, x.Key(), y.Key());
  }

  lemma TwoParameters()
    ensures Accepts("/:p", "/x") && Accepts("/:q", "/x") && Routable("/:p") && Routable("/:q")
  {
    SegmentsOfRooted([":p"], "/:p");
    SegmentsOfRooted([":q"], "/:q");
    LoneX();
    LoneAccepts("/:p", "/x", ":p", "x");
    LoneAccepts("/:q", "/x", ":q", "x");
    LoneWellFormed("/:p", ":p");
    LoneWellFormed("/:q", ":q");
  }

  lemma TwoRegistrations(events: seq<Event>, reqA: Request, reqB: Request, at: int)
    requires events == [Event(at, Register("1", reqA)), Event(at, Register("2", reqB))]
    requires PlainMethods(reqA) && RoutablePaths(reqA) && PlainMethods(reqB) && RoutablePaths(reqB)
    ensures WellMannered(events)
  {
  }
}
