# A verified model of the gateway's registry, routing and limits

This project models the parts of the API gateway whose behaviour spans several functions or whole
runs, and proves what they promise. `dafny verify dfyconfig.toml` checks everything.

The code works by changing things step by step, so the operations are methods: the registry, the two
rate limiters, the span exporter, the balancer and the client are classes whose methods update their
fields, and the matcher, the overlap test, `MatchRoute` and the retry loop are methods with loops. Each
method is proved against a specification function, and the properties are then proved of those
functions and of the runs built from them.

| file | what it models |
|---|---|
| `Clock.dfy`, `Lists.dfy`, `Text.dfy`, `Filtering.dfy` | durations; sequences laid end to end; Go's `strings` operations that the routing code uses; order-preserving selection of ids |
| `Patterns.dfy`, `Matcher.dfy` | `normalizePath` and `pathsOverlap`; `matchPathWithParams`; how the static test and the matcher relate |
| `RegistrySpec.dfy`, `Registry.dfy` | the registry's three maps as a value with its invariant; the registry as the object that updates them |
| `Runs.dfy`, `Routing.dfy`, `Staleness.dfy` | whole runs of the registry with one-step and two-phase registration: index, ownership, routing, time bounds |
| `RateLimit.dfy`, `RedisLimit.dfy` | the in-memory and the Redis limiter, and the simulation between them |
| `Spans.dfy` | the bounded channel, batch and drain loop of the span exporter |
| `Balancer.dfy` | the wrapping 64-bit round-robin counter |
| `Retry.dfy`, `ClientProtocol.dfy`, `Client.dfy` | `retryWithBackoff`; the client and the gateway as one step system with lost messages; the client object, proved to stay on runs of that system |

## Main results

* **The index survives every interleaving.** With registration split into validation under the read
  lock and commit under the write lock, and anything in between, `services` is always the commit order
  cut down to each service's instances, and no route dangles (`Runs.IndexInEveryRun`).
* **Ownership is stable for one-step registration only.** A route key changes hands only through a state
  in which it is free and the old owner has no instance (`Runs.OwnershipIsStable`). For the two-phase
  form this is false; `Runs.TwoPhaseTakesRoute` builds the run, and `Runs.FinishKeepsOwnersIff` says
  exactly when a commit keeps all owners.
* **Strict registration makes routing deterministic.** In every state of every run with one-step
  registration, the strict flag and the conditions below, every order of the route map gives the same
  service (`Routing.StrictRoutingIsDeterministic`).
* **When routing is deterministic, exactly.** Any two patterns accept a common path if and only if their
  segments are compatible, which can be computed from them (`Matcher.SharePathIff`). So on any table,
  whatever its patterns, routing is deterministic if and only if no two services' keys meet in that sense
  (`Routing.DeterministicIff`), and any commit or one-step registration keeps it so if and only if it adds
  no such pair (`Routing.CommitKeepsDeterministicIff`, `Routing.RegisterKeepsDeterministicIff`).
* **On well-formed patterns the strict check is exact.** With segments that are named parameters or plain
  literals and methods without a colon, the registry's overlap test decides whether a common path exists (`Matcher.OverlapIsExact`), and
  an admitted registration keeps routing deterministic exactly when the strict check would have admitted it
  (`Routing.StrictCheckIsExact`). On other patterns it errs in both directions; see below.
* **Cleanup is independent of both of its orders**, and its exact result is known (`Registry.Registry.Cleanup`
  against `RegistrySpec.Cleanup`, `RegistrySpec.CleanupInstances`, `RegistrySpec.CleanupIndex`).
* **Timed bounds** on how stale a listed instance can be (`Staleness.StalenessBound`), and exactly how
  long one stays registered and healthy (`Staleness.RegisteredIffBeating`, `Staleness.HealthyIffBeating`) and
  when it is unhealthy (`Staleness.StatusInEveryRun`).
* **Both limiters have exact full-history specifications**, and both keep every window, wherever it is
  placed, within the limit; for Redis whatever calls fail on the way (`RateLimit.DecidesByHistory`,
  `RedisLimit.RedisDecidesByAttempts`, `RedisLimit.EveryRedisWindowIsBounded`). What Redis allows the
  in-memory limiter allows too, and when they differ is known exactly
  (`RedisLimit.RedisAllowedIsMemoryAllowed`, `RedisLimit.AnswersAgreeIff`).
* **Spans are conserved over every schedule**, each is flushed by the first tick after it was received, and
  the drain ends (`Spans.SpansAreConserved`, `Spans.TickFlushes`, `Spans.DrainTerminates`).
* **The client with its gateway**, requests and answers lost or handled late: at most six instances for
  each round of calls begun, the held id replaced only when the gateway lost it, every orphan gone in bounded
  time, and everything a stopped client left behind too (`ClientProtocol.AtMostSixTimesRounds`,
  `ClientProtocol.ReplacedIdIsGone`, `ClientProtocol.OrphansExpire`, `ClientProtocol.StoppedClientExpires`),
  for every use of the client object (`Client.RegistryClient`). A client whose instance was swept registers
  again, in up to six calls (`ClientProtocol.TriesSixTimes`, `ClientProtocol.RecoversWhenAdmitted`).

## Conditions, and where a promise fails

The determinism of routing needs conditions that a caller can check. For each there is a run that meets
all the others and in which one request may be served by either of two services, and a lemma that says
exactly what the failing check does:

* *Strict flag.* `internal/infrastructure/http/server.go:40` does not set it. Without it any two services
  whose patterns accept a common path break the promise (`Routing.LaxRoutingIsAmbiguous`);
  `Routing.RegisterKeepsDeterministicIff` is the exact condition. The config is a parameter everywhere.
* *One-step registration.* In two phases the same happens even with the flag
  (`Routing.TwoPhaseRoutingIsAmbiguous`); `Routing.CommitKeepsDeterministicIff` is the exact condition for
  the commit half.
* *Methods without a colon.* Methods are tokens (section 9.1 of RFC 9110), but the registry does not
  check it. A key is read back as what it was made of exactly when its method has no colon
  (`Routing.KeyReadBackIff`); `Routing.ColonMethodEscapes` is the run.
* *No segment `:`.* The matcher takes a bare colon for a parameter, `normalizePath` leaves it a literal.
  `Matcher.SharedPathReportedIff` says exactly which patterns with a common path are reported;
  `Routing.NamelessParameterEscapes` is the run.
* *No segment `*`.* The catch-all spans any number of segments, the overlap test wants equal counts.
  `Matcher.CatchAllReportedIff`: reported exactly when the segment counts are equal, for one catch-all or
  two; `Routing.CatchAllEscapes` is the run.
* *No brace group that spans a slash.* Normalising such a pattern loses a segment, exactly then
  (`Patterns.NormalizeSplit`). `Matcher.BraceSpanReportedIff`: against a pattern that meets the conditions it
  is reported exactly when it has no such group; `Routing.BraceSpanEscapes` is the run.

The strict check also errs the other way. It takes a brace group such as `{id}` for a wildcard, and so do the
repository's own tests (`internal/application/collision_test.go:72-103`); the matcher takes it for a
literal. So it refuses `/x` beside another service's `/{id}`, though routing would stay deterministic
(`Routing.BraceNameRefusedNeedlessly`). Of patterns without a group over a slash, the reported pairs that
share no path are exactly those in which two different literals are taken for one
(`Matcher.NeedlesslyReportedIff`).

Determinism is promised for the service only. Routes of one service are not checked against each other, so
even in a strict run the entry, with its `public` flag and scopes, may depend on the order of the map
(`Routing.StrictEntryIsAmbiguous`); it does not exactly when no two keys of the table meet
(`Routing.EntryDeterministicIff`).

Other places where the code does less than one might expect, kept as they are:

* A heartbeat never makes an unhealthy instance healthy again (`Staleness.NeverHealthyAgain`); only a
  new registration does. Clients are told to beat every TTL (`internal/application/registration.go:63`), so a
  beat that is late by any latency may find the instance marked for good
  (`Staleness.LateBeatLeavesItUnhealthy`).
* On a refusal the Redis limiter removes the oldest member, not the one just added, so refused requests
  count against later ones. The two limiters are therefore not equivalent (`RedisLimit.MemoryAllowsMore`, with
  the code's window of a minute); `RedisLimit.AnswersAgreeIff` says exactly when they answer alike.
* At the wrap of its counter the balancer repeats or skips an index unless the list length divides 2^64
  (`Balancer.WrapIsSeamlessIff`, `Balancer.WrapRepeatsIndex`).
* `Register` after `Shutdown` goes through, but the heartbeat goroutine it starts returns at once, so the
  instance is never refreshed (`ClientProtocol.StoppedIsSilent`) and expires
  (`ClientProtocol.StoppedClientExpires`).
* After the exporter's loop has returned, `Export` still accepts spans, and nothing flushes them
  (`Spans.NothingFlushedAfterReturn`).
* `pkg/client/README.md` lists the errors that are retried; the code retries every failure that is not a
  readable route collision, a rejected request (status 400) included, and the model follows the code.

## Reading the model

Times and durations are integers in nanoseconds. Clock readings and the fresh ids of the gateway are
parameters or fresh choices. Go strings are sequences of characters. `method` being a keyword, a
route's method is the field `verb`. Map iteration is an arbitrary choice of the next key, so what a method
ensures holds for every order. `None` stands for nil, an error or a missing value. A request that passes
`Validate` has at least one route. `matchPathWithParams` tests for a path shorter than the index inside its
loop; the length test before the loop already excludes that, so the model's loop has no such branch.

## Model

| member | source | states |
|---|---|---|
| Patterns.CheckPathsOverlap | internal/application/collision.go:67-90 | the early-exit loop with its shortcut decides exactly: equally many segments, and at each place an asterisk on one side or equality |
| Patterns.NormalizeIdempotent | internal/application/collision.go:10-14 | normalising twice is normalising once, on every string |
| Patterns.NormalizeTrim | internal/application/collision.go:12-14 | normalising commutes with trimming slashes, on every string |
| Patterns.NormalizeSplit | internal/application/collision.go:12-14 | normalising then splitting is splitting then normalising each segment, exactly for the strings in which no replaced group contains a slash; on the others segments are lost |
| Patterns.SegmentsOfNormalized | internal/application/collision.go:12-14 | the same equivalence for the trimmed segments that the overlap test compares |
| Patterns.NormalizeSegment | internal/application/collision.go:10-14 | a brace-free segment is cut at its first colon that has a character after it, and otherwise unchanged |
| Patterns.NormalizeBraceGroup | internal/application/collision.go:10-14 | a brace group becomes an asterisk, ends at its first closing brace, and what follows it is normalised on its own |
| Patterns.NormalizeParameter | internal/application/collision.go:10-14 | a named parameter becomes an asterisk up to the next slash, whatever its name holds |
| Patterns.NormalizeEmptyGroup | internal/application/collision.go:10-14 | an empty brace group stays as it is |
| Patterns.NormalizeOpenBrace | internal/application/collision.go:10-14 | so does a brace that is never closed |
| Patterns.NormalizeBareColon | internal/application/collision.go:10-14 | so does a colon with nothing after it in its segment |
| Patterns.NormalizeOther | internal/application/collision.go:10-14 | and any other character: with the five rows above, these equations decide every string |
| Patterns.NormalizeAnySegment | internal/application/collision.go:10-14 | any segment, with braces or colons in any arrangement, stays up to its first match; a parameter there takes the rest, a group ends at its first closing brace |
| Matcher.MatchPathWithParams | internal/infrastructure/proxy/matcher.go:49-90 | it never indexes out of range, succeeds exactly on the paths the pattern accepts, and returns exactly the bindings of the segments before the first catch-all plus the joined rest |
| Matcher.LastOfNameWins | internal/infrastructure/proxy/matcher.go:63-89 | names need not be distinct: a name is bound exactly if some parameter has it, and to the text at the last one |
| Matcher.CatchAllWins | internal/infrastructure/proxy/matcher.go:63-89 | the catch-all is bound to the rest joined by slashes, over a parameter of its name, and changes no other binding |
| Matcher.MatchesIsDerives | internal/infrastructure/proxy/matcher.go:49-90 | acceptance is the segment-by-segment grammar cut by the length test (equal counts, or a final catch-all and at most one segment fewer); with a catch-all at most last it is the grammar |
| Matcher.FillInvertsMatch | internal/infrastructure/proxy/matcher.go:49-90 | with distinct names and a catch-all at most last, putting the returned parameters back and trimming slashes gives the trimmed path |
| Matcher.MatchInvertsFill | internal/infrastructure/proxy/matcher.go:49-90 | conversely, filling a pattern whose catch-all is at most last gives a path it accepts, and the match gives all the values back, the rest under the catch-all with its slashes |
| Matcher.SharePathIff | internal/infrastructure/proxy/matcher.go:49-90 | any two patterns accept a common path exactly when their counts can meet and, before the first catch-all, no two literals at one place differ; the common path is built |
| Matcher.OverlapIsExact | internal/application/collision.go:67-90 | two patterns of named parameters and plain literals are reported as overlapping if and only if some concrete path is accepted by both |
| Matcher.SharedPathReportedIff | internal/application/collision.go:10-90 | which patterns with a common path are reported, exactly: equal counts, no bare colon against a literal before the first catch-all, and overlapping segments from it on |
| Matcher.CatchAllReportedIff | internal/application/collision.go:67-90 | patterns with a common path and a catch-all at most last, in one of them or both, are reported exactly when their segment counts are equal |
| Matcher.BraceSpanReportedIff | internal/application/collision.go:10-14 | a pattern and a routable one with a common path are reported exactly when no brace group of the pattern spans a slash |
| Matcher.SharedPathIsReported | internal/application/collision.go:33-65 | routable patterns that share a path are always reported |
| Matcher.NeedlesslyReportedIff | internal/application/collision.go:10-90 | when no brace group spans a slash, a reported pair shares no path exactly when, before the first catch-all, two different literals are taken for one |
| RegistrySpec.CommitConsistent | internal/application/registration.go:41-59 | committing any request under a fresh id keeps the index of services, whatever happened since it was validated |
| RegistrySpec.ValidIff | internal/domain/registration.go:16-36 | a request is valid exactly when it has a service name, a host, a port from 1 to 65535, a base path and a route, and each error has its cause |
| RegistrySpec.KeySpelled | internal/domain/route.go:16-28 | a route's key is its method, a colon, the base path and then its path |
| RegistrySpec.CommittedRoute | internal/application/registration.go:47-59 | at each of its keys a committed request leaves the entry of its last route with that key, with its own service and base path and the time of the registration |
| RegistrySpec.RemoveConsistent | internal/application/cleanup.go:69-95 | removing any set of instances keeps the index and leaves no route without its service |
| RegistrySpec.RemoveIsExact | internal/application/cleanup.go:69-95 | a removal drops no more and no less than it must: the instances are those not removed, each list is filtered, and a service and its unchanged routes stay exactly while an instance of the service does |
| RegistrySpec.RemoveOne | internal/application/registration.go:79-97 | closing the gap in one list and dropping an emptied service with its routes is the declarative removal of one instance |
| RegistrySpec.RemoveTwice | internal/application/cleanup.go:64-66 | removing one set and then another is removing their union |
| RegistrySpec.RemoveEachIsRemove | internal/application/cleanup.go:64-66 | removing one at a time ends in the same state for every order and repetition of the list |
| RegistrySpec.CleanupInstances | internal/application/cleanup.go:37-67 | survivors are exactly those with elapsed at most twice the TTL; a survivor becomes unhealthy exactly when it was healthy and is beyond the TTL, keeps its status otherwise, and nothing but the status changes |
| RegistrySpec.CleanupIndex | internal/application/cleanup.go:37-95 | each service list is the old list filtered, and a route stays unchanged exactly when its owner still has an instance |
| RegistrySpec.ListSound | internal/application/queries.go:12-28 | a list holds exactly the ids of its own service's instances, once each, and is empty exactly when the service has no entry |
| Registry.ServiceInstance.constructor | internal/application/registration.go:24-39 | a new instance is healthy, of weight 1, with the default health path and both times the time of registration |
| Registry.Registry.constructor | internal/application/registry.go:26-34 | a new registry is empty and satisfies the invariant |
| Registry.Registry.CheckExactCollision | internal/application/collision.go:16-31 | it reports exactly when the very key belongs to another service, and what it reports is that route |
| Registry.Registry.CheckPatternCollision | internal/application/collision.go:33-65 | for every order of the map, the reports are one for each of the other services' routes with the same method that overlap, none missing and none twice |
| Registry.Registry.ValidateRoutes | internal/application/collision.go:92-113 | the reports are, route by route in the order of the request, the exact one alone or in strict mode one for each clashing route; none at all if and only if every route is clear |
| Registry.ReportedNothing | internal/application/collision.go:92-113 | nothing is reported for a route exactly when no other service holds its key and, in strict mode, none overlaps it |
| Registry.Registry.CommitRegistration | internal/application/registration.go:41-59 | the whole new state of the commit half, with a new instance object under the fresh id and every other object left in place |
| Registry.Registry.Register | internal/application/registration.go:11-67 | a rejected request changes no map and is answered its collisions route by route; an accepted one commits, and its new instance is healthy, of weight 1, with the data of the request and the time of the registration; the answer is the id, the whole seconds of the TTL, and method, colon, base path and path of each route in order |
| Registry.Registry.Deregister | internal/application/registration.go:69-100 | an unknown id changes nothing and is reported; a known one is removed as the declarative removal says |
| Registry.Registry.RemoveInstanceLocked | internal/application/cleanup.go:69-95 | the in-place statements amount to the declarative removal of the id, known or not |
| Registry.Registry.CloseGap | internal/application/cleanup.go:77-83 | the loop closes the gap at an occurrence of the id and keeps every other id in its order |
| Registry.Registry.DropRoutesOf | internal/application/cleanup.go:85-90 | deleting while ranging leaves exactly the other services' routes, for every order |
| Registry.Registry.Heartbeat | internal/application/heartbeat.go:9-20 | only the last heartbeat of the one instance changes; an unknown id is reported and nothing changes |
| Registry.Registry.MarkAndCollect | internal/application/cleanup.go:44-62 | for every order of the map, the instances end up as the one sweep of them all, and the collected ids are exactly the expired ones |
| Registry.Registry.Cleanup | internal/application/cleanup.go:37-67 | a whole pass, in whatever orders its two loops run, gives the one specified state and keeps the invariant |
| Registry.Registry.GetInstances | internal/application/queries.go:12-28 | the index lookup gives a plain filter over all instances, in registration order |
| Registry.Registry.GetHealthyInstances | internal/application/queries.go:30-46 | the same for the healthy ones |
| Registry.Registry.GetAllServices | internal/application/queries.go:56-73 | an entry for exactly the services that have an instance, each with what GetInstances gives |
| Registry.Registry.GetAllRoutes | internal/application/queries.go:75-84 | a copy equal to the table |
| Registry.HealthyListed | internal/application/queries.go:30-46 | filtering a service's list by status is filtering the whole commit order by service and status |
| Registry.NewestIsListedLast | internal/application/registration.go:24-45 | with the two query rows above: a registered instance is at once the last of its service's instances and of its healthy instances, the others in their order before it |
| Runs.StepKeepsInv | internal/application/registration.go:11-100 | every operation, the two halves of Register among them, keeps the index invariant |
| Runs.RunKeepsInv | internal/application/registration.go:11-100 | so does every run |
| Runs.IndexInEveryRun | internal/application/registration.go:41-98 | in every interleaving with two-phase registration, each service's list is the commit order cut down to its instances, without duplicates, an entry exists exactly for services with an instance, and each route's owner has one |
| Runs.HalvesMakeOneStep | internal/application/registration.go:11-67 | with nothing in between, validation and commit are the one-step registration |
| Runs.StepKeepsOwner | internal/application/registration.go:11-67 | in one step without a two-phase commit, an owned key keeps its owner or becomes free because its owner has no instance left |
| Runs.OwnershipIsStable | internal/application/collision.go:16-31 | with one-step registration a key never passes between services without a state in between in which it is free and the first service has no instance |
| Runs.FinishKeepsOwnersIff | internal/application/registration.go:41-59 | a two-phase commit keeps all owners exactly when, at commit time, none of its keys is another service's |
| Runs.TwoPhaseTakesRoute | internal/application/registration.go:16-59 | any two valid requests of different services that share a key have a run in which the second commit takes the key from a service that has an instance |
| Runs.LiveServiceKeys | internal/application/registration.go:44-97 | with one-step registration the live services are exactly the route owners, and a service's keys are the union of all it registered since it last went from no instance to one |
| Routing.MatchRoute | internal/infrastructure/proxy/matcher.go:15-47 | the exact key's entry if there is one, otherwise some route that serves the request with its parameters, and nothing only if none does |
| Routing.CommitKeepsDisjointIff | internal/application/registration.go:41-59 | a commit keeps the routes of different services apart exactly when it overlaps none that it does not overwrite |
| Routing.StrictRun | internal/application/collision.go:92-113 | in every strict run with one-step registration, routes of different services never overlap |
| Routing.OneServiceServes | internal/infrastructure/proxy/matcher.go:15-47 | in such a table all routes that serve one request belong to one service |
| Routing.ExactKeyServes | internal/infrastructure/proxy/matcher.go:18-24 | an exact hit is one of the routes that serve the request |
| Routing.StrictOwnersAgree | internal/infrastructure/proxy/matcher.go:15-47 | any two routes serving a request in a reachable strict state have the same owner |
| Routing.KeyReadBackIff | internal/infrastructure/proxy/matcher.go:27-32 | a key is cut back into the method and path it was made of exactly when the method has no colon |
| Routing.StrictRoutingIsDeterministic | internal/infrastructure/proxy/matcher.go:15-47 | in every such state, for every request, all results MatchRoute may return name one service, or all none |
| Routing.DeterministicIffNoneCompete | internal/infrastructure/proxy/matcher.go:15-47 | on any table: routing is deterministic if and only if no two keys of different services accept a common path |
| Routing.DeterministicIff | internal/infrastructure/proxy/matcher.go:15-47 | the same as a condition computed from the segments of the keys, for any patterns |
| Routing.DeterministicIffDisjoint | internal/application/collision.go:33-65 | on well-formed patterns: if and only if the overlap test separates the routes of different services |
| Routing.CommitKeepsDeterministicIff | internal/application/registration.go:41-59 | from any deterministic table, a commit of any request keeps routing deterministic exactly when none of its keys meets a key of another service that it does not overwrite |
| Routing.RegisterKeepsDeterministicIff | internal/application/registration.go:11-67 | from any deterministic table, under any config and for any patterns, an admitted one-step registration keeps routing deterministic exactly when none of its keys meets another service's |
| Routing.StrictCheckIsExact | internal/application/collision.go:92-113 | on well-formed patterns and methods without a colon, that is exactly when the strict check would have admitted it |
| Routing.BraceNameRefusedNeedlessly | internal/application/collision.go:33-65 | on others it is not: a strict run refuses "/x" beside another service's "/{id}", though routing with both is deterministic |
| Routing.SelfKeyedInEveryRun | internal/application/registration.go:41-59 | in every interleaving each entry is stored under the key of its own route |
| Routing.EntryDeterministicIff | internal/infrastructure/proxy/matcher.go:15-47 | the entry and the parameters are independent of the map's order exactly when no two keys of the table meet |
| Routing.StrictEntryIsAmbiguous | internal/application/collision.go:33-45 | a strict run of one service after which a request may find a public entry or one that is not |
| Routing.LaxRoutingIsAmbiguous | internal/infrastructure/http/server.go:40-43 | without the strict flag, any two services with competing patterns reach a state in which routing is not deterministic |
| Routing.TwoPhaseRoutingIsAmbiguous | internal/application/registration.go:16-59 | the same under any config when the two registrations overlap in time |
| Routing.NamelessParameterEscapes | internal/application/collision.go:10-14 | a strict one-step run that fails because of a bare colon alone |
| Routing.CatchAllEscapes | internal/application/collision.go:67-73 | a strict one-step run that fails because of a catch-all alone |
| Routing.BraceSpanEscapes | internal/application/collision.go:10-14 | a strict one-step run that fails because of a brace group over a slash alone |
| Routing.ColonMethodEscapes | internal/application/collision.go:33-55 | a strict one-step run that fails because of a method with a colon alone |
| Routing.MatchedServiceIsLive | internal/infrastructure/proxy/matcher.go:15-47 | in every interleaving, whatever MatchRoute returns has a registered instance behind it |
| Staleness.StalenessBound | internal/application/cleanup.go:18-67 | in every interleaving with sweeps at most gap apart and commits at most delay late: healthy within max(TTL, delay) + gap of the last heartbeat, registered within max(2 TTL, delay) + gap |
| Staleness.AtomicStalenessBound | internal/application/cleanup.go:18-67 | with one-step registration and the ticker's period P = max(TTL/2, 1s): TTL + P and 2 TTL + P |
| Staleness.RegisteredIffBeating | internal/application/cleanup.go:37-62 | in any interleaving, an instance stays registered exactly as long as nobody deregisters it and every sweep finds it within twice the TTL of its last heartbeat; its record is the last heartbeat sent |
| Staleness.HealthyIffBeating | internal/application/cleanup.go:37-62 | a healthy one stays registered and healthy exactly as long as every sweep finds it within the TTL of its last heartbeat |
| Staleness.LateBeatLeavesItUnhealthy | internal/application/heartbeat.go:9-20 | from any state, a sweep between the TTL and twice the TTL after the last heartbeat, and then a heartbeat: registered, recorded, and unhealthy |
| Staleness.BeatsApartIsKeepsBeating | internal/application/heartbeat.go:9-20 | heartbeats at most TTL apart meet that condition |
| Staleness.GoneStaysGone | internal/application/cleanup.go:69-95 | an id that has been removed is never registered again |
| Staleness.NeverHealthyAgain | internal/application/heartbeat.go:18 | no operation makes a marked instance healthy again |
| Staleness.StatusInEveryRun | internal/application/cleanup.go:44-62 | in every interleaving an instance is healthy or unhealthy, and unhealthy exactly when some sweep found it more than the TTL after its last heartbeat |
| Staleness.DataIsKept | internal/application/heartbeat.go:9-20 | over every run nothing but the status and the last heartbeat of an instance changes |
| Staleness.IntervalSpelled | internal/application/cleanup.go:18-24 | the sweep interval is half the TTL, but never below a second |
| RateLimit.InMemoryLimiter.Allow | internal/infrastructure/ratelimit/limiter.go:94-129 | the pruning loop, the decision and the whole new table; remaining is the room left after this request, and 0 on a refusal |
| RateLimit.KeptIsHistory | internal/infrastructure/ratelimit/limiter.go:98-114 | forgetting is invisible: for any later window, the kept timestamps number what the full history admitted |
| RateLimit.DecidesByHistory | internal/infrastructure/ratelimit/limiter.go:94-129 | a request is refused exactly when the window that ends with it already admitted limit requests |
| RateLimit.EveryWindowIsBounded | internal/infrastructure/ratelimit/limiter.go:94-129 | every window of the configured length, wherever placed, holds at most limit admitted requests |
| RateLimit.EveryLeftClosedWindowIsBounded | internal/infrastructure/ratelimit/limiter.go:94-129 | the same for windows closed on the left |
| RateLimit.KeysAreIndependent | internal/infrastructure/ratelimit/limiter.go:98-114 | what is kept for a key is what its own calls leave |
| RedisLimit.Limiter.Allow | internal/infrastructure/ratelimit/limiter.go:35-76 | the commands in their order amount to one step of the entry, and the answer is read from the count before the add; a failed pipeline gives the error, with the effects of the commands that were carried out |
| RedisLimit.AddedInOrder | internal/infrastructure/ratelimit/limiter.go:45-48 | adding to the sorted set keeps it strictly increasing and adds that member alone, once, whatever the order of the times |
| RedisLimit.SetIsLatestAttempts | internal/infrastructure/ratelimit/limiter.go:35-76 | whatever fails on the way, the set holds the latest attempts of the window, refused ones included, up to a number not below limit; if nothing fails, the latest min(limit, attempts in the window) |
| RedisLimit.RedisDecidesByAttempts | internal/infrastructure/ratelimit/limiter.go:35-76 | whatever fails on the way, a request is allowed exactly when fewer than limit attempts of any outcome that reached the server fall in the window before it |
| RedisLimit.EveryRedisWindowIsBounded | internal/infrastructure/ratelimit/limiter.go:35-76 | every window of the configured length, wherever placed, holds at most limit allowed requests, however many calls fail |
| RedisLimit.ExpiryIsNeverObservable | internal/infrastructure/ratelimit/limiter.go:51 | a server that never expires a key holds the same members and gives the same answers throughout every run |
| RedisLimit.SimulationStep | internal/infrastructure/ratelimit/limiter.go:35-129 | one call keeps the relation between the two stored states, and the Redis answer implies the in-memory one |
| RedisLimit.StatesRelated | internal/infrastructure/ratelimit/limiter.go:35-129 | the relation holds after any calls that reach the server |
| RedisLimit.RedisAllowedIsMemoryAllowed | internal/infrastructure/ratelimit/limiter.go:35-129 | on the same calls, answers and removals lost or not, whatever the Redis limiter allows the in-memory limiter allows |
| RedisLimit.AnswersAgreeIff | internal/infrastructure/ratelimit/limiter.go:35-129 | the two answer alike exactly when the window has room for another attempt of any outcome, or is full of admitted ones |
| RedisLimit.MemoryAllowsMore | internal/infrastructure/ratelimit/limiter.go:70-73 | they do differ, with the window of a minute, at 1, 41 and 71 seconds |
| Spans.OTLPExporter.Export | internal/infrastructure/tracing/otlp.go:47-53 | the send that never blocks: queued while there is room, dropped otherwise |
| Spans.OTLPExporter.BatchLoop | internal/infrastructure/tracing/otlp.go:72-112 | under every schedule of producers, shutdown and select branches, the nested loops follow the step system |
| Spans.OTLPExporter.FinishLoop | internal/infrastructure/tracing/otlp.go:93-110 | so does the drain loop, among producers that may go on, and what happens after its return |
| Spans.OTLPExporter.Drain | internal/infrastructure/tracing/otlp.go:93-110 | with no producer left it ends with queue and batch empty and every accepted span flushed |
| Spans.OTLPExporter.Shutdown | internal/infrastructure/tracing/otlp.go:55-56 | closing done changes nothing else, and may happen once |
| Spans.SpansAreConserved | internal/infrastructure/tracing/otlp.go:47-112 | over every schedule, flushed batches in order, then the batch, then the queue are the accepted spans in order; each flushed batch has 1 to 64 spans |
| Spans.OfferedIsAccounted | internal/infrastructure/tracing/otlp.go:47-53 | accepted plus dropped is what was exported |
| Spans.DroppedOnlyWhenFull | internal/infrastructure/tracing/otlp.go:47-53 | a span is dropped exactly by an export that finds 1024 spans queued |
| Spans.TickFlushes | internal/infrastructure/tracing/otlp.go:88-92 | over every schedule, a tick in the select sends out the batch if there is one: everything received before it is flushed, and only the channel holds more |
| Spans.ReceiveFlushesIff | internal/infrastructure/tracing/otlp.go:82-87 | a span received joins the batch, which goes out exactly when it then has 64 spans |
| Spans.FlushesOnlyThen | internal/infrastructure/tracing/otlp.go:82-108 | no batch goes out but by a 64th span, a tick or the return |
| Spans.ShutdownFlushes | internal/infrastructure/tracing/otlp.go:55-112 | from any state of the select: when done is closed and seen, and producers stop, everything accepted is flushed and the loop returns |
| Spans.ReturnedMeansFlushed | internal/infrastructure/tracing/otlp.go:93-110 | when the loop returns, everything accepted so far has been flushed |
| Spans.NothingFlushedAfterReturn | internal/infrastructure/tracing/otlp.go:93-110 | spans accepted after that stay in the channel |
| Spans.DrainNeverBlocks | internal/infrastructure/tracing/otlp.go:93-110 | while draining, exactly one branch is ready at any time, so the loop always makes progress |
| Spans.DrainTerminates | internal/infrastructure/tracing/otlp.go:93-110 | once producers stop, the loop returns after one turn for each queued span and one more |
| Balancer.RoundRobinBalancer.Select | internal/application/loadbalancer.go:21-29 | nil on the empty list without counting; otherwise the instance at the old counter modulo the length, through the 64-bit wrap of both the increment and the decrement |
| Balancer.RoundRobinBalancer.SelectEach | internal/application/loadbalancer.go:21-29 | m selects in a row, from any counter value and over the wrap, return the picks that the fairness results count |
| Balancer.CountIsBelow | internal/application/loadbalancer.go:26-28 | without a wrap, how often an index is picked is how many counter values leave it as remainder |
| Balancer.FullRoundPicksEachOnce | internal/application/loadbalancer.go:26-28 | any n consecutive selects without a wrap pick every index exactly once |
| Balancer.WindowIsFair | internal/application/loadbalancer.go:26-28 | in any window without a wrap, two indices differ by at most one pick |
| Balancer.WrappedWindowIsFair | internal/application/loadbalancer.go:26-28 | in a window that crosses one wrap, by at most two |
| Balancer.WrapIsSeamlessIff | internal/application/loadbalancer.go:26-28 | the index after the wrap follows the one before exactly when the length divides 2^64 |
| Balancer.WrapRepeatsIndex | internal/application/loadbalancer.go:26-28 | the bound of two is reached, with three instances |
| Balancer.CountsIgnoreSchedule | internal/application/loadbalancer.go:26-28 | with atomic increments by any callers in any order, the final picks depend only on how many selects ran |
| Retry.RetryWithBackoff | pkg/client/client.go:300-337 | at most maxRetries + 1 calls, success exactly when the last call succeeded, no call after a collision, and before retry i a wait of min(30s, 2^(i-1) s) |
| Retry.TotalWait | pkg/client/client.go:300-337 | n waits total 2^n - 1 seconds for n up to 5, and 31 + 30(n - 5) beyond |
| Client.RegistryClient.DoRegister | pkg/client/client.go:113-171 | one request: an id is given exactly when it arrived, the gateway as it then was admitted it, and its answer came back; a conflict exactly when the routes were refused; otherwise a failure, after which an instance the client does not know of may stay behind |
| Client.RegistryClient.CallUntilDone | pkg/client/client.go:300-337 | a round of one to six calls, each but the last a failure, whose verdict is decided by the last reply and the cancellations |
| Client.RegistryClient.Register | pkg/client/client.go:75-111 | refused without effect while registered; otherwise, after Shutdown too, one round, after which the client is registered exactly on success, under the id it was given |
| Client.RegistryClient.Reregister | pkg/client/client.go:173-200 | one round for the remembered request; the held id changes only on success |
| Client.RegistryClient.SendHeartbeat | pkg/client/heartbeat.go:57-107 | one heartbeat for the held id; not found exactly when it arrived, was answered, and the gateway did not have the id |
| Client.RegistryClient.OnTick | pkg/client/heartbeat.go:37-50 | one heartbeat, and a round of registration exactly when it arrived, was answered, and the held id was not among the gateway's instances when it was handled |
| Client.RegistryClient.HeartbeatLoop | pkg/client/heartbeat.go:36-54 | it handles exactly the ticks before the first stop, one heartbeat each, and holds an id that the gateway gave it |
| Client.RegistryClient.Deregister | pkg/client/client.go:202-249 | a request only for a held id, which is then gone if it arrives; the client does not forget it |
| Client.RegistryClient.Shutdown | pkg/client/client.go:251-278 | a second call does nothing; the first, unless it times out, sends at most one deregistration, and if that arrives the held instance is gone |
| ClientProtocol.StepKeepsWorld | pkg/client/heartbeat.go:37-107 | every step of the client, the gateway and the others, and every request handled late, keeps the protocol's invariant |
| ClientProtocol.RunKeepsWorld | pkg/client/heartbeat.go:37-107 | so does every run |
| ClientProtocol.BeatOutcome | pkg/client/heartbeat.go:37-107 | a heartbeat that arrives refreshes the held instance and no other; answered that there is none, the client starts a round with its last request, and otherwise goes on beating |
| ClientProtocol.CallReaches | pkg/client/client.go:113-171 | a call makes a healthy instance for the request exactly when it arrives and is admitted; one that does not arrive stays under way |
| ClientProtocol.CallOutcome | pkg/client/client.go:300-337 | an answered and admitted call ends the round with its id held; an answered conflict ends it without, any other failure only at the sixth call |
| ClientProtocol.RegisterOutcome | pkg/client/client.go:75-111 | Register starts a round for its request with no call counted; giving up in a wait ends it where it came from |
| ClientProtocol.LeaveOutcome | pkg/client/client.go:202-278 | a request to deregister removes the held instance alone when it is sent and arrives; the id is kept, and Shutdown stops the client in any case |
| ClientProtocol.StragglerOutcome | pkg/client/heartbeat.go:57-107 | a request handled late has the effect it would have had, and changes nothing in the client |
| ClientProtocol.StragglerIsHandledOnce | pkg/client/heartbeat.go:57-107 | a request handled late is under way no more, and the other ones still are |
| ClientProtocol.TriesSixTimes | pkg/client/heartbeat.go:40-46 | over runs: after a not-found answer the client calls with its last request, once for each call lost, until six are lost, and only then goes back to beating; it keeps the old id meanwhile |
| ClientProtocol.RecoversWhenAdmitted | pkg/client/heartbeat.go:40-46 | over runs: the first of those calls that is answered and admitted gives the client a new id that the gateway has, and it beats for that one |
| ClientProtocol.InstancesAreCounted | pkg/client/client.go:75-200 | while no round begins, the instances made for the client and the requests under way grow by no more than the calls sent |
| ClientProtocol.AtMostSixPerRound | pkg/client/client.go:75-200 | from the step that begins a Register or reregister until the next such step, the gateway makes at most six instances for the client beyond those for requests already under way |
| ClientProtocol.AtMostSixTimesRounds | pkg/client/client.go:75-200 | in all, at most six instances for each round begun, those for requests still under way included, whenever the gateway handles them |
| ClientProtocol.HeldIsReplacedOnlyWhenGone | pkg/client/heartbeat.go:40-46 | the held id changes only in a state in which the gateway does not have it |
| ClientProtocol.ReplacedIdIsGone | pkg/client/client.go:173-200 | over runs: a replaced id is absent then and ever after |
| ClientProtocol.OnlyHeldIsRefreshed | pkg/client/heartbeat.go:57-107 | of all ids created for the client, only the held one's heartbeat changes, unless another user sends a heartbeat for it |
| ClientProtocol.OrphansExpire | internal/application/cleanup.go:37-67 | every instance created for the client that it does not hold is gone within 2 TTL plus one sweep gap of its creation, if no other user refreshes it |
| ClientProtocol.StoppedIsSilent | pkg/client/client.go:251-278 | once the client has stopped, for good, no instance of its is refreshed but by a heartbeat that was under way, if no other user does, and no new one gets under way |
| ClientProtocol.StoppedClientExpires | internal/application/cleanup.go:37-67 | everything a stopped client left behind, the held id included and what it registers after Shutdown, is gone within 2 TTL plus one sweep gap of its last heartbeat, if no other user refreshes it |

## Left out

- Durations: overflow of the doubled TTL and saturation of time differences; times are unbounded integers.
- Ids: the probability that two uuids coincide; a new id is one that was never used.
- Aliasing of Go slices: the lists in `services` are sequences reassigned in the map, so sharing of a backing array by `append` is not captured. Route entries are values, since the code never changes one in place.
- Registry.Registry.Deregister: calls the removal that cleanup uses, where the code repeats the same statements.
- Registry.Registry.Register: the logged text and the wire format are not modelled.
- `GetInstance` and `GetRoute`: plain lookups in one map.
- Locks: a read-locked or write-locked section is one step; fairness and blocking are not modelled.
- Real tickers: replaced by a bound on the gap between sweeps.
- RateLimit.InMemoryLimiter.Allow: calls are sequential; the map without a lock is not studied under concurrent callers.
- RedisLimit.Limiter.Allow: members are their own scores, so rounding of scores to floating point is not modelled; nor are a pipeline that the server carries out in part and other callers between the pipeline and the removal of the oldest member.
- RedisLimit.RedisDecidesByAttempts: for strictly increasing times, since two attempts in one nanosecond share a member, and for one limit per key.
- Matcher.BraceSpanReportedIff: two patterns that both have a group over a slash may or may not be reported; `Routing.DeterministicIffNoneCompete` covers tables with such patterns.
- Spans.OTLPExporter.Drain: the outcome of sending a batch and the building of its protobuf form; a span counts as flushed when handed over.
- Spans.OTLPExporter.Shutdown: waiting for the loop or the context; closing twice, which panics, is excluded.
- Balancer.CountsIgnoreSchedule: fairness is for lists of one length; several services share the one counter, and fairness for each of them is not promised.
- Client.RegistryClient.CallUntilDone: the lengths of the waits, which `Retry.RetryWithBackoff` states for the same loop; the waits' effect is what others do meanwhile.
- Client.RegistryClient.Register: not called by two callers at once; a mutex guards single fields there, not the round. When the gateway handles the client's own request, at once or late, it does so in one step; other users' registrations may be two-phase.
- Client.RegistryClient.HeartbeatLoop: the turns it is given are what its select takes; a Shutdown in the middle of a tick is a step of the protocol (`ClientProtocol.Possible`), not of this sequential method.
- Service tokens, HTTP and JSON: a response either comes back whole or not at all.
- JWT signing and checking, RSA and PEM parsing with `normalizePEM`: cryptography, and single-branch checks around it.
- Request handlers, CORS, logging, recovery, request ids, health endpoints and proxy headers: input and output only.
- W3C trace header printing and parsing: a fixed-width round trip that adds little.
- `AllowSameServiceOverwrite`, `HealthCheckInterval` and the repository interface: declared, and not used by the registry.
