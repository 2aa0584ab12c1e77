/** Whole runs of the gateway: each route lives on its own, and end-to-end consequences. */
module GatewayRuns {
  import opened Common
  import opened Gateways
  import Http
  import RateLimit
  import Matchers
  import Chains
  import ChainRuns
  import Liveness
  import Routers
  import TB = TokenBuckets
  import FW = FixedWindows
  import CB = CircuitBreakers

  /**
   * A request; the outcome of a forwarded one reaching some middlewares of its route; a conclusive probe of
   * one of a route's endpoints.
   */
  datatype Event =
    | Arrive(incoming: Incoming, readings: seq<seq<Chains.Reading>>, rnd: nat)
    | Report(route: nat, success: bool, which: set<nat>, outcome: seq<Chains.Reading>)
    | Probe(route: nat, endpoint: string, up: bool)

  /** The fixed surroundings of a run. */
  datatype Setting = Setting(lib: Http.Library, infos: seq<RouteInfo>, defaultTimeout: nat)

  ghost predicate Valid(g: Setting, routes: seq<RouteState>) {
    |g.infos| == |routes| && forall i :: 0 <= i < |routes| ==> routes[i].router.Valid()
  }

  /** The readings of an event fit the chains they are for. */
  predicate Fits(routes: seq<RouteState>, e: Event) {
    match e
    case Arrive(_, readings, _) =>
      |readings| == |routes| && forall i :: 0 <= i < |routes| ==> |readings[i]| == |routes[i].chain|
    case Report(route, _, _, outcome) => route < |routes| && |outcome| == |routes[route].chain|
    case Probe(route, _, _) => route < |routes|
  }

  /** The same routes with chains of the same lengths. */
  predicate SameShape(a: seq<RouteState>, b: seq<RouteState>) {
    |a| == |b| && forall i :: 0 <= i < |a| ==> |a[i].chain| == |b[i].chain|
  }

  lemma ServeKeepsShape(g: Setting, s: RouteState, info: RouteInfo, e: Event, i: nat)
    requires e.Arrive? && i < |e.readings| && |e.readings[i]| == |s.chain| && s.router.Valid()
    ensures var (after, _) := Serve(g.lib, s, info, g.defaultTimeout, e.incoming, e.readings[i], e.rnd);
            |after.chain| == |s.chain| && after.router.Valid()
  {
    Routers.PickInRange(g.lib, s.router, e.incoming.headers, e.rnd);
  }

  ghost function Apply(g: Setting, routes: seq<RouteState>, e: Event): (after: seq<RouteState>)
    requires Valid(g, routes) && Fits(routes, e)
    ensures Valid(g, after) && SameShape(routes, after)
  {
    match e
    case Arrive(incoming, readings, rnd) =>
      var choice := Choice(g.lib, g.infos, incoming.ToMatch());
      if choice.None? then routes
      else
        ServeKeepsShape(g, routes[choice.value], g.infos[choice.value], e, choice.value);
        Step(g.lib, g.infos, routes, g.defaultTimeout, incoming, readings, rnd).0
    case Report(route, success, which, outcome) =>
      routes[route := routes[route].(chain := ChainRuns.RecordAt(routes[route].chain, success, which, outcome))]
    case Probe(route, endpoint, up) =>
      Routers.SetHealthPointwise(routes[route].router, endpoint, Routers.HealthFrom(up));
      var router := Routers.SetHealth(routes[route].router, endpoint, Routers.HealthFrom(up));
      routes[route := routes[route].(router := router)]
  }

  ghost predicate AllFit(routes: seq<RouteState>, events: seq<Event>) {
    forall n :: 0 <= n < |events| ==> Fits(routes, events[n])
  }

  ghost function After(g: Setting, routes: seq<RouteState>, events: seq<Event>): (after: seq<RouteState>)
    requires Valid(g, routes) && AllFit(routes, events)
    ensures Valid(g, after) && SameShape(routes, after)
  {
    if events == [] then routes
    else
      var before := After(g, routes, events[..|events| - 1]);
      assert Fits(before, events[|events| - 1]);
      Apply(g, before, events[|events| - 1])
  }

  // ---------------------------------------------------------------- what one route sees

  /** The request is for route `i`. */
  ghost predicate Wins(g: Setting, e: Event, i: nat) {
    e.Arrive? && Choice(g.lib, g.infos, e.incoming.ToMatch()) == Some(i)
  }

  /** What an event means to the chain of route `i`. */
  ghost function ChainEvent(g: Setting, e: Event, i: nat): seq<ChainRuns.Event> {
    if Wins(g, e, i) && i < |e.readings| then [ChainRuns.Arrive(e.incoming.ToVisit(), e.readings[i])]
    else if e.Report? && e.route == i then [ChainRuns.Report(e.success, e.which, e.outcome)]
    else []
  }

  ghost function ChainEvents(g: Setting, events: seq<Event>, i: nat): seq<ChainRuns.Event> {
    if events == [] then []
    else ChainEvents(g, events[..|events| - 1], i) + ChainEvent(g, events[|events| - 1], i)
  }

  /** What an event means to the router of route `i`: requests the chain let through, and probes. */
  ghost function RouterEvent(g: Setting, before: seq<RouteState>, e: Event, i: nat): seq<Routers.Event>
    requires Fits(before, e)
  {
    if && Wins(g, e, i) && i < |before|
       && Chains.Walk(before[i].chain, e.incoming.ToVisit(), e.readings[i]).1 == Chains.Allowed
    then [Routers.Request(e.incoming.headers, e.rnd)]
    else if e.Probe? && e.route == i then [Routers.Probe(e.endpoint, e.up)]
    else []
  }

  ghost function RouterEvents(g: Setting, routes: seq<RouteState>, events: seq<Event>, i: nat): seq<Routers.Event>
    requires Valid(g, routes) && AllFit(routes, events)
  {
    if events == [] then []
    else
      var before := After(g, routes, events[..|events| - 1]);
      assert Fits(before, events[|events| - 1]);
      RouterEvents(g, routes, events[..|events| - 1], i) + RouterEvent(g, before, events[|events| - 1], i)
  }

  lemma {:induction false} ChainEventsFit(g: Setting, routes: seq<RouteState>, events: seq<Event>, i: nat)
    requires Valid(g, routes) && AllFit(routes, events) && i < |routes|
    ensures ChainRuns.Fits(routes[i].chain, ChainEvents(g, events, i))
  {
    hide Choice;
    if events != [] {
      var front, e := events[..|events| - 1], events[|events| - 1];
      assert Fits(routes, e);
      ChainEventsFit(g, routes, front, i);
      assert forall x :: x in ChainEvents(g, events, i) <==> x in ChainEvents(g, front, i) || x in ChainEvent(g, e, i);
    }
  }

  lemma RouterOneEvent(lib: Http.Library, r: Routers.Router, e: Routers.Event)
    requires r.Valid()
    ensures Routers.After(lib, r, []) == r
    ensures e.Request? ==> Routers.After(lib, r, [e]) == Routers.Pick(lib, r, e.headers, e.rnd).0
    ensures e.Probe? ==> Routers.After(lib, r, [e]) == Routers.SetHealth(r, e.endpoint, Routers.HealthFrom(e.up))
  {
    hide Routers.Pick, Routers.SetHealth;
    assert [e][..0] == [];
  }

  lemma ChainOneEvent(chain: seq<Chains.State>, e: ChainRuns.Event)
    requires |e.readings| == |chain|
    ensures ChainRuns.After(chain, []) == chain
    ensures ChainRuns.Fits(chain, [e]) && ChainRuns.After(chain, [e]) == ChainRuns.Apply(chain, e)
  {
    hide ChainRuns.Apply;
    assert [e][..0] == [];
  }

  lemma ServeParts(g: Setting, s: RouteState, info: RouteInfo, incoming: Incoming, readings: seq<Chains.Reading>,
                   rnd: nat)
    requires |readings| == |s.chain| && s.router.Valid()
    ensures var (after, _) := Serve(g.lib, s, info, g.defaultTimeout, incoming, readings, rnd);
            && after.chain == Chains.Walk(s.chain, incoming.ToVisit(), readings).0
            && after.router == if Chains.Walk(s.chain, incoming.ToVisit(), readings).1 == Chains.Allowed
                 then Routers.Pick(g.lib, s.router, incoming.headers, rnd).0 else s.router
  {
    hide Chains.Walk, Routers.Pick;
  }

  /** One event, seen from route `i`. */
  lemma ApplyAt(g: Setting, routes: seq<RouteState>, e: Event, i: nat)
    requires Valid(g, routes) && Fits(routes, e) && i < |routes|
    ensures ChainRuns.Fits(routes[i].chain, ChainEvent(g, e, i))
    ensures Apply(g, routes, e)[i].chain == ChainRuns.After(routes[i].chain, ChainEvent(g, e, i))
    ensures Apply(g, routes, e)[i].router == Routers.After(g.lib, routes[i].router, RouterEvent(g, routes, e, i))
  {
    hide Choice, Serve, ChainRuns.After, Routers.After, Chains.Walk, ChainRuns.RecordAt, Routers.Pick;
    hide Routers.SetHealth;
    var s := routes[i];
    RouterOneEvent(g.lib, s.router, Routers.Probe([], true));
    ChainNothing(s.chain);
    if Wins(g, e, i) {
      ServeParts(g, s, g.infos[i], e.incoming, e.readings[i], e.rnd);
      RouterOneEvent(g.lib, s.router, Routers.Request(e.incoming.headers, e.rnd));
      ChainOneEvent(s.chain, ChainRuns.Arrive(e.incoming.ToVisit(), e.readings[i]));
    } else if e.Report? && e.route == i {
      ChainOneEvent(s.chain, ChainRuns.Report(e.success, e.which, e.outcome));
    } else if e.Probe? && e.route == i {
      RouterOneEvent(g.lib, s.router, Routers.Probe(e.endpoint, e.up));
    }
  }

  lemma ChainNothing(chain: seq<Chains.State>)
    ensures ChainRuns.Fits(chain, []) && ChainRuns.After(chain, []) == chain
  {
  }

  lemma {:induction false} RouterAfterAppend(lib: Http.Library, r: Routers.Router, a: seq<Routers.Event>,
                                             b: seq<Routers.Event>)
    requires r.Valid()
    ensures Routers.After(lib, r, a + b) == Routers.After(lib, Routers.After(lib, r, a), b)
  {
    hide Routers.Pick, Routers.SetHealth;
    if b == [] {
      assert a + b == a;
    } else {
      assert (a + b)[..|a + b| - 1] == a + b[..|b| - 1];
      RouterAfterAppend(lib, r, a, b[..|b| - 1]);
    }
  }

  lemma {:induction false} ChainAfterAppend(chain: seq<Chains.State>, a: seq<ChainRuns.Event>, b: seq<ChainRuns.Event>)
    requires ChainRuns.Fits(chain, a) && ChainRuns.Fits(chain, b)
    ensures ChainRuns.Fits(chain, a + b)
    ensures ChainRuns.After(chain, a + b) == ChainRuns.After(ChainRuns.After(chain, a), b)
  {
    hide ChainRuns.Apply;
    if b == [] {
      assert a + b == a;
    } else {
      assert (a + b)[..|a + b| - 1] == a + b[..|b| - 1];
      ChainAfterAppend(chain, a, b[..|b| - 1]);
    }
  }

  /**
   * ROUTES ARE ISOLATED. Over every run, the chain of a route is where its own requests and outcomes lead,
   * and its router where the requests its chain let through and its own probes lead; what other
   * routes do never shows.
   */
  lemma {:induction false} RouteRunsAlone(g: Setting, routes: seq<RouteState>, events: seq<Event>, i: nat)
    requires Valid(g, routes) && AllFit(routes, events) && i < |routes|
    ensures ChainRuns.Fits(routes[i].chain, ChainEvents(g, events, i))
    ensures After(g, routes, events)[i].chain == ChainRuns.After(routes[i].chain, ChainEvents(g, events, i))
    ensures After(g, routes, events)[i].router
         == Routers.After(g.lib, routes[i].router, RouterEvents(g, routes, events, i))
  {
    hide Apply, ChainEvent, RouterEvent, ChainRuns.After, Routers.After;
    ChainEventsFit(g, routes, events, i);
    if events == [] {
      ChainNothing(routes[i].chain);
      RouterOneEvent(g.lib, routes[i].router, Routers.Probe([], true));
    } else {
      var front, e := events[..|events| - 1], events[|events| - 1];
      RouteRunsAlone(g, routes, front, i);
      var before := After(g, routes, front);
      assert Fits(routes, e);
      ApplyAt(g, before, e, i);
      ChainAfterAppend(routes[i].chain, ChainEvents(g, front, i), ChainEvent(g, e, i));
      RouterAfterAppend(g.lib, routes[i].router, RouterEvents(g, routes, front, i), RouterEvent(g, before, e, i));
    }
  }

  // ---------------------------------------------------------------- end-to-end consequences

  /** How many requests of a kind went out through route `i`. */
  ghost function Forwarded(g: Setting, routes: seq<RouteState>, events: seq<Event>, i: nat, kind: Kind): nat
    requires Valid(g, routes) && AllFit(routes, events)
  {
    if events == [] then 0
    else
      var before, e := After(g, routes, events[..|events| - 1]), events[|events| - 1];
      assert Fits(before, e);
      Forwarded(g, routes, events[..|events| - 1], i, kind) +
        if Forwards(g, before, e, i) && kind(AsVisit(e, i)) then 1 else 0
  }

  type Kind = ChainRuns.Event -> bool

  /** A request as the chain of route `i` sees it. */
  function AsVisit(e: Event, i: nat): ChainRuns.Event
    requires e.Arrive? && i < |e.readings|
  {
    ChainRuns.Arrive(e.incoming.ToVisit(), e.readings[i])
  }

  /** The request goes out through route `i`. */
  ghost predicate Forwards(g: Setting, before: seq<RouteState>, e: Event, i: nat): (yes: bool)
    requires Valid(g, before) && Fits(before, e)
    ensures yes ==> e.Arrive? && i < |e.readings|
  {
    Wins(g, e, i) && Step(g.lib, g.infos, before, g.defaultTimeout, e.incoming, e.readings, e.rnd).1.Forward?
  }

  lemma ForwardMeansAllowed(g: Setting, routes: seq<RouteState>, e: Event, i: nat)
    requires Valid(g, routes) && Fits(routes, e) && i < |routes| && Forwards(g, routes, e, i)
    ensures ChainRuns.Passes(routes[i].chain, AsVisit(e, i))
  {
    hide Chains.Walk, Routers.Route;
  }

  lemma {:induction false} PassCountAppend(chain: seq<Chains.State>, a: seq<ChainRuns.Event>, e: ChainRuns.Event,
                                           kind: Kind)
    requires ChainRuns.Fits(chain, a) && |e.readings| == |chain|
    ensures ChainRuns.Fits(chain, a + [e])
    ensures ChainRuns.PassCount(chain, a + [e], kind) == ChainRuns.PassCount(chain, a, kind) +
              if ChainRuns.Passes(ChainRuns.After(chain, a), e) && kind(e) then 1 else 0
  {
    hide ChainRuns.Passes, ChainRuns.After;
    assert (a + [e])[..|a|] == a;
  }

  lemma ForwardCountsOnce(g: Setting, before: seq<RouteState>, chain: seq<Chains.State>, own: seq<ChainRuns.Event>,
                          e: Event, i: nat, kind: Kind)
    requires Valid(g, before) && Fits(before, e) && i < |before| && |chain| == |before[i].chain|
    requires ChainRuns.Fits(chain, own) && ChainRuns.After(chain, own) == before[i].chain
    ensures ChainRuns.Fits(chain, own + ChainEvent(g, e, i))
    ensures ChainRuns.PassCount(chain, own, kind) + (if Forwards(g, before, e, i) && kind(AsVisit(e, i)) then 1 else 0)
         <= ChainRuns.PassCount(chain, own + ChainEvent(g, e, i), kind)
  {
    hide Step, ChainRuns.Passes, ChainRuns.PassCount, ChainRuns.After, Choice;
    if Wins(g, e, i) {
      PassCountAppend(chain, own, AsVisit(e, i), kind);
      if Forwards(g, before, e, i) {
        ForwardMeansAllowed(g, before, e, i);
      }
    } else if e.Report? && e.route == i {
      PassCountAppend(chain, own, ChainRuns.Report(e.success, e.which, e.outcome), kind);
    } else {
      assert own + [] == own;
    }
  }

  lemma {:induction false} ForwardedWithinPassCount(g: Setting, routes: seq<RouteState>, events: seq<Event>, i: nat,
                                                    kind: Kind)
    requires Valid(g, routes) && AllFit(routes, events) && i < |routes|
    ensures ChainRuns.Fits(routes[i].chain, ChainEvents(g, events, i))
    ensures Forwarded(g, routes, events, i, kind)
         <= ChainRuns.PassCount(routes[i].chain, ChainEvents(g, events, i), kind)
  {
    hide ChainEvent, Forwards, ChainRuns.PassCount, ChainRuns.After, Apply;
    ChainEventsFit(g, routes, events, i);
    if events != [] {
      var front, e := events[..|events| - 1], events[|events| - 1];
      ForwardedWithinPassCount(g, routes, front, i, kind);
      RouteRunsAlone(g, routes, front, i);
      var before := After(g, routes, front);
      assert Fits(routes, e) && Fits(before, e);
      ForwardCountsOnce(g, before, routes[i].chain, ChainEvents(g, front, i), e, i, kind);
    }
  }

  /**
   * GATEWAY RATE BOUND. Over every run of requests to any routes, outcomes and probes, what a route forwards
   * in the scope of a token bucket in its chain stays within that bucket's allowance.
   */
  lemma GatewayWithinEveryBucket(g: Setting, routes: seq<RouteState>, events: seq<Event>, i: nat, k: nat,
                                 until: RateLimit.SystemTime)
    requires Valid(g, routes) && AllFit(routes, events) && i < |routes|
    requires k < |routes[i].chain| && routes[i].chain[k].Bucket? && 1 <= routes[i].chain[k].bc.rate
    requires ChainRuns.ReadBy(ChainEvents(g, events, i), k, until)
    ensures Forwarded(g, routes, events, i, ChainRuns.InScope(routes[i].chain[k].bc.scope))
         <= TB.Bound(routes[i].chain[k].bc, routes[i].chain[k].bucket, until)
  {
    hide Forwarded, ChainRuns.PassCount, TB.Bound;
    ForwardedWithinPassCount(g, routes, events, i, ChainRuns.InScope(routes[i].chain[k].bc.scope));
    ChainRuns.ChainWithinEveryBucket(routes[i].chain, ChainEvents(g, events, i), k, until);
  }

  /** And it stays within the bound of every fixed window in its chain, eviction term included. */
  lemma GatewayWithinEveryWindow(g: Setting, routes: seq<RouteState>, events: seq<Event>, i: nat, k: nat, w: nat)
    requires Valid(g, routes) && AllFit(routes, events) && i < |routes|
    requires k < |routes[i].chain| && routes[i].chain[k].Window? && routes[i].chain[k].counts == map[]
    requires 0 <= routes[i].chain[k].wc.rate
    requires ChainRuns.Fits(routes[i].chain, ChainEvents(g, events, i))
    requires ChainRuns.PossibleEvents(routes[i].chain, ChainEvents(g, events, i), k)
    requires var c, chain := routes[i].chain[k].wc, routes[i].chain;
             FW.Replay(c, ChainRuns.WindowArrivals(chain, ChainEvents(g, events, i), k), w).seen <= TWO_31 + c.rate
    ensures var c, chain := routes[i].chain[k].wc, routes[i].chain;
            var evictions := FW.Replay(c, ChainRuns.WindowArrivals(chain, ChainEvents(g, events, i), k), w).evictions;
            Forwarded(g, routes, events, i, ChainRuns.InWindowOf(c, k, w)) <= c.rate * (1 + evictions)
  {
    hide Forwarded, ChainRuns.PassCount, FW.Replay;
    ForwardedWithinPassCount(g, routes, events, i, ChainRuns.InWindowOf(routes[i].chain[k].wc, k, w));
    ChainRuns.ChainWithinEveryWindow(routes[i].chain, ChainEvents(g, events, i), k, w);
  }

  /**
   * GATEWAY BREAKER. From the moment a breaker of a route is open, whatever the gateway does meanwhile, a
   * request the route wins before the breaker's deadline is refused.
   */
  lemma {:induction false} OpenBreakerBlocksRoute(g: Setting, routes: seq<RouteState>, events: seq<Event>, e: Event,
                                                  i: nat, k: nat)
    requires Valid(g, routes) && AllFit(routes, events) && Fits(routes, e) && Wins(g, e, i) && i < |routes|
    requires k < |routes[i].chain| && routes[i].chain[k].Breaker? && routes[i].chain[k].breaker.Open?
    requires ChainRuns.Fits(routes[i].chain, ChainEvents(g, events, i) + [AsVisit(e, i)])
    requires forall x :: x in ChainEvents(g, events, i) + [AsVisit(e, i)] ==>
               x.readings[k].instant < routes[i].chain[k].breaker.opensAt
    ensures After(g, routes, events)[i].chain[k] == routes[i].chain[k]
    ensures Fits(After(g, routes, events), e) && !Forwards(g, After(g, routes, events), e, i)
  {
    hide Forwards, ChainRuns.After, ChainRuns.Passes;
    RouteRunsAlone(g, routes, events, i);
    ChainRuns.OpenBreakerBlocksChain(routes[i].chain, ChainEvents(g, events, i), k);
    var now := After(g, routes, events);
    assert AsVisit(e, i) in ChainEvents(g, events, i) + [AsVisit(e, i)] && Fits(now, e);
    if Forwards(g, now, e, i) {
      ForwardMeansAllowed(g, now, e, i);
      ChainRuns.PassedMeansBreakersAllow(now[i].chain, AsVisit(e, i), k);
    }
  }

  // ---------------------------------------------------------------- half open without an outcome

  /** The outcomes that reached middleware `k` of route `i`. */
  function Reports(events: seq<Event>, i: nat, k: nat): nat {
    if events == [] then 0
    else Reports(events[..|events| - 1], i, k) + if Delivers(events[|events| - 1], i, k) then 1 else 0
  }

  predicate Delivers(e: Event, i: nat, k: nat) {
    e.Report? && e.route == i && k in e.which
  }

  const ANY: Kind := (e: ChainRuns.Event) => true

  /**
   * Outcomes come from requests the route forwarded, at most one from each; `inFlight` of them had not yet
   * reached middleware `k` at the start.
   */
  ghost predicate Accountable(g: Setting, routes: seq<RouteState>, events: seq<Event>, i: nat, k: nat, inFlight: nat)
    requires Valid(g, routes) && AllFit(routes, events)
  {
    events != [] ==>
      && Accountable(g, routes, events[..|events| - 1], i, k, inFlight)
      && Reports(events, i, k) <= inFlight + Forwarded(g, routes, events, i, ANY)
  }

  ghost predicate RefusesAlways(s: Chains.State) {
    s.Breaker? && forall at: nat :: !CB.Allows(s.cc, s.breaker, at)
  }

  /** Whatever requests come, at whatever time, breaker `k` of route `i` refuses every one of them. */
  ghost predicate LockedOut(g: Setting, routes: seq<RouteState>, i: nat, k: nat, inFlight: nat)
    requires Valid(g, routes) && i < |routes| && k < |routes[i].chain|
  {
    forall events :: AllFit(routes, events) && Accountable(g, routes, events, i, k, inFlight) ==>
      RefusesAlways(After(g, routes, events)[i].chain[k])
  }

  /** One event that brings it no outcome leaves a shut half-open breaker as it is. */
  lemma ShutStep(g: Setting, routes: seq<RouteState>, e: Event, i: nat, k: nat)
    requires Valid(g, routes) && Fits(routes, e) && i < |routes| && k < |routes[i].chain|
    requires routes[i].chain[k].Breaker? && routes[i].chain[k].breaker.HalfOpen? && RefusesAlways(routes[i].chain[k])
    requires !Delivers(e, i, k)
    ensures Apply(g, routes, e)[i].chain[k] == routes[i].chain[k]
    ensures !Forwards(g, routes, e, i)
  {
    hide Apply, Forwards, ChainRuns.Passes;
    var chain := routes[i].chain;
    ApplyAt(g, routes, e, i);
    ChainNothing(chain);
    if Wins(g, e, i) {
      ChainOneEvent(chain, AsVisit(e, i));
      ChainRuns.AtPosition(chain, AsVisit(e, i), k);
    } else if e.Report? && e.route == i {
      ChainOneEvent(chain, ChainRuns.Report(e.success, e.which, e.outcome));
      ChainRuns.AtPosition(chain, ChainRuns.Report(e.success, e.which, e.outcome), k);
    }
    if Forwards(g, routes, e, i) {
      ForwardMeansAllowed(g, routes, e, i);
      ChainRuns.PassedMeansBreakersAllow(chain, AsVisit(e, i), k);
    }
  }

  /** With nothing in flight no outcome ever comes, and a shut half-open breaker stays shut. */
  lemma {:induction false} ShutStaysShut(g: Setting, routes: seq<RouteState>, events: seq<Event>, i: nat, k: nat)
    requires Valid(g, routes) && AllFit(routes, events) && i < |routes| && k < |routes[i].chain|
    requires routes[i].chain[k].Breaker? && routes[i].chain[k].breaker.HalfOpen? && RefusesAlways(routes[i].chain[k])
    requires Accountable(g, routes, events, i, k, 0)
    ensures After(g, routes, events)[i].chain[k] == routes[i].chain[k]
    ensures Reports(events, i, k) == 0 && Forwarded(g, routes, events, i, ANY) == 0
  {
    hide Apply, Forwards, RefusesAlways;
    if events != [] {
      var front, e := events[..|events| - 1], events[|events| - 1];
      ShutStaysShut(g, routes, front, i, k);
      var before := After(g, routes, front);
      assert Fits(routes, e) && Fits(before, e);
      if !Delivers(e, i, k) {
        ShutStep(g, before, e, i, k);
      }
    }
  }

  lemma OutcomeComes(g: Setting, routes: seq<RouteState>, e: Event, i: nat, k: nat, inFlight: nat)
    requires Valid(g, routes) && Fits(routes, e) && i < |routes| && k < |routes[i].chain|
    requires Delivers(e, i, k) && e.success && 1 <= inFlight
    requires routes[i].chain[k].Breaker? && routes[i].chain[k].breaker.HalfOpen?
    ensures AllFit(routes, [e]) && Accountable(g, routes, [e], i, k, inFlight)
    ensures !RefusesAlways(After(g, routes, [e])[i].chain[k])
  {
    assert [e][..0] == [];
    assert CB.Allows(routes[i].chain[k].cc, CB.INITIAL, 0);
    assert After(g, routes, [e]) == Apply(g, routes, e);
  }

  /** Every middleware after `k` lets the request through, and the router has a destination for it. */
  predicate GoesOn(lib: Http.Library, s: RouteState, incoming: Incoming, readings: seq<Chains.Reading>, k: nat)
    requires |readings| == |s.chain|
  {
    && (forall j :: k < j < |s.chain| ==>
          Chains.CheckOne(s.chain[j], incoming.ToVisit(), readings[j]).1 == Chains.Allowed)
    && (s.router.StaticFile? || Routers.CanPick(lib, s.router, incoming.headers))
  }

  /** Past a middleware that allows it, a request is forwarded exactly when the rest of its way is clear. */
  lemma ForwardsExactly(g: Setting, routes: seq<RouteState>, e: Event, i: nat, k: nat)
    requires Valid(g, routes) && Fits(routes, e) && Wins(g, e, i) && i < |routes| && k < |routes[i].chain|
    requires ChainRuns.Reaches(routes[i].chain, AsVisit(e, i), k)
    requires Chains.CheckOne(routes[i].chain[k], e.incoming.ToVisit(), e.readings[i][k]).1 == Chains.Allowed
    ensures Forwards(g, routes, e, i) <==> GoesOn(g.lib, routes[i], e.incoming, e.readings[i], k)
  {
    hide Choice, Chains.CheckOne, Routers.Pick, Routers.CanPick;
    var s := routes[i];
    ChainRuns.WalkRunsAPrefix(s.chain, AsVisit(e, i));
    Routers.PicksExactly(g.lib, s.router, e.incoming.headers, e.rnd);
    Routers.PickInRange(g.lib, s.router, e.incoming.headers, e.rnd);
  }

  /**
   * HALF-OPEN LOCKOUT. The request that finds a breaker open past its deadline moves it to half open, and
   * only an outcome moves it on. The breaker then refuses for ever, in every run, if and only if it allows no
   * probes, nothing was in flight, and that request goes nowhere: a later middleware of the chain refuses
   * it, or the router has no backend for it.
   */
  lemma LockoutExactly(g: Setting, routes: seq<RouteState>, e: Event, i: nat, k: nat, inFlight: nat)
    requires Valid(g, routes) && Fits(routes, e) && Wins(g, e, i) && i < |routes| && k < |routes[i].chain|
    requires routes[i].chain[k].Breaker? && routes[i].chain[k].breaker.Open?
    requires routes[i].chain[k].breaker.opensAt <= e.readings[i][k].instant
    requires ChainRuns.Reaches(routes[i].chain, AsVisit(e, i), k)
    ensures var goesOn := GoesOn(g.lib, routes[i], e.incoming, e.readings[i], k);
            (LockedOut(g, Apply(g, routes, e), i, k, inFlight + if goesOn then 1 else 0) <==>
               routes[i].chain[k].cc.halfOpenMax == 0 && inFlight == 0 && !goesOn)
    ensures Forwards(g, routes, e, i) <==> GoesOn(g.lib, routes[i], e.incoming, e.readings[i], k)
  {
    hide Apply, Forwards, ChainRuns.Reaches, ChainRuns.Passes, After, Accountable, RefusesAlways, GoesOn;
    var chain, after := routes[i].chain, Apply(g, routes, e);
    ApplyAt(g, routes, e, i);
    ChainOneEvent(chain, AsVisit(e, i));
    ChainRuns.AtPosition(chain, AsVisit(e, i), k);
    ForwardsExactly(g, routes, e, i, k);
    var outstanding := inFlight + if GoesOn(g.lib, routes[i], e.incoming, e.readings[i], k) then 1 else 0;
    var now := after[i].chain[k];
    assert now == Chains.Breaker(chain[k].cc, CB.HalfOpen(0, 0));
    HalfOpenRefuses(now);
    if chain[k].cc.halfOpenMax != 0 {
      AfterNothing(g, after, i, k, outstanding);
    } else if outstanding == 0 {
      forall events | AllFit(after, events) && Accountable(g, after, events, i, k, 0)
        ensures RefusesAlways(After(g, after, events)[i].chain[k])
      {
        ShutStaysShut(g, after, events, i, k);
      }
    } else {
      OutcomeComes(g, after, Report(i, true, {k}, e.readings[i]), i, k, outstanding);
    }
  }

  lemma HalfOpenRefuses(s: Chains.State)
    requires s.Breaker? && s.breaker == CB.HalfOpen(0, 0)
    ensures RefusesAlways(s) <==> s.cc.halfOpenMax == 0
  {
    assert CB.Allows(s.cc, s.breaker, 0) <==> s.cc.halfOpenMax != 0;
  }

  lemma AfterNothing(g: Setting, routes: seq<RouteState>, i: nat, k: nat, inFlight: nat)
    requires Valid(g, routes)
    ensures AllFit(routes, []) && Accountable(g, routes, [], i, k, inFlight) && After(g, routes, []) == routes
  {
  }

  /** A breaker that one failure opens and that allows no probes, in front of a check that wants a login. */
  const NO_PROBES := CB.Config(1.0, 1, 0, 0, 1)
  const LOGIN_CHAIN := [Chains.Breaker(NO_PROBES, CB.Open(0)), Chains.Stateless(_ => Chains.Denied(401, None))]
  const ONE_BACKEND := Routers.Random([Liveness.BaseRoute("http://backend", Liveness.Up)])

  /** One request without a login, after one failure: the route never serves anyone again. */
  lemma LockoutExample(lib: Http.Library, incoming: Incoming, r: Chains.Reading)
    ensures CB.Run(NO_PROBES, [CB.Failure(0)]) == CB.Open(0)
    ensures var g := Setting(lib, [RouteInfo(Matchers.RouteSpec([], None), None)], 0);
            var routes := [RouteState(LOGIN_CHAIN, ONE_BACKEND)];
            var e := Arrive(incoming, [[r, r]], 0);
            Valid(g, routes) && Fits(routes, e) && LockedOut(g, Apply(g, routes, e), 0, 0, 0)
  {
    hide LockedOut, Apply;
    assert [CB.Failure(0)][..0] == [];
    var infos := [RouteInfo(Matchers.RouteSpec([], None), None)];
    var g := Setting(lib, infos, 0);
    var routes := [RouteState(LOGIN_CHAIN, ONE_BACKEND)];
    var e := Arrive(incoming, [[r, r]], 0);
    assert Matchers.IsBest(lib, SpecsOf(infos), incoming.ToMatch(), 0);
    assert Wins(g, e, 0);
    assert !GoesOn(lib, routes[0], incoming, e.readings[0], 0) by {
      assert Chains.CheckOne(LOGIN_CHAIN[1], incoming.ToVisit(), r).1 == Chains.Denied(401, None);
    }
    LockoutExactly(g, routes, e, 0, 0, 0);
  }

  // ---------------------------------------------------------------- failover

  /**
   * GATEWAY FAILOVER. Take any run after which a route's backends are all known, and any run after that.
   * While one of them is up, a request the route forwards to a backend goes to one that is up, and on a
   * header-based route to one whose rule matches, except that it falls back to its first rule when no live
   * rule matches.
   */
  lemma ForwardedBackendIsUp(g: Setting, routes: seq<RouteState>, first: seq<Event>, later: seq<Event>, e: Event,
                             i: nat)
    requires Valid(g, routes) && AllFit(routes, first) && Wins(g, e, i) && i < |routes|
    requires Routers.AllKnown(After(g, routes, first)[i].router)
    requires AllFit(After(g, routes, first), later) && Fits(After(g, After(g, routes, first), later), e)
    requires Routers.SomeUp(After(g, After(g, routes, first), later)[i].router)
    ensures var all := After(g, After(g, routes, first), later);
            var now := all[i].router;
            match Step(g.lib, g.infos, all, g.defaultTimeout, e.incoming, e.readings, e.rnd).1
            case Forward(_, destination, _) =>
              && (destination.Http? || destination.Grpc?)
              && destination.route in now.Backends()
              && ((&& destination.route.alive == Liveness.Up
                   && (now.HeaderBased? ==>
                         exists j :: 0 <= j < |now.rules| && destination.route == now.rules[j].Base()
                           && Routers.RuleAnswer(g.lib, now.rules[j], e.incoming.headers) == Routers.Hit))
                  || (&& now.HeaderBased? && destination.route == now.Backends()[0]
                      && forall j :: 0 <= j < |now.rules| && now.rules[j].alive == Liveness.Up ==>
                           Routers.RuleAnswer(g.lib, now.rules[j], e.incoming.headers) == Routers.Miss))
            case _ => true
  {
    hide Choice, Chains.Walk, After, Routers.Pick, Routers.RuleAnswer;
    var known := After(g, routes, first);
    RouteRunsAlone(g, known, later, i);
    Routers.KnownStaysKnown(g.lib, known[i].router, RouterEvents(g, known, later, i));
    var now := After(g, known, later)[i].router;
    var (_, pick) := Routers.Pick(g.lib, now, e.incoming.headers, e.rnd);
    Routers.PickInRange(g.lib, now, e.incoming.headers, e.rnd);
    if pick.Some? {
      Routers.PickIsUp(g.lib, now, e.incoming.headers, e.rnd);
    }
  }
}
