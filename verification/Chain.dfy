/** The short-circuiting middleware chain of a route, over separate limiter and breaker objects. */
module Chains {
  import opened Common
  import opened RateLimit
  import TB = TokenBuckets
  import FW = FixedWindows
  import CB = CircuitBreakers

  /** `Denied` carries the HTTP status and, from a limiter, its headers. */
  datatype CheckResult = Allowed | Denied(status: nat, headers: Option<LimitHeaders>) | Failed | Panicked

  /** A request as the chain sees it; the TCP proxy passes no headers and limiters then stand aside. */
  datatype Visit = Visit(req: Request, hasHeaders: bool)

  /** What the environment supplies when one middleware runs: clocks and the entry a full map evicts. */
  datatype Reading = Reading(clock: FW.Clock, victim: nat, instant: nat)

  datatype State =
    | Bucket(bc: TB.Config, bucket: TB.Bucket)
    | Window(wc: FW.Config, counts: FW.Counts)
    | Breaker(cc: CB.Config, breaker: CB.State)
    | Stateless(check: Visit -> CheckResult)
    | Passive

  function Verdict429(v: Verdict): CheckResult {
    match v
    case Pass => Allowed
    case Limited(headers) => Denied(429, Some(headers))
    case Failed => CheckResult.Failed
    case Panic => Panicked
  }

  function BreakerResult(allowed: bool): CheckResult {
    if allowed then Allowed else Denied(503, None)
  }

  /** `MiddleWares::check_request`. */
  function CheckOne(s: State, v: Visit, r: Reading): (State, CheckResult) {
    match s
    case Bucket(c, b) =>
      if !v.hasHeaders then (s, Allowed)
      else var (b', verdict) := TB.Step(c, b, v.req, r.clock.first); (Bucket(c, b'), Verdict429(verdict))
    case Window(c, counts) =>
      if !v.hasHeaders then (s, Allowed)
      else
        var (counts', verdict) := FW.Step(c, counts, v.req, r.clock, r.victim);
        (Window(c, counts'), Verdict429(verdict))
    case Breaker(c, b) => (Breaker(c, CB.Step(c, b, CB.Call(r.instant))), BreakerResult(CB.Allows(c, b, r.instant)))
    case Stateless(check) => (s, check(v))
    case Passive => (s, Allowed)
  }

  /** The first middleware from `i` on that does not allow the request; the length if all do. */
  function Stop(states: seq<State>, v: Visit, rs: seq<Reading>, i: nat): (stop: nat)
    requires |states| == |rs| && i <= |states|
    ensures i <= stop <= |states|
    ensures forall j :: i <= j < stop ==> CheckOne(states[j], v, rs[j]).1 == Allowed
    ensures stop < |states| ==> CheckOne(states[stop], v, rs[stop]).1 != Allowed
    decreases |states| - i
  {
    if i == |states| || CheckOne(states[i], v, rs[i]).1 != Allowed then i else Stop(states, v, rs, i + 1)
  }

  /** `RouteConfig::is_allowed`: everything up to the first refusal runs, nothing after it does. */
  function Walk(states: seq<State>, v: Visit, rs: seq<Reading>): (seq<State>, CheckResult)
    requires |states| == |rs|
  {
    var stop := Stop(states, v, rs, 0);
    (seq(|states|, i requires 0 <= i < |states| => if i <= stop then CheckOne(states[i], v, rs[i]).0 else states[i]),
     if stop == |states| then Allowed else CheckOne(states[stop], v, rs[stop]).1)
  }

  /** `record_outcome`: only breakers listen. */
  function RecordOne(s: State, success: bool, r: Reading): State {
    match s
    case Breaker(c, b) => Breaker(c, CB.Step(c, b, if success then CB.Success(r.instant) else CB.Failure(r.instant)))
    case _ => s
  }

  function Record(states: seq<State>, success: bool, rs: seq<Reading>): seq<State>
    requires |states| == |rs|
  {
    seq(|states|, i requires 0 <= i < |states| => RecordOne(states[i], success, rs[i]))
  }

  // ---------------------------------------------------------------- the objects

  datatype Middleware =
    | RateLimitBucket(bucket: TB.TokenBucketRateLimit)
    | RateLimitWindow(window: FW.FixedWindowRateLimit)
    | CircuitBreaker(breaker: CB.CircuitBreaker)
    | Check(check: Visit -> CheckResult)
    | Other
  {
    ghost function Footprint(): set<object> {
      match this
      case RateLimitBucket(b) => {b}
      case RateLimitWindow(w) => {w}
      case CircuitBreaker(c) => {c}
      case _ => {}
    }

    ghost function Abstract(): State
      reads Footprint()
    {
      match this
      case RateLimitBucket(b) => Bucket(b.config, b.State())
      case RateLimitWindow(w) => Window(w.config, w.countMap)
      case CircuitBreaker(c) => Breaker(c.config, c.state)
      case Check(check) => Stateless(check)
      case Other => Passive
    }

    method CheckRequest(v: Visit, r: Reading) returns (result: CheckResult)
      requires RateLimitWindow? ==> FW.VictimExists(window.countMap, r.victim)
      modifies Footprint()
      ensures (Abstract(), result) == CheckOne(old(Abstract()), v, r)
    {
      match this
      case RateLimitBucket(b) =>
        if v.hasHeaders {
          var verdict := b.ShouldLimit(v.req, r.clock.first);
          result := Verdict429(verdict);
        } else {
          result := Allowed;
        }
      case RateLimitWindow(w) =>
        if v.hasHeaders {
          var verdict := w.ShouldLimit(v.req, r.clock, r.victim);
          result := Verdict429(verdict);
        } else {
          result := Allowed;
        }
      case CircuitBreaker(c) =>
        var allowed := c.IsCallAllowed(r.instant);
        result := BreakerResult(allowed);
      case Check(check) => result := check(v);
      case Other => result := Allowed;
    }

    method RecordOutcome(success: bool, r: Reading)
      modifies Footprint()
      ensures Abstract() == RecordOne(old(Abstract()), success, r)
    {
      if CircuitBreaker? {
        if success {
          breaker.RecordSuccess(r.instant);
        } else {
          breaker.RecordFailure(r.instant);
        }
      }
    }
  }

  ghost function Objects(chain: seq<Middleware>): set<object> {
    set m, o | m in chain && o in m.Footprint() :: o
  }

  /** Each entry of a loaded chain owns its limiter or breaker. */
  ghost predicate Separate(chain: seq<Middleware>) {
    forall i, j :: 0 <= i < j < |chain| ==> chain[i].Footprint() !! chain[j].Footprint()
  }

  ghost function Abstraction(chain: seq<Middleware>): (states: seq<State>)
    reads Objects(chain)
    ensures |states| == |chain|
    ensures forall i :: 0 <= i < |chain| ==> states[i] == chain[i].Abstract()
  {
    seq(|chain|, i requires 0 <= i < |chain| reads Objects(chain) => chain[i].Abstract())
  }

  /** The evicted entries named by the readings are there to be evicted. */
  ghost predicate Evictable(states: seq<State>, rs: seq<Reading>)
    requires |states| == |rs|
  {
    forall i :: 0 <= i < |states| && states[i].Window? ==> FW.VictimExists(states[i].counts, rs[i].victim)
  }

  method IsAllowed(chain: seq<Middleware>, v: Visit, rs: seq<Reading>) returns (result: CheckResult)
    requires |rs| == |chain| && Separate(chain)
    requires Evictable(Abstraction(chain), rs)
    modifies Objects(chain)
    ensures (Abstraction(chain), result) == Walk(old(Abstraction(chain)), v, rs)
  {
    hide CheckOne, Stop, Walk, FW.VictimExists, Middleware.Abstract;
    ghost var before := Abstraction(chain);
    for n := 0 to |chain|
      invariant forall i :: 0 <= i < n ==> chain[i].Abstract() == CheckOne(before[i], v, rs[i]).0
      invariant forall i :: n <= i < |chain| ==> chain[i].Abstract() == before[i]
      invariant forall i :: 0 <= i < n ==> CheckOne(before[i], v, rs[i]).1 == Allowed
    {
      ghost var now := Abstraction(chain);
      assert chain[n] in chain;
      EvictableHere(chain[n], before[n], rs[n]);
      result := chain[n].CheckRequest(v, rs[n]);
      assert forall i :: 0 <= i < |chain| && i != n ==> chain[i].Abstract() == now[i];
      if result != Allowed {
        WalkStopsAt(before, v, rs, n, Abstraction(chain));
        return;
      }
    }
    result := Allowed;
    WalkStopsAt(before, v, rs, |chain|, Abstraction(chain));
  }

  /** How to recognise the outcome of a walk: all allowed before `n`, and `n` is the end or refuses. */
  lemma WalkStopsAt(states: seq<State>, v: Visit, rs: seq<Reading>, n: nat, after: seq<State>)
    requires |states| == |rs| == |after| && n <= |states|
    requires forall i :: 0 <= i < n ==> CheckOne(states[i], v, rs[i]).1 == Allowed
    requires n < |states| ==> CheckOne(states[n], v, rs[n]).1 != Allowed
    requires forall i :: 0 <= i < |states| ==>
               after[i] == if i <= n then CheckOne(states[i], v, rs[i]).0 else states[i]
    ensures Walk(states, v, rs) == (after, if n == |states| then Allowed else CheckOne(states[n], v, rs[n]).1)
  {
    hide CheckOne;
    var stop := Stop(states, v, rs, 0);
    assert stop == n;
    assert Walk(states, v, rs).0 == after;
  }

  lemma EvictableHere(m: Middleware, s: State, r: Reading)
    requires m.Abstract() == s
    requires s.Window? ==> FW.VictimExists(s.counts, r.victim)
    ensures m.RateLimitWindow? ==> FW.VictimExists(m.window.countMap, r.victim)
  {
  }

  method HandleBeforeResponse(chain: seq<Middleware>, success: bool, rs: seq<Reading>)
    requires |rs| == |chain| && Separate(chain)
    modifies Objects(chain)
    ensures Abstraction(chain) == Record(old(Abstraction(chain)), success, rs)
  {
    hide RecordOne, Middleware.Abstract;
    ghost var before := Abstraction(chain);
    for n := 0 to |chain|
      invariant forall i :: 0 <= i < n ==> chain[i].Abstract() == RecordOne(before[i], success, rs[i])
      invariant forall i :: n <= i < |chain| ==> chain[i].Abstract() == before[i]
    {
      ghost var now := Abstraction(chain);
      assert chain[n] in chain;
      chain[n].RecordOutcome(success, rs[n]);
      assert forall i :: 0 <= i < |chain| && i != n ==> chain[i].Abstract() == now[i];
    }
  }
}
