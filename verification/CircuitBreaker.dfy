/** The three-state machine of `circuit_breaker.rs`, driven by calls and by outcomes that arrive later. */
module CircuitBreakers {
  import opened Common

  /** `failureRate` is the `f64` threshold as a real; times are nanoseconds of the monotone clock. */
  datatype Config = Config(
    failureRate: real,
    consecutiveThreshold: U32,
    openDuration: nat,
    halfOpenMax: U32,
    minRequests: U64)

  datatype State =
    | Closed(failures: U64, total: U64, consecutive: U32)
    | Open(opensAt: nat)
    | HalfOpen(successProbes: U32, totalProbes: U32)

  const INITIAL := Closed(0, 0, 0)

  /** Who touches the breaker, each at an instant: a request asking, or a response reporting. */
  datatype Event = Call(at: nat) | Success(at: nat) | Failure(at: nat)

  function WrapU32(x: nat): U32 {
    x % TWO_32
  }

  /** `failures / total >= threshold`; division by a wrapped zero gives infinity or not-a-number. */
  predicate RateReached(c: Config, failures: U64, total: U64) {
    if total == 0 then failures != 0 else c.failureRate <= failures as real / total as real
  }

  function Allows(c: Config, s: State, at: nat): bool {
    match s
    case Closed(_, _, _) => true
    case Open(opensAt) => opensAt <= at
    case HalfOpen(_, totalProbes) => totalProbes < c.halfOpenMax
  }

  function AfterCall(s: State, at: nat): State {
    if s.Open? && s.opensAt <= at then HalfOpen(0, 0) else s
  }

  function AfterSuccess(s: State): State {
    match s
    case Closed(failures, total, _) => Closed(failures, WrapU64(total + 1), 0)
    case HalfOpen(_, _) => INITIAL
    case Open(_) => s
  }

  function AfterFailure(c: Config, s: State, at: nat): State {
    match s
    case Closed(failures, total, consecutive) =>
      var f, t, k := WrapU64(failures + 1), WrapU64(total + 1), WrapU32(consecutive + 1);
      if c.consecutiveThreshold <= k || (c.minRequests <= t && RateReached(c, f, t)) then Open(at + c.openDuration)
      else Closed(f, t, k)
    case HalfOpen(_, _) => Open(at + c.openDuration)
    case Open(_) => s
  }

  function Step(c: Config, s: State, e: Event): State {
    match e
    case Call(at) => AfterCall(s, at)
    case Success(_) => AfterSuccess(s)
    case Failure(at) => AfterFailure(c, s, at)
  }

  class CircuitBreaker {
    const config: Config
    var state: State

    constructor (config: Config)
      ensures this.config == config && state == INITIAL
    {
      this.config := config;
      state := INITIAL;
    }

    method IsCallAllowed(now: nat) returns (allowed: bool)
      modifies this
      ensures allowed == Allows(config, old(state), now)
      ensures state == Step(config, old(state), Call(now))
    {
      match state {
        case Closed(_, _, _) => allowed := true;
        case Open(opensAt) =>
          if opensAt <= now {
            state := HalfOpen(0, 0);
            allowed := true;
          } else {
            allowed := false;
          }
        case HalfOpen(_, totalProbes) => allowed := totalProbes < config.halfOpenMax;
      }
    }

    method RecordSuccess(now: nat)
      modifies this
      ensures state == Step(config, old(state), Success(now))
    {
      match state {
        case Closed(failures, total, _) => state := Closed(failures, WrapU64(total + 1), 0);
        case HalfOpen(_, _) => ResetToClosed();
        case Open(_) =>
      }
    }

    method RecordFailure(now: nat)
      modifies this
      ensures state == Step(config, old(state), Failure(now))
    {
      match state {
        case Closed(failures, total, consecutive) =>
          var f, t, k := WrapU64(failures + 1), WrapU64(total + 1), WrapU32(consecutive + 1);
          state := Closed(f, t, k);
          if config.consecutiveThreshold <= k {
            Trip(now);
            return;
          }
          if config.minRequests <= t && RateReached(config, f, t) {
            Trip(now);
          }
        case HalfOpen(_, _) => Trip(now);
        case Open(_) =>
      }
    }

    method Trip(now: nat)
      modifies this
      ensures state == Open(now + config.openDuration)
    {
      state := Open(now + config.openDuration);
    }

    method ResetToClosed()
      modifies this
      ensures state == INITIAL
    {
      state := INITIAL;
    }
  }

  /** The state after a run from the start. */
  function Run(c: Config, events: seq<Event>): State {
    if events == [] then INITIAL else Step(c, Run(c, events[..|events| - 1]), events[|events| - 1])
  }

  lemma RunAppend(c: Config, events: seq<Event>, e: Event)
    ensures Run(c, events + [e]) == Step(c, Run(c, events), e)
  {
    assert (events + [e])[..|events|] == events;
  }

  // ---------------------------------------------------------------- the state is the history

  /** The reported outcomes in order; `true` is a success. */
  function Outcomes(events: seq<Event>): seq<bool> {
    if events == [] then []
    else
      var front, e := Outcomes(events[..|events| - 1]), events[|events| - 1];
      if e.Call? then front else front + [e.Success?]
  }

  function Failures(outcomes: seq<bool>): nat {
    if outcomes == [] then 0
    else Failures(outcomes[..|outcomes| - 1]) + if outcomes[|outcomes| - 1] then 0 else 1
  }

  /** The length of the run of failures at the end. */
  function Trailing(outcomes: seq<bool>): nat {
    if outcomes == [] || outcomes[|outcomes| - 1] then 0 else 1 + Trailing(outcomes[..|outcomes| - 1])
  }

  /** What the configuration says about a sequence of outcomes since a close: it ends in the failure that opens. */
  predicate TripPoint(c: Config, outcomes: seq<bool>) {
    && outcomes != []
    && !outcomes[|outcomes| - 1]
    && (|| c.consecutiveThreshold <= Trailing(outcomes)
        || (&& c.minRequests <= WrapU64(|outcomes|)
            && RateReached(c, WrapU64(Failures(outcomes)), WrapU64(|outcomes|))))
  }

  predicate NoTripYet(c: Config, outcomes: seq<bool>) {
    forall n :: 0 <= n <= |outcomes| ==> !TripPoint(c, outcomes[..n])
  }

  /** The counters a closed breaker holds after these outcomes since it closed. */
  function Tally(outcomes: seq<bool>): State
    requires Trailing(outcomes) < TWO_32
  {
    Closed(WrapU64(Failures(outcomes)), WrapU64(|outcomes|), Trailing(outcomes))
  }

  /** The number of events up to and including the one that last closed the breaker; 0 if none did. */
  function LastClose(c: Config, events: seq<Event>): (k: nat)
    ensures k <= |events|
  {
    if events == [] then 0
    else
      var front := events[..|events| - 1];
      if Run(c, events).Closed? && !Run(c, front).Closed? then |events| else LastClose(c, front)
  }

  function SinceClose(c: Config, events: seq<Event>): seq<bool> {
    Outcomes(events[LastClose(c, events)..])
  }

  lemma OutcomesAppend(events: seq<Event>, e: Event)
    ensures Outcomes(events + [e]) == if e.Call? then Outcomes(events) else Outcomes(events) + [e.Success?]
  {
    assert (events + [e])[..|events|] == events;
  }

  lemma TrailingBelowThreshold(c: Config, outcomes: seq<bool>)
    requires !TripPoint(c, outcomes)
    ensures Trailing(outcomes) == 0 || Trailing(outcomes) < c.consecutiveThreshold
  {
  }

  /** Counting one more outcome: the counters follow, and a failure opens exactly at a trip point. */
  lemma TallyAppend(c: Config, outcomes: seq<bool>, success: bool, at: nat)
    requires !TripPoint(c, outcomes)
    ensures Trailing(outcomes) < TWO_32
    ensures var longer := outcomes + [success];
            && (success ==> Trailing(longer) == 0 && AfterSuccess(Tally(outcomes)) == Tally(longer))
            && (!success && !TripPoint(c, longer) ==>
                  Trailing(longer) < TWO_32 && AfterFailure(c, Tally(outcomes), at) == Tally(longer))
            && (!success && TripPoint(c, longer) ==>
                  AfterFailure(c, Tally(outcomes), at) == Open(at + c.openDuration))
  {
    hide RateReached, WrapU64;
    var longer := outcomes + [success];
    assert longer[..|outcomes|] == outcomes;
    TrailingBelowThreshold(c, outcomes);
    WrapU64Succ(|outcomes|);
    WrapU64Succ(Failures(outcomes));
  }

  /**
   * HISTORY. Whenever the breaker is closed, its three counters are the number of failures, the
   * number of outcomes and the length of the final run of failures since it last closed, and no
   * earlier outcome since then was a trip point.
   */
  lemma {:induction false} ClosedStateIsHistory(c: Config, events: seq<Event>)
    requires Run(c, events).Closed?
    ensures var outcomes := SinceClose(c, events);
            && NoTripYet(c, outcomes)
            && Trailing(outcomes) < TWO_32
            && Run(c, events) == Tally(outcomes)
  {
    if events == [] {
      assert SinceClose(c, events) == [];
    } else {
      var front, e := events[..|events| - 1], events[|events| - 1];
      if Run(c, front).Closed? {
        ClosedStateIsHistory(c, front);
        var k := LastClose(c, front);
        assert events[k..] == front[k..] + [e];
        OutcomesAppend(front[k..], e);
        if !e.Call? {
          var outcomes := Outcomes(front[k..]);
          assert outcomes[..|outcomes|] == outcomes;
          TallyAppend(c, outcomes, e.Success?, e.at);
          NoTripAppend(c, outcomes, e.Success?);
        }
      } else {
        assert events[|events|..] == [];
        assert SinceClose(c, events) == [];
      }
    }
  }

  lemma NoTripAppend(c: Config, outcomes: seq<bool>, success: bool)
    requires NoTripYet(c, outcomes)
    requires !TripPoint(c, outcomes + [success])
    ensures NoTripYet(c, outcomes + [success])
  {
    var longer := outcomes + [success];
    forall n | 0 <= n <= |longer| ensures !TripPoint(c, longer[..n]) {
      if n <= |outcomes| {
        assert longer[..n] == outcomes[..n];
      } else {
        assert longer[..n] == longer;
      }
    }
  }

  /**
   * OPENING. A closed breaker opens on the next event exactly when that event is a failure that
   * completes a trip point of the outcomes since the last close; together with `ClosedStateIsHistory`
   * this is the first such failure. It stays open until `open_duration` after that event.
   */
  lemma OpensExactlyAtTripPoint(c: Config, events: seq<Event>, e: Event)
    requires Run(c, events).Closed?
    ensures var next := Run(c, events + [e]);
            && (!next.Closed? <==> e.Failure? && TripPoint(c, SinceClose(c, events) + [false]))
            && (!next.Closed? ==> next == Open(e.at + c.openDuration))
  {
    assert (events + [e])[..|events|] == events;
    ClosedStateIsHistory(c, events);
    var outcomes := SinceClose(c, events);
    assert outcomes[..|outcomes|] == outcomes;
    TallyAppend(c, outcomes, e.Success?, e.at);
  }

  /** A fraction of at least `failureRate` failed. */
  predicate EnoughFailed(c: Config, failed: nat, total: nat) {
    c.failureRate * total as real <= failed as real
  }

  /** The thresholds as the configuration means them. */
  predicate ThresholdReached(c: Config, outcomes: seq<bool>) {
    || c.consecutiveThreshold <= Trailing(outcomes)
    || (c.minRequests <= |outcomes| && EnoughFailed(c, Failures(outcomes), |outcomes|))
  }

  lemma {:induction false} FailuresWithinOutcomes(outcomes: seq<bool>)
    ensures Failures(outcomes) <= |outcomes|
  {
    if outcomes != [] {
      FailuresWithinOutcomes(outcomes[..|outcomes| - 1]);
    }
  }

  lemma QuotientAtLeast(rate: real, f: nat, n: nat)
    requires 0 < n
    ensures rate <= f as real / n as real <==> rate * n as real <= f as real
  {
    var q := f as real / n as real;
    assert q * n as real == f as real;
    if rate <= q {
      assert 0.0 <= (q - rate) * n as real;
    } else {
      assert 0.0 < (rate - q) * n as real;
    }
  }

  /**
   * THRESHOLDS. As long as fewer than 2^64 outcomes were counted since the last close, a failure opens a
   * closed breaker if and only if, with it, the final run of failures reaches the consecutive threshold, or
   * there are enough outcomes and at least the configured fraction of them failed. No other event does.
   */
  lemma OpensExactlyAtThresholds(c: Config, events: seq<Event>, at: nat)
    requires Run(c, events).Closed?
    requires |SinceClose(c, events)| + 1 < TWO_64
    ensures var next := Run(c, events + [Failure(at)]);
            && (next.Open? <==> ThresholdReached(c, SinceClose(c, events) + [false]))
            && (next.Closed? <==> !ThresholdReached(c, SinceClose(c, events) + [false]))
    ensures Run(c, events + [Success(at)]).Closed? && Run(c, events + [Call(at)]) == Run(c, events)
  {
    hide Run, SinceClose, TripPoint, ThresholdReached;
    OpensExactlyAtTripPoint(c, events, Failure(at));
    OpensExactlyAtTripPoint(c, events, Success(at));
    TripPointIsThreshold(c, SinceClose(c, events) + [false]);
    RunAppend(c, events, Call(at));
  }

  lemma TripPointIsThreshold(c: Config, outcomes: seq<bool>)
    requires outcomes != [] && !outcomes[|outcomes| - 1] && |outcomes| < TWO_64
    ensures TripPoint(c, outcomes) <==> ThresholdReached(c, outcomes)
  {
    hide RateReached, Failures, Trailing;
    FailuresWithinOutcomes(outcomes);
    RateReachedIsQuotient(c, Failures(outcomes), |outcomes|);
    QuotientAtLeast(c.failureRate, Failures(outcomes), |outcomes|);
  }

  lemma RateReachedIsQuotient(c: Config, f: U64, n: U64)
    requires 0 < n
    ensures RateReached(c, f, n) <==> c.failureRate <= f as real / n as real
  {
  }

  lemma ThresholdGrows(c: Config, a: seq<bool>, b: seq<bool>)
    requires |a| == |b| && Failures(a) <= Failures(b) && Trailing(a) <= Trailing(b)
    ensures ThresholdReached(c, a + [false]) ==> ThresholdReached(c, b + [false])
  {
    hide EnoughFailed, Failures, Trailing;
    OneMoreFailure(a);
    OneMoreFailure(b);
    EnoughGrows(c, Failures(a) + 1, Failures(b) + 1, |a| + 1);
  }

  lemma OneMoreFailure(outcomes: seq<bool>)
    ensures Failures(outcomes + [false]) == Failures(outcomes) + 1
    ensures Trailing(outcomes + [false]) == Trailing(outcomes) + 1
  {
    assert (outcomes + [false])[..|outcomes|] == outcomes;
  }

  lemma EnoughGrows(c: Config, fewer: nat, more: nat, total: nat)
    requires fewer <= more
    ensures EnoughFailed(c, fewer, total) ==> EnoughFailed(c, more, total)
  {
  }

  /** When the counter of outcomes has just come round to 0, dividing by it makes any failures count as enough. */
  lemma AtTheWrap(c: Config, failures: U64, at: nat)
    requires 1 < c.consecutiveThreshold && c.minRequests == 0
    ensures Step(c, Closed(failures, TWO_64 - 1, 0), Failure(at)).Open? <==> failures + 1 < TWO_64
  {
  }

  /** Of two histories of one length, the one with at least as many failures and as long a final run opens too. */
  lemma MoreFailuresOpenToo(c: Config, fewer: seq<Event>, more: seq<Event>, at: nat)
    requires Run(c, fewer).Closed? && Run(c, more).Closed?
    requires var a, b := SinceClose(c, fewer), SinceClose(c, more);
             && |a| == |b| < TWO_64 - 1
             && Failures(a) <= Failures(b) && Trailing(a) <= Trailing(b)
    ensures Run(c, fewer + [Failure(at)]).Open? ==> Run(c, more + [Failure(at)]).Open?
  {
    hide Run, SinceClose, ThresholdReached, Failures, Trailing;
    ThresholdGrows(c, SinceClose(c, fewer), SinceClose(c, more));
    OpensExactlyAtThresholds(c, fewer, at);
    OpensExactlyAtThresholds(c, more, at);
  }

  /** One failure in ten does not open a breaker that opens at a half; five in ten do. */
  lemma HalfOfTen(at: nat)
    ensures var c := Config(0.5, 100, 30, 1, 10);
            && Step(c, Closed(0, 9, 0), Failure(at)) == Closed(1, 10, 1)
            && Step(c, Closed(4, 9, 4), Failure(at)) == Open(at + 30)
  {
  }

  // ---------------------------------------------------------------- half open

  /** Every reachable half-open state has both probe counters at zero. */
  lemma {:induction false} HalfOpenCountsNothing(c: Config, events: seq<Event>)
    requires Run(c, events).HalfOpen?
    ensures Run(c, events) == HalfOpen(0, 0)
  {
    var front := events[..|events| - 1];
    if Run(c, front).HalfOpen? {
      HalfOpenCountsNothing(c, front);
    }
  }

  predicate CallsOnly(events: seq<Event>) {
    forall e :: e in events ==> e.Call?
  }

  /** No number of calls changes a half-open breaker. */
  lemma {:induction false} CallsKeepHalfOpen(c: Config, events: seq<Event>, calls: seq<Event>)
    requires Run(c, events).HalfOpen? && CallsOnly(calls)
    ensures Run(c, events + calls) == HalfOpen(0, 0)
  {
    if calls == [] {
      assert events + calls == events;
      HalfOpenCountsNothing(c, events);
    } else {
      var front, last := calls[..|calls| - 1], calls[|calls| - 1];
      assert last in calls;
      CallsKeepHalfOpen(c, events, front);
      assert events + calls == events + front + [last];
      RunAppend(c, events + front, last);
    }
  }

  /**
   * Half open lasts exactly until the first outcome: however many calls come first, they leave it as it is;
   * then a success closes the breaker and a failure opens it.
   */
  lemma HalfOpenEndsOnFirstOutcome(c: Config, events: seq<Event>, calls: seq<Event>, outcome: Event)
    requires Run(c, events).HalfOpen? && CallsOnly(calls) && !outcome.Call?
    ensures Run(c, events + calls) == HalfOpen(0, 0)
    ensures Allows(c, Run(c, events + calls), outcome.at) <==> 1 <= c.halfOpenMax
    ensures outcome.Success? ==> Run(c, events + calls + [outcome]) == INITIAL
    ensures outcome.Failure? ==> Run(c, events + calls + [outcome]) == Open(outcome.at + c.openDuration)
  {
    CallsKeepHalfOpen(c, events, calls);
    RunAppend(c, events + calls, outcome);
  }

  // ---------------------------------------------------------------- the limit on probes

  /** How many of the events that come after a run are calls that are let through. */
  function PassedAfter(c: Config, before: seq<Event>, events: seq<Event>): nat {
    if events == [] then 0
    else
      var front, e := events[..|events| - 1], events[|events| - 1];
      PassedAfter(c, before, front) + if e.Call? && Allows(c, Run(c, before + front), e.at) then 1 else 0
  }

  /** Calls at or past the deadline of an open breaker, with no outcome among them. */
  predicate Probes(c: Config, before: seq<Event>, calls: seq<Event>) {
    && Run(c, before).Open?
    && forall e :: e in calls ==> e.Call? && Run(c, before).opensAt <= e.at
  }

  /**
   * PROBES EXACTLY. Of the calls that come past the deadline of an open breaker before the next outcome,
   * every one is let through if `half_open_requests` is positive, and exactly the first if it is 0.
   */
  lemma {:induction false} ProbesExactly(c: Config, before: seq<Event>, calls: seq<Event>)
    requires Probes(c, before, calls)
    ensures calls != [] ==> Run(c, before + calls) == HalfOpen(0, 0)
    ensures PassedAfter(c, before, calls) == if 0 < c.halfOpenMax then |calls| else Min(|calls|, 1)
  {
    if calls != [] {
      var front, last := calls[..|calls| - 1], calls[|calls| - 1];
      assert last in calls;
      ProbesExactly(c, before, front);
      assert before + calls == before + front + [last];
      RunAppend(c, before + front, last);
      assert front == [] ==> before + front == before;
    }
  }

  function FailuresAt(at: nat, n: nat): (events: seq<Event>)
    ensures |events| == n
  {
    seq(n, _ => Failure(at))
  }

  /** Every configuration can trip: failures on end open the breaker at the latest at the consecutive threshold. */
  lemma {:induction false} FailuresTrip(c: Config, n: nat)
    ensures Run(c, FailuresAt(0, n)) == Open(c.openDuration)
            || (&& Run(c, FailuresAt(0, n)).Closed? && Run(c, FailuresAt(0, n)).consecutive == n
                && (n == 0 || n < c.consecutiveThreshold))
  {
    hide RateReached;
    if n != 0 {
      FailuresTrip(c, n - 1);
      assert FailuresAt(0, n) == FailuresAt(0, n - 1) + [Failure(0)];
      RunAppend(c, FailuresAt(0, n - 1), Failure(0));
    }
  }

  /** At most `limit` probes get through between the deadline of any trip and the next outcome, in every run. */
  ghost predicate LimitsProbes(c: Config, limit: nat) {
    forall before, calls :: Probes(c, before, calls) ==> PassedAfter(c, before, calls) <= limit
  }

  /**
   * THE PROBE LIMIT, EXACTLY. The only limit on probes a breaker keeps is "at most one", or anything above,
   * and only if `half_open_requests` is 0.
   */
  lemma LimitsProbesExactly(c: Config, limit: nat)
    ensures LimitsProbes(c, limit) <==> c.halfOpenMax == 0 && 1 <= limit
  {
    hide Run, PassedAfter;
    if c.halfOpenMax == 0 && 1 <= limit {
      forall before, calls | Probes(c, before, calls) ensures PassedAfter(c, before, calls) <= limit {
        ProbesExactly(c, before, calls);
      }
    } else {
      var before := FailuresAt(0, Max(1, c.consecutiveThreshold));
      var calls := seq(limit + 1, _ => Call(c.openDuration));
      FailuresTrip(c, Max(1, c.consecutiveThreshold));
      ProbesExactly(c, before, calls);
    }
  }

  /** So "at most `half_open_requests` probes" holds for no configuration at all. */
  lemma NoConfigurationLimitsProbes(c: Config)
    ensures !LimitsProbes(c, c.halfOpenMax)
  {
    LimitsProbesExactly(c, c.halfOpenMax);
  }

  // ---------------------------------------------------------------- spacing of trips

  /** The last event of the run that opened the breaker, if it has not moved on since. */
  predicate TrippedAt(c: Config, events: seq<Event>, i: nat)
    requires i < |events|
  {
    Trips(c, events, i) && forall j :: i < j <= |events| ==> Run(c, events[..j]).Open?
  }

  lemma {:induction false} OpenSince(c: Config, events: seq<Event>) returns (i: nat)
    requires Run(c, events).Open?
    ensures i < |events| && TrippedAt(c, events, i)
    ensures Run(c, events) == Open(events[i].at + c.openDuration)
  {
    var front := events[..|events| - 1];
    assert events == front + [events[|events| - 1]];
    assert events[..|events|] == events;
    if Run(c, front).Open? {
      i := OpenSince(c, front);
      assert front[..i] == events[..i] && front[..i + 1] == events[..i + 1];
      forall j | i < j <= |events| ensures Run(c, events[..j]).Open? {
        if j <= |front| {
          assert front[..j] == events[..j];
        }
      }
    } else {
      i := |front|;
    }
  }

  lemma TrippedOnce(c: Config, events: seq<Event>, i: nat, k: nat)
    requires i < |events| && k < |events| && TrippedAt(c, events, i) && Trips(c, events, k)
    ensures k <= i
  {
    hide Run;
  }

  /**
   * REFUSED EXACTLY. After every run, a call is refused if and only if the breaker tripped less than
   * `open_duration` ago and has not moved since, or a call has moved it to half open and it allows no probes.
   */
  lemma RefusedExactly(c: Config, events: seq<Event>, at: nat)
    ensures !Allows(c, Run(c, events), at) <==>
              || (exists i :: 0 <= i < |events| && TrippedAt(c, events, i) && at < events[i].at + c.openDuration)
              || (Run(c, events) == HalfOpen(0, 0) && c.halfOpenMax == 0)
  {
    hide Run;
    assert events[..|events|] == events;
    if Run(c, events).Open? {
      var i := OpenSince(c, events);
      forall k | 0 <= k < |events| && TrippedAt(c, events, k) ensures k == i {
        TrippedOnce(c, events, k, i);
        TrippedOnce(c, events, i, k);
      }
    } else if Run(c, events).HalfOpen? {
      HalfOpenCountsNothing(c, events);
    }
  }

  predicate Monotone(events: seq<Event>) {
    forall i, j :: 0 <= i <= j < |events| ==> events[i].at <= events[j].at
  }

  /** Event `i` of the run opens the breaker. */
  predicate Trips(c: Config, events: seq<Event>, i: nat)
    requires i < |events|
  {
    !Run(c, events[..i]).Open? && Run(c, events[..i + 1]).Open?
  }

  /** Event `i` of the run is a call that is let through. */
  predicate LetsThrough(c: Config, events: seq<Event>, i: nat)
    requires i < |events|
  {
    events[i].Call? && Allows(c, Run(c, events[..i]), events[i].at)
  }

  lemma TripSetsDeadline(c: Config, events: seq<Event>, i: nat)
    requires i < |events| && Trips(c, events, i)
    ensures Run(c, events[..i + 1]) == Open(events[i].at + c.openDuration)
  {
    assert events[..i + 1][..i] == events[..i];
  }

  /** Until the deadline of a trip nothing moves the breaker: not calls, and not late outcomes. */
  lemma {:induction false} StaysOpenUntilDeadline(c: Config, events: seq<Event>, i: nat, j: nat)
    requires i < j <= |events| && Trips(c, events, i)
    requires Monotone(events)
    requires forall m :: i < m < j ==> events[m].at < events[i].at + c.openDuration
    ensures Run(c, events[..j]) == Open(events[i].at + c.openDuration)
  {
    if j == i + 1 {
      TripSetsDeadline(c, events, i);
    } else {
      StaysOpenUntilDeadline(c, events, i, j - 1);
      assert events[..j][..j - 1] == events[..j - 1];
    }
  }

  /**
   * SPACING. With a monotone clock and any interleaving of calls and late outcomes, after a trip no
   * call is let through, and no further trip happens, before `open_duration` has passed.
   */
  lemma TripsAreSpaced(c: Config, events: seq<Event>, i: nat, j: nat)
    requires Monotone(events)
    requires i < j < |events| && Trips(c, events, i)
    requires LetsThrough(c, events, j) || Trips(c, events, j)
    ensures events[i].at + c.openDuration <= events[j].at
  {
    if events[j].at < events[i].at + c.openDuration {
      StaysOpenUntilDeadline(c, events, i, j);
    }
  }
}
