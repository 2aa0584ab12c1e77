/** Whole runs of a middleware chain: every limiter and breaker behaves as it would on its own. */
module ChainRuns {
  import opened Common
  import opened RateLimit
  import opened Chains
  import TB = TokenBuckets
  import FW = FixedWindows
  import CB = CircuitBreakers

  /**
   * A request walking the chain, or the outcome of an earlier one reaching some positions of it. An outcome
   * takes the locks of a chain one after the other, and requests may come in between (`ReportInTurns`).
   */
  datatype Event =
    | Arrive(visit: Visit, readings: seq<Reading>)
    | Report(success: bool, which: set<nat>, readings: seq<Reading>)

  predicate Fits(states: seq<State>, events: seq<Event>) {
    forall e :: e in events ==> |e.readings| == |states|
  }

  function Apply(states: seq<State>, e: Event): (after: seq<State>)
    requires |e.readings| == |states|
    ensures |after| == |states|
  {
    match e
    case Arrive(visit, readings) => Walk(states, visit, readings).0
    case Report(success, which, readings) => RecordAt(states, success, which, readings)
  }

  /** The outcome reaches the given positions only. */
  function RecordAt(states: seq<State>, success: bool, which: set<nat>, readings: seq<Reading>): (after: seq<State>)
    requires |readings| == |states|
    ensures |after| == |states|
  {
    seq(|states|, i requires 0 <= i < |states| =>
      if i in which then RecordOne(states[i], success, readings[i]) else states[i])
  }

  function After(states: seq<State>, events: seq<Event>): (after: seq<State>)
    requires Fits(states, events)
    ensures |after| == |states|
  {
    if events == [] then states
    else
      var e := events[|events| - 1];
      assert e in events;
      Apply(After(states, events[..|events| - 1]), e)
  }

  /** The walk gets as far as middleware `i`. */
  predicate Reaches(states: seq<State>, e: Event, i: nat): (reached: bool)
    requires |e.readings| == |states|
    ensures reached ==> e.Arrive?
  {
    e.Arrive? && i <= Stop(states, e.visit, e.readings, 0)
  }

  predicate Passes(states: seq<State>, e: Event): (passed: bool)
    requires |e.readings| == |states|
    ensures passed ==> e.Arrive?
  {
    e.Arrive? && Walk(states, e.visit, e.readings).1 == Allowed
  }

  /** How many requests of a kind the whole chain let through. */
  function PassCount(states: seq<State>, events: seq<Event>, kind: Event -> bool): nat
    requires Fits(states, events)
  {
    if events == [] then 0
    else
      var front, e := events[..|events| - 1], events[|events| - 1];
      assert e in events;
      PassCount(states, front, kind) + if Passes(After(states, front), e) && kind(e) then 1 else 0
  }

  /**
   * SHORT CIRCUIT. A walk runs exactly the middlewares up to the first that does not allow the
   * request; the others keep their state, and the chain lets a request through exactly when
   * every middleware does.
   */
  lemma WalkRunsAPrefix(states: seq<State>, e: Event)
    requires e.Arrive? && |e.readings| == |states|
    ensures var after := Apply(states, e);
            forall i :: 0 <= i < |states| ==>
              after[i] == if Reaches(states, e, i) then CheckOne(states[i], e.visit, e.readings[i]).0 else states[i]
    ensures Passes(states, e) <==>
              forall i :: 0 <= i < |states| ==> CheckOne(states[i], e.visit, e.readings[i]).1 == Allowed
    ensures forall i :: 0 <= i < |states|
              && (exists j :: 0 <= j < i && CheckOne(states[j], e.visit, e.readings[j]).1 != Allowed)
              ==> !Reaches(states, e, i)
  {
    hide CheckOne;
  }

  /**
   * WHY IT IS REFUSED. Whoever is turned away by a chain is so by the first middleware that does not let the
   * request on: by a breaker with status 503, by a limiter with status 429 and the limiter's own headers, by a
   * check as the check says.
   */
  lemma RefusalTellsWhy(states: seq<State>, e: Event) returns (i: nat)
    requires e.Arrive? && |e.readings| == |states| && !Passes(states, e)
    ensures i < |states| && Reaches(states, e, i) && !Reaches(states, e, i + 1)
    ensures var s, r, answer := states[i], e.readings[i], Walk(states, e.visit, e.readings).1;
            && (s.Breaker? ==> !CB.Allows(s.cc, s.breaker, r.instant) && answer == Denied(503, None))
            && (s.Bucket? ==>
                  var v := TB.Step(s.bc, s.bucket, e.visit.req, r.clock.first).1;
                  && e.visit.hasHeaders && v != Verdict.Pass
                  && (v.Limited? ==> answer == Denied(429, Some(v.headers)))
                  && (v.Failed? ==> answer == CheckResult.Failed) && (v.Panic? ==> answer == Panicked))
            && (s.Window? ==>
                  var v := FW.Step(s.wc, s.counts, e.visit.req, r.clock, r.victim).1;
                  && e.visit.hasHeaders && v != Verdict.Pass
                  && (v.Limited? ==> answer == Denied(429, Some(v.headers)))
                  && (v.Failed? ==> answer == CheckResult.Failed) && (v.Panic? ==> answer == Panicked))
            && (s.Stateless? ==> answer == s.check(e.visit))
            && !s.Passive?
  {
    hide TB.Step, FW.Step, CB.Step;
    i := Stop(states, e.visit, e.readings, 0);
  }

  /** Limiters stand aside for a request without headers, and so does whatever has no say. */
  lemma LimitersNeedHeaders(states: seq<State>, e: Event)
    requires e.Arrive? && |e.readings| == |states| && !e.visit.hasHeaders
    requires forall i :: 0 <= i < |states| ==> states[i].Bucket? || states[i].Window? || states[i].Passive?
    ensures Passes(states, e) && Apply(states, e) == states
  {
    WalkRunsAPrefix(states, e);
  }

  /** What happens at position `i` in one event. */
  lemma AtPosition(states: seq<State>, e: Event, i: nat)
    requires |e.readings| == |states| && i < |states|
    ensures Apply(states, e)[i] ==
              if e.Report? then if i in e.which then RecordOne(states[i], e.success, e.readings[i]) else states[i]
              else if Reaches(states, e, i) then CheckOne(states[i], e.visit, e.readings[i]).0
              else states[i]
    ensures Passes(states, e) ==> Reaches(states, e, i) && CheckOne(states[i], e.visit, e.readings[i]).1 == Allowed
  {
    hide CheckOne, RecordOne;
  }

  /** The same outcome at one position after the other, from the first on. */
  function InTurns(success: bool, readings: seq<Reading>, n: nat): (events: seq<Event>)
    ensures |events| == n
    ensures forall e :: e in events ==> e.readings == readings
  {
    seq(n, i requires 0 <= i < n => Report(success, {i}, readings))
  }

  /** Recording an outcome breaker by breaker, with nothing in between, is recording it in the whole chain. */
  lemma {:induction false} ReportInTurns(states: seq<State>, success: bool, readings: seq<Reading>, n: nat)
    requires |readings| == |states| && n <= |states|
    ensures Fits(states, InTurns(success, readings, n))
    ensures var after := After(states, InTurns(success, readings, n));
            forall i :: 0 <= i < |states| ==>
              after[i] == if i < n then Record(states, success, readings)[i] else states[i]
    ensures n == |states| ==> After(states, InTurns(success, readings, n)) == Record(states, success, readings)
  {
    hide RecordOne;
    if n != 0 {
      ReportInTurns(states, success, readings, n - 1);
      assert InTurns(success, readings, n)[..n - 1] == InTurns(success, readings, n - 1);
    }
  }

  lemma EmptyRuns(c: TB.Config, b: TB.Bucket)
    ensures TB.Replay(c, b, []) == TB.Ledger(b, 0, 0, 0, 0)
  {
  }

  lemma EmptyWindowRuns(c: FW.Config, w: nat)
    ensures FW.PossibleRun(c, []) && FW.Replay(c, [], w) == FW.Ledger(map[], 0, 0, 0, 0, 0)
  {
  }

  lemma EmptyBreakerRuns(c: CB.Config)
    ensures CB.Run(c, []) == CB.INITIAL
  {
  }

  // ---------------------------------------------------------------- token buckets

  /** The requests that token bucket `i` got to see. */
  function BucketArrivals(states: seq<State>, events: seq<Event>, i: nat): seq<TB.Arrival>
    requires Fits(states, events)
  {
    if events == [] then []
    else
      var front, e := events[..|events| - 1], events[|events| - 1];
      assert e in events;
      BucketArrivals(states, front, i) +
        if i < |states| && Reaches(After(states, front), e, i) && e.visit.hasHeaders
        then [TB.Arrival(e.visit.req, e.readings[i].clock.first)] else []
  }

  /** The requests a limiter of this scope gets to count. */
  function InScope(scope: LimitLocation): Event -> bool {
    (e: Event) => e.Arrive? && e.visit.hasHeaders && Matched(scope, e.visit.req).Matches?
  }

  /** Bucket `i` goes through exactly its own run on the requests that reach it. */
  lemma {:induction false} BucketRunsAlone(states: seq<State>, events: seq<Event>, i: nat)
    requires Fits(states, events) && i < |states| && states[i].Bucket?
    ensures var s, own := states[i], BucketArrivals(states, events, i);
            && After(states, events)[i] == Bucket(s.bc, TB.Replay(s.bc, s.bucket, own).bucket)
            && PassCount(states, events, InScope(s.bc.scope)) <= TB.Replay(s.bc, s.bucket, own).admitted
  {
    hide TB.Step, TB.Replay, Matched, Reaches, Passes, Apply;
    if events == [] {
      EmptyRuns(states[i].bc, states[i].bucket);
    } else {
      var front, e := events[..|events| - 1], events[|events| - 1];
      assert e in events;
      BucketRunsAlone(states, front, i);
      AtPosition(After(states, front), e, i);
      if Reaches(After(states, front), e, i) && e.visit.hasHeaders {
        TB.ReplayAppend(states[i].bc, states[i].bucket, BucketArrivals(states, front, i),
                     TB.Arrival(e.visit.req, e.readings[i].clock.first));
      } else {
        assert BucketArrivals(states, front, i) + [] == BucketArrivals(states, front, i);
      }
    }
  }

  /** Every clock a bucket reads at position `i` shows at most `until`. */
  predicate ReadBy(events: seq<Event>, i: nat, until: SystemTime) {
    forall e :: e in events && i < |e.readings| ==> e.readings[i].clock.first <= until
  }

  lemma {:induction false} ArrivalsReadBy(states: seq<State>, events: seq<Event>, i: nat, until: SystemTime)
    requires Fits(states, events) && ReadBy(events, i, until)
    ensures forall a :: a in BucketArrivals(states, events, i) ==> a.now <= until
  {
    hide Reaches;
    if events != [] {
      assert events[|events| - 1] in events;
      ArrivalsReadBy(states, events[..|events| - 1], i, until);
    }
  }

  /**
   * THE CHAIN INHERITS EVERY BUCKET'S BOUND. Whatever else is in the chain and whatever outcomes come
   * back in between, the requests in a bucket's scope that the whole chain lets through by `until`
   * stay within that bucket's allowance.
   */
  lemma ChainWithinEveryBucket(states: seq<State>, events: seq<Event>, i: nat, until: SystemTime)
    requires Fits(states, events) && ReadBy(events, i, until)
    requires i < |states| && states[i].Bucket? && 1 <= states[i].bc.rate
    ensures PassCount(states, events, InScope(states[i].bc.scope)) <= TB.Bound(states[i].bc, states[i].bucket, until)
  {
    hide TB.Bound, TB.Replay;
    var s := states[i];
    BucketRunsAlone(states, events, i);
    ArrivalsReadBy(states, events, i, until);
    TB.AdmissionsWithinRate(s.bc, s.bucket, BucketArrivals(states, events, i), until);
  }

  // ---------------------------------------------------------------- fixed windows

  /** The requests that fixed window `i` got to see. */
  function WindowArrivals(states: seq<State>, events: seq<Event>, i: nat): seq<FW.Arrival>
    requires Fits(states, events)
  {
    if events == [] then []
    else
      var front, e := events[..|events| - 1], events[|events| - 1];
      assert e in events;
      WindowArrivals(states, front, i) +
        if i < |states| && Reaches(After(states, front), e, i) && e.visit.hasHeaders
        then [FW.Arrival(e.visit.req, e.readings[i].clock, e.readings[i].victim)] else []
  }

  /** The requests that fall in window `w` of the limiter at position `i`. */
  function InWindowOf(c: FW.Config, i: nat, w: nat): Event -> bool {
    (e: Event) =>
      && e.Arrive? && i < |e.readings| && e.visit.hasHeaders
      && FW.InWindow(c, FW.Arrival(e.visit.req, e.readings[i].clock, e.readings[i].victim), w)
  }

  /** Whenever the walk reaches window limiter `i` with a full map, the entry it evicts is there. */
  predicate PossibleEvents(states: seq<State>, events: seq<Event>, i: nat)
    requires Fits(states, events)
  {
    forall n :: 0 <= n < |events| ==> EvictableAt(states, events, i, n)
  }

  predicate EvictableAt(states: seq<State>, events: seq<Event>, i: nat, n: nat)
    requires Fits(states, events) && n < |events|
  {
    var before, e := After(states, events[..n]), events[n];
    assert e in events;
    i < |states| && before[i].Window? && Reaches(before, e, i) && e.visit.hasHeaders ==>
      FW.VictimExists(before[i].counts, e.readings[i].victim)
  }

  lemma PossibleFront(states: seq<State>, events: seq<Event>, i: nat)
    requires Fits(states, events) && events != [] && PossibleEvents(states, events, i)
    ensures PossibleEvents(states, events[..|events| - 1], i)
  {
    var front := events[..|events| - 1];
    forall n | 0 <= n < |front| ensures EvictableAt(states, front, i, n) {
      assert front[..n] == events[..n];
      assert EvictableAt(states, events, i, n);
    }
  }

  /** Window limiter `i`, starting empty, goes through exactly its own run on the requests that reach it. */
  lemma {:induction false} WindowRunsAlone(states: seq<State>, events: seq<Event>, i: nat, w: nat)
    requires Fits(states, events) && PossibleEvents(states, events, i)
    requires i < |states| && states[i].Window? && states[i].counts == map[]
    ensures var c, own := states[i].wc, WindowArrivals(states, events, i);
            && FW.PossibleRun(c, own)
            && After(states, events)[i] == Window(c, FW.Replay(c, own, w).counts)
            && PassCount(states, events, InWindowOf(c, i, w)) <= FW.Replay(c, own, w).admitted
  {
    hide FW.Step, FW.Replay, FW.PossibleRun, FW.VictimExists, FW.InWindow, Reaches, Passes, Apply;
    var c := states[i].wc;
    if events == [] {
      EmptyWindowRuns(c, w);
    } else {
      var front, e := events[..|events| - 1], events[|events| - 1];
      assert e in events;
      PossibleFront(states, events, i);
      WindowRunsAlone(states, front, i, w);
      AtPosition(After(states, front), e, i);
      if Reaches(After(states, front), e, i) && e.visit.hasHeaders {
        var own := WindowArrivals(states, front, i);
        var a := FW.Arrival(e.visit.req, e.readings[i].clock, e.readings[i].victim);
        FW.CountsAgree(c, own, w, 0);
        assert EvictableAt(states, events, i, |front|);
        FW.PossibleAppend(c, own, a);
        FW.ReplayAppend(c, own, a, w);
      } else {
        assert WindowArrivals(states, front, i) + [] == WindowArrivals(states, front, i);
      }
    }
  }

  /** The chain also stays within every fixed window's bound, eviction term included. */
  lemma ChainWithinEveryWindow(states: seq<State>, events: seq<Event>, i: nat, w: nat)
    requires Fits(states, events) && PossibleEvents(states, events, i)
    requires i < |states| && states[i].Window? && states[i].counts == map[] && 0 <= states[i].wc.rate
    requires FW.Replay(states[i].wc, WindowArrivals(states, events, i), w).seen <= TWO_31 + states[i].wc.rate
    ensures PassCount(states, events, InWindowOf(states[i].wc, i, w))
         <= states[i].wc.rate * (1 + FW.Replay(states[i].wc, WindowArrivals(states, events, i), w).evictions)
  {
    hide FW.Replay;
    WindowRunsAlone(states, events, i, w);
    FW.AdmissionsPerWindow(states[i].wc, WindowArrivals(states, events, i), w);
  }

  // ---------------------------------------------------------------- breakers

  /** The calls that reached breaker `i` and the outcomes reported to it. */
  function BreakerEvents(states: seq<State>, events: seq<Event>, i: nat): seq<CB.Event>
    requires Fits(states, events)
  {
    if events == [] then []
    else
      var front, e := events[..|events| - 1], events[|events| - 1];
      assert e in events;
      BreakerEvents(states, front, i) +
        if |states| <= i || (e.Report? && i !in e.which) then []
        else if e.Report? then
          [if e.success then CB.Success(e.readings[i].instant) else CB.Failure(e.readings[i].instant)]
        else if Reaches(After(states, front), e, i) then [CB.Call(e.readings[i].instant)]
        else []
  }

  /** Breaker `i`, starting closed, is in the state its own calls and outcomes lead to. */
  lemma {:induction false} BreakerRunsAlone(states: seq<State>, events: seq<Event>, i: nat)
    requires Fits(states, events) && i < |states| && states[i].Breaker? && states[i].breaker == CB.INITIAL
    ensures After(states, events)[i] == Breaker(states[i].cc, CB.Run(states[i].cc, BreakerEvents(states, events, i)))
  {
    hide CB.Step, CB.Run, Reaches, Apply;
    var c := states[i].cc;
    if events == [] {
      EmptyBreakerRuns(c);
    } else {
      var front, e := events[..|events| - 1], events[|events| - 1];
      assert e in events;
      BreakerRunsAlone(states, front, i);
      AtPosition(After(states, front), e, i);
      var own := BreakerEvents(states, front, i);
      CB.RunAppend(c, own, CB.Call(e.readings[i].instant));
      CB.RunAppend(c, own, CB.Success(e.readings[i].instant));
      CB.RunAppend(c, own, CB.Failure(e.readings[i].instant));
      assert own + [] == own;
    }
  }

  /** A request passes the chain only if every breaker in it allows a call at that instant. */
  lemma PassedMeansBreakersAllow(states: seq<State>, e: Event, i: nat)
    requires |e.readings| == |states| && i < |states| && states[i].Breaker?
    requires Passes(states, e)
    ensures CB.Allows(states[i].cc, states[i].breaker, e.readings[i].instant)
  {
    AtPosition(states, e, i);
  }

  /** The event leaves breaker `i` as it is, and a call is refused. */
  ghost predicate Inert(s: State, e: Event, i: nat)
    requires i < |e.readings|
  {
    if e.Report? then i in e.which ==> RecordOne(s, e.success, e.readings[i]) == s
    else CheckOne(s, e.visit, e.readings[i]) == (s, BreakerResult(false))
  }

  /** As long as a breaker is inert it stays as it is and nothing passes the chain. */
  lemma {:induction false} InertBreakerBlocksChain(states: seq<State>, events: seq<Event>, i: nat)
    requires Fits(states, events) && i < |states|
    requires forall e :: e in events ==> Inert(states[i], e, i)
    ensures After(states, events)[i] == states[i]
    ensures forall n :: 0 <= n < |events| ==> events[n] in events && !Passes(After(states, events[..n]), events[n])
  {
    hide Reaches, Passes, Apply, RecordOne, CheckOne;
    if events != [] {
      var front, e := events[..|events| - 1], events[|events| - 1];
      assert e in events;
      InertBreakerBlocksChain(states, front, i);
      AtPosition(After(states, front), e, i);
      forall n | 0 <= n < |events| ensures events[n] in events && !Passes(After(states, events[..n]), events[n]) {
        if n < |front| {
          assert front[..n] == events[..n];
        } else {
          assert events[..n] == front;
        }
      }
    }
  }

  /**
   * AN OPEN BREAKER CLOSES THE CHAIN. From the moment some breaker of the chain is open, no request
   * passes the chain in any run before that breaker's deadline, and no late outcome opens it earlier.
   */
  lemma OpenBreakerBlocksChain(states: seq<State>, events: seq<Event>, i: nat)
    requires Fits(states, events)
    requires i < |states| && states[i].Breaker? && states[i].breaker.Open?
    requires forall e :: e in events ==> e.readings[i].instant < states[i].breaker.opensAt
    ensures After(states, events)[i] == states[i]
    ensures forall n :: 0 <= n < |events| ==> events[n] in events && !Passes(After(states, events[..n]), events[n])
  {
    hide Passes, After;
    InertBreakerBlocksChain(states, events, i);
  }
}
