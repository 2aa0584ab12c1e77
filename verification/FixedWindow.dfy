/** `FixedWindowRateLimit::should_limit`: a small map of per-window counters with arbitrary eviction. */
module FixedWindows {
  import opened Common
  import opened RateLimit

  const MAP_SIZE := 3

  datatype Config = Config(rate: I32, unit: TimeUnit, scope: LimitLocation)

  /**
   * The counters by window number. The source's key is the location text, a colon and the decimal
   * window number; the location of a limiter never changes, so the number alone identifies it.
   */
  type Counts = map<nat, I32>

  /** The three readings of the clock one call can make. */
  datatype Clock = Clock(first: SystemTime, second: SystemTime, third: SystemTime)

  /** `as_millis() as u64` of a time at or after the epoch. */
  function EpochMillis(t: SystemTime): U64
    requires 0 <= t
  {
    WrapU64(WholeMillis(t))
  }

  function WindowStart(unit: TimeUnit, t: SystemTime): U64
    requires 0 <= t
  {
    EpochMillis(t) / unit.Millis() * unit.Millis()
  }

  function TimeKey(unit: TimeUnit, t: SystemTime): nat
    requires 0 <= t
  {
    if unit.MillionSecond? then WindowStart(unit, t) else WindowStart(unit, t) / unit.Millis()
  }

  /** The key is the number of the window the time falls in, for every unit. */
  lemma TimeKeyIsWindowNumber(unit: TimeUnit, t: SystemTime)
    requires 0 <= t
    ensures var k := TimeKey(unit, t); k * unit.Millis() <= EpochMillis(t) < (k + 1) * unit.Millis()
  {
    var m, u := EpochMillis(t), unit.Millis();
    assert m == u * (m / u) + m % u;
    assert m / u * u / u == m / u by {
      DivLower(m / u * u, u, m / u);
      Distribute(u, m / u, 1);
      DivUpper(m / u * u, u, m / u);
    }
  }

  /** The headers are computed from two further clock readings, after the request was counted. */
  function Denial(c: Config, clock: Clock): (v: Verdict)
    ensures !v.Pass?
  {
    if clock.second < 0 || clock.third < 0 then Failed
    else
      var reset := WrapU64(WindowStart(c.unit, clock.second) + c.unit.Millis()) / 1000;
      var left := reset - clock.third / NANOS_PER_SECOND;
      Limited(LimitHeaders(WrapU64(c.rate), reset, Max(Max(left, 0), 1)))
  }

  /** The window of a number begins at that multiple of the window size. */
  lemma WindowStartIsMultiple(unit: TimeUnit, t: SystemTime)
    requires 0 <= t
    ensures WindowStart(unit, t) == TimeKey(unit, t) * unit.Millis()
  {
    var m, u := EpochMillis(t), unit.Millis();
    DivLower(m / u * u, u, m / u);
    Distribute(u, m / u, 1);
    DivUpper(m / u * u, u, m / u);
  }

  /** Windows come in the order of time. */
  lemma LaterTimeLaterWindow(unit: TimeUnit, t: SystemTime, later: SystemTime)
    requires 0 <= t <= later && WholeMillis(later) < TWO_64
    ensures TimeKey(unit, t) <= TimeKey(unit, later)
  {
    hide TimeKey;
    var u, k, k' := unit.Millis(), TimeKey(unit, t), TimeKey(unit, later);
    TimeKeyIsWindowNumber(unit, t);
    TimeKeyIsWindowNumber(unit, later);
    DivMonotone(t, later, NANOS_PER_MILLI);
    MulCancel(k, k' + 1, u);
  }

  /**
   * RETRY-AFTER SUFFICES. However much time passes between counting a request and the two later readings
   * the headers are made of, a client that waits the advertised number of seconds from the last of them
   * finds a later window than the one it was counted in and the one the headers describe, for every unit
   * (as long as milliseconds since the epoch fit 64 bits).
   */
  lemma RetryAfterLeavesWindow(c: Config, clock: Clock, later: SystemTime)
    requires 0 <= clock.first <= clock.second <= clock.third <= later
    requires WholeMillis(later) + c.unit.Millis() < TWO_64
    requires Denial(c, clock).Limited?
    requires later == clock.third + Denial(c, clock).headers.retryAfter * NANOS_PER_SECOND
    ensures TimeKey(c.unit, clock.first) <= TimeKey(c.unit, clock.second) < TimeKey(c.unit, later)
  {
    hide TimeKey, Denial;
    var u, k := c.unit.Millis(), TimeKey(c.unit, clock.second);
    DivMonotone(clock.second, clock.third, NANOS_PER_MILLI);
    DivMonotone(clock.third, later, NANOS_PER_MILLI);
    LaterTimeLaterWindow(c.unit, clock.first, clock.second);
    TimeKeyIsWindowNumber(c.unit, later);
    WaitReachesEnd(c, clock, later);
    MulCancel(k + 1, TimeKey(c.unit, later) + 1, u);
  }

  /** Waiting as told gets to the end of the window the headers describe. */
  lemma WaitReachesEnd(c: Config, clock: Clock, later: SystemTime)
    requires 0 <= clock.second <= clock.third && WholeMillis(clock.third) + c.unit.Millis() < TWO_64
    requires Denial(c, clock).Limited?
    requires later == clock.third + Denial(c, clock).headers.retryAfter * NANOS_PER_SECOND
    ensures (TimeKey(c.unit, clock.second) + 1) * c.unit.Millis() <= WholeMillis(later)
  {
    hide TimeKey, WindowStart;
    var u, k := c.unit.Millis(), TimeKey(c.unit, clock.second);
    var wait := Denial(c, clock).headers.retryAfter;
    TimeKeyIsWindowNumber(c.unit, clock.second);
    WindowStartIsMultiple(c.unit, clock.second);
    Distribute(u, k, 1);
    assert WholeMillis(later) == WholeMillis(clock.third) + 1000 * wait;
    DivMonotone(clock.second, clock.third, NANOS_PER_MILLI);
    if c.unit != MillionSecond {
      var end := k * u + u;
      WindowsEndOnSeconds(c.unit, k);
      assert wait >= end / 1000 - clock.third / NANOS_PER_SECOND;
      assert WholeMillis(clock.third) >= 1000 * (clock.third / NANOS_PER_SECOND);
    }
  }

  /**
   * THE 429 ANSWER. For units of a second and more a denied client is told the rate as limit, the end of the
   * window as reset, and to wait at least a second, but not a whole second longer than to that end.
   */
  lemma DenialTells(c: Config, clock: Clock)
    requires 0 <= c.rate && c.unit != MillionSecond
    requires 0 <= clock.second <= clock.third && WholeMillis(clock.third) + 86_400_000 < TWO_64
    ensures Denial(c, clock).Limited?
    ensures var h := Denial(c, clock).headers;
            && h.limit == c.rate && 1 <= h.retryAfter
            && h.reset * 1000 == (TimeKey(c.unit, clock.second) + 1) * c.unit.Millis()
            && (1 < h.retryAfter ==> clock.third + (h.retryAfter - 1) * NANOS_PER_SECOND < h.reset * NANOS_PER_SECOND)
            && h.reset * NANOS_PER_SECOND <= clock.third + h.retryAfter * NANOS_PER_SECOND
  {
    hide TimeKey, WindowStart;
    var u, k := c.unit.Millis(), TimeKey(c.unit, clock.second);
    TimeKeyIsWindowNumber(c.unit, clock.second);
    WindowStartIsMultiple(c.unit, clock.second);
    Distribute(u, k, 1);
    DivMonotone(clock.second, clock.third, NANOS_PER_MILLI);
    WindowsEndOnSeconds(c.unit, k);
  }

  /** It is an error instead exactly when the clock has gone back to before the epoch meanwhile. */
  lemma DenialFailsExactly(c: Config, clock: Clock)
    ensures Denial(c, clock) == Failed <==> clock.second < 0 || clock.third < 0
  {
  }

  lemma WindowsEndOnSeconds(unit: TimeUnit, k: nat)
    requires unit != MillionSecond
    ensures (k * unit.Millis() + unit.Millis()) % 1000 == 0
  {
    match unit
    case Second => assert k * 1000 + 1000 == (k + 1) * 1000;
    case Minute => assert k * 60_000 + 60_000 == (60 * (k + 1)) * 1000;
    case Hour => assert k * 3_600_000 + 3_600_000 == (3600 * (k + 1)) * 1000;
    case Day => assert k * 86_400_000 + 86_400_000 == (86_400 * (k + 1)) * 1000;
  }

  /** A full map loses the entry that iteration happens to yield first, even the current window's. */
  function Evict(counts: Counts, victim: nat): Counts {
    if MAP_SIZE <= |counts| then counts - {victim} else counts
  }

  /** `entry(key).or_insert(0)` followed by `+= 1`. */
  function Bump(counts: Counts, key: nat): Counts {
    var counter: int := if key in counts then counts[key] else 0;
    counts[key := WrapI32(counter + 1)]
  }

  function Answer(c: Config, counter: I32, clock: Clock): Verdict {
    if 0 <= WrapI32(c.rate - counter) then Pass else Denial(c, clock)
  }

  /** Whether a request reaches the counters at all. */
  predicate Counted(c: Config, req: Request, clock: Clock) {
    Matched(c.scope, req).Matches? && 0 <= clock.first
  }

  predicate VictimExists(counts: Counts, victim: nat) {
    MAP_SIZE <= |counts| ==> victim in counts
  }

  function Step(c: Config, counts: Counts, req: Request, clock: Clock, victim: nat): (Counts, Verdict) {
    match Matched(c.scope, req)
    case MatchError => (counts, Failed)
    case Differs => (counts, Pass)
    case Matches =>
      if clock.first < 0 then (counts, Failed)
      else
        var key := TimeKey(c.unit, clock.first);
        var bumped := Bump(Evict(counts, victim), key);
        (bumped, Answer(c, bumped[key], clock))
  }

  class FixedWindowRateLimit {
    const config: Config
    var countMap: Counts

    constructor (config: Config)
      ensures this.config == config && countMap == map[]
    {
      this.config := config;
      countMap := map[];
    }

    method ShouldLimit(req: Request, clock: Clock, victim: nat) returns (v: Verdict)
      requires VictimExists(countMap, victim)
      modifies this
      ensures (countMap, v) == Step(config, old(countMap), req, clock, victim)
    {
      hide TimeKey, Denial, WrapI32, Matched;
      var answer := Matched(config.scope, req);
      if answer.MatchError? {
        return Failed;
      }
      if answer.Differs? {
        return Pass;
      }
      if clock.first < 0 {
        return Failed;
      }
      var key := TimeKey(config.unit, clock.first);
      if MAP_SIZE <= |countMap| {
        countMap := countMap - {victim};
      }
      countMap := Bump(countMap, key);
      var remaining := WrapI32(config.rate - countMap[key]);
      if 0 <= remaining {
        v := Pass;
      } else {
        v := Denial(config, clock);
      }
    }
  }

  // ---------------------------------------------------------------- whole runs

  datatype Arrival = Arrival(req: Request, clock: Clock, victim: nat)

  /**
   * The history of one window `w`: `seen` requests were counted in it, `live` of them are in the
   * counter now, `lost` went with `evictions` of its entry, `admitted` were let through.
   */
  datatype Ledger = Ledger(counts: Counts, seen: nat, live: nat, lost: nat, evictions: nat, admitted: nat)

  predicate InWindow(c: Config, a: Arrival, w: nat) {
    Counted(c, a.req, a.clock) && TimeKey(c.unit, a.clock.first) == w
  }

  predicate Evicts(c: Config, counts: Counts, a: Arrival, w: nat) {
    Counted(c, a.req, a.clock) && MAP_SIZE <= |counts| && a.victim == w
  }

  function Advance(c: Config, l: Ledger, a: Arrival, w: nat): Ledger {
    var evicts, hit := Evicts(c, l.counts, a, w), InWindow(c, a, w);
    var (counts, verdict) := Step(c, l.counts, a.req, a.clock, a.victim);
    Ledger(counts,
           l.seen + if hit then 1 else 0,
           (if evicts then 0 else l.live) + if hit then 1 else 0,
           l.lost + if evicts then l.live else 0,
           l.evictions + if evicts then 1 else 0,
           l.admitted + if hit && verdict.Pass? then 1 else 0)
  }

  function Replay(c: Config, run: seq<Arrival>, w: nat): Ledger {
    if run == [] then Ledger(map[], 0, 0, 0, 0, 0)
    else Advance(c, Replay(c, run[..|run| - 1], w), run[|run| - 1], w)
  }

  /** Every eviction of the run removes an entry that is there; which one is left open. */
  predicate PossibleRun(c: Config, run: seq<Arrival>) {
    forall n :: 0 <= n < |run| ==> VictimExists(Replay(c, run[..n], 0).counts, run[n].victim)
  }

  lemma PossiblePrefix(c: Config, run: seq<Arrival>)
    requires run != [] && PossibleRun(c, run)
    ensures PossibleRun(c, run[..|run| - 1])
  {
    var front := run[..|run| - 1];
    forall n | 0 <= n < |front| ensures VictimExists(Replay(c, front[..n], 0).counts, front[n].victim) {
      assert front[..n] == run[..n];
    }
  }

  lemma ReplayAppend(c: Config, run: seq<Arrival>, a: Arrival, w: nat)
    ensures Replay(c, run + [a], w) == Advance(c, Replay(c, run, w), a, w)
  {
    hide Advance;
    assert (run + [a])[..|run|] == run;
  }

  lemma PossibleAppend(c: Config, run: seq<Arrival>, a: Arrival)
    requires PossibleRun(c, run) && VictimExists(Replay(c, run, 0).counts, a.victim)
    ensures PossibleRun(c, run + [a])
  {
    hide Replay, VictimExists;
    var longer := run + [a];
    forall n | 0 <= n < |longer| ensures VictimExists(Replay(c, longer[..n], 0).counts, longer[n].victim) {
      assert longer[..n] == run[..n];
      assert run[..|run|] == run;
    }
  }

  /** The counters do not depend on which window the ledger watches. */
  lemma {:induction false} CountsAgree(c: Config, run: seq<Arrival>, w: nat, w': nat)
    ensures Replay(c, run, w).counts == Replay(c, run, w').counts
  {
    if run != [] {
      CountsAgree(c, run[..|run| - 1], w, w');
    }
  }

  /** The `n`-th request counted in an entry passes; the entry's counter has wrapped by then, or not. */
  predicate NthPasses(rate: I32, n: nat) {
    0 <= WrapI32(rate - WrapI32(n))
  }

  /** With a non-negative rate the first `2^31 + rate` requests of an entry see the plain comparison. */
  lemma NthPassesExactly(rate: I32, n: nat)
    requires 0 <= rate && 1 <= n <= TWO_31 + rate + 1
    ensures NthPasses(rate, n) <==> n <= rate || n == TWO_31 + rate + 1
  {
    assert WrapI32(n) == if n < TWO_31 then n else n - TWO_32;
  }

  predicate Consistent(l: Ledger, w: nat) {
    && |l.counts| <= MAP_SIZE
    && l.live + l.lost == l.seen
    && (w in l.counts <==> l.live != 0)
    && (w in l.counts ==> l.counts[w] == WrapI32(l.live))
  }

  /**
   * MAP INVARIANT AND CONSERVATION. Over every run and every eviction choice the map has at most
   * three entries, and what is in a window's counter plus what its evictions lost is exactly the
   * number of requests counted in that window (the counter itself holds it modulo 2^32).
   */
  lemma {:induction false} CountersConserved(c: Config, run: seq<Arrival>, w: nat)
    requires PossibleRun(c, run)
    ensures Consistent(Replay(c, run, w), w)
  {
    if run != [] {
      var n := |run| - 1;
      PossiblePrefix(c, run);
      CountersConserved(c, run[..n], w);
      assert VictimExists(Replay(c, run[..n], 0).counts, run[n].victim);
      CountsAgree(c, run[..n], w, 0);
      AdvanceConsistent(c, Replay(c, run[..n], w), run[n], w);
    }
  }

  /** One counted request, on the level of keys: `live` is the true count behind `w`'s entry. */
  lemma BumpTracks(counts: Counts, key: nat, victim: nat, w: nat, live: nat)
    requires |counts| <= MAP_SIZE && VictimExists(counts, victim)
    requires (w in counts <==> live != 0) && (w in counts ==> counts[w] == WrapI32(live))
    ensures var bumped := Bump(Evict(counts, victim), key);
            var live' := (if MAP_SIZE <= |counts| && victim == w then 0 else live) + (if key == w then 1 else 0);
            && |bumped| <= MAP_SIZE
            && (w in bumped <==> live' != 0)
            && (w in bumped ==> bumped[w] == WrapI32(live'))
  {
    var left := Evict(counts, victim);
    var bumped := Bump(left, key);
    if MAP_SIZE <= |counts| {
      assert left.Keys == counts.Keys - {victim};
      assert |left| == |left.Keys| && |counts| == |counts.Keys|;
    }
    assert bumped.Keys == left.Keys + {key};
    assert |bumped| == |bumped.Keys| && |left| == |left.Keys|;
    WrapI32Add(live, 1);
  }

  lemma AdvanceConsistent(c: Config, l: Ledger, a: Arrival, w: nat)
    requires Consistent(l, w) && VictimExists(l.counts, a.victim)
    ensures Consistent(Advance(c, l, a, w), w)
    ensures InWindow(c, a, w) ==>
              (Step(c, l.counts, a.req, a.clock, a.victim).1.Pass? <==> NthPasses(c.rate, Advance(c, l, a, w).live))
  {
    if Counted(c, a.req, a.clock) {
      BumpTracks(l.counts, TimeKey(c.unit, a.clock.first), a.victim, w, l.live);
    }
  }

  /** The arrivals that reach the counters, in order. */
  function InScope(c: Config, run: seq<Arrival>): seq<Arrival> {
    if run == [] then []
    else
      var last := run[|run| - 1];
      InScope(c, run[..|run| - 1]) + if Counted(c, last.req, last.clock) then [last] else []
  }

  /**
   * ONLY THE SCOPE COUNTS. Requests outside the scope of a limit pass and leave no trace, and so do those that
   * meet a clock before the epoch or an unreadable header, which are errors.
   */
  lemma {:induction false} OnlyScopeCounts(c: Config, run: seq<Arrival>, w: nat, other: Arrival)
    ensures Replay(c, run, w) == Replay(c, InScope(c, run), w)
    ensures var verdict := Step(c, Replay(c, run, w).counts, other.req, other.clock, other.victim).1;
            && (Matched(c.scope, other.req).Differs? ==> verdict == Pass)
            && (Matched(c.scope, other.req).MatchError? ==> verdict == Failed)
            && (Matched(c.scope, other.req).Matches? && other.clock.first < 0 ==> verdict == Failed)
    ensures !Counted(c, other.req, other.clock) ==> Replay(c, run + [other], w) == Replay(c, run, w)
  {
    hide Matched, Step, Advance, Counted;
    ReplayAppend(c, run, other, w);
    OutsideLeavesNoTrace(c, Replay(c, run, w), other, w);
    if run != [] {
      var front, last := run[..|run| - 1], run[|run| - 1];
      OnlyScopeCounts(c, front, w, other);
      OutsideLeavesNoTrace(c, Replay(c, front, w), last, w);
      if Counted(c, last.req, last.clock) {
        ReplayAppend(c, InScope(c, front), last, w);
      } else {
        assert InScope(c, run) == InScope(c, front);
      }
    }
  }

  lemma OutsideLeavesNoTrace(c: Config, l: Ledger, a: Arrival, w: nat)
    ensures !Counted(c, a.req, a.clock) ==> Advance(c, l, a, w) == l
    ensures var verdict := Step(c, l.counts, a.req, a.clock, a.victim).1;
            && (Matched(c.scope, a.req).Differs? ==> verdict == Pass)
            && (Matched(c.scope, a.req).MatchError? ==> verdict == Failed)
            && (Matched(c.scope, a.req).Matches? && a.clock.first < 0 ==> verdict == Failed)
  {
    hide TimeKey, Denial, WrapI32;
  }

  /** The bound for one entry lifetime on top of `evictions` earlier ones. */
  predicate WithinRate(c: Config, l: Ledger) {
    l.admitted <= c.rate * l.evictions + Min(c.rate, l.live)
  }

  lemma AdvanceWithinRate(c: Config, l: Ledger, a: Arrival, w: nat)
    requires 0 <= c.rate
    requires Consistent(l, w) && VictimExists(l.counts, a.victim)
    requires Advance(c, l, a, w).live <= TWO_31 + c.rate
    requires WithinRate(c, l)
    ensures WithinRate(c, Advance(c, l, a, w))
  {
    hide Step, TimeKey, NthPasses, WrapI32;
    var l' := Advance(c, l, a, w);
    AdvanceConsistent(c, l, a, w);
    if InWindow(c, a, w) {
      NthPassesExactly(c.rate, l'.live);
    }
    Distribute(c.rate, l.evictions, 1);
  }

  /**
   * WINDOW BOUND. The requests let through in a window are at most the rate, once more for every
   * time the window's entry was evicted, as long as at most `2^31 + rate` requests came in it.
   */
  lemma {:induction false} AdmissionsPerWindow(c: Config, run: seq<Arrival>, w: nat)
    requires 0 <= c.rate
    requires PossibleRun(c, run)
    requires Replay(c, run, w).seen <= TWO_31 + c.rate
    ensures WithinRate(c, Replay(c, run, w))
    ensures Replay(c, run, w).admitted <= c.rate * (1 + Replay(c, run, w).evictions)
  {
    hide Step, InWindow, Evicts;
    CountersConserved(c, run, w);
    if run != [] {
      var front, a := run[..|run| - 1], run[|run| - 1];
      PossiblePrefix(c, run);
      AdmissionsPerWindow(c, front, w);
      CountersConserved(c, front, w);
      assert VictimExists(Replay(c, front, 0).counts, a.victim);
      CountsAgree(c, front, w, 0);
      AdvanceWithinRate(c, Replay(c, front, w), a, w);
    }
    Distribute(c.rate, Replay(c, run, w).evictions, 1);
  }

  /** A run whose counted requests fall in the given windows only. */
  predicate Within(c: Config, run: seq<Arrival>, windows: set<nat>) {
    forall a :: a in run && Counted(c, a.req, a.clock) ==> TimeKey(c.unit, a.clock.first) in windows
  }

  lemma {:induction false} FewWindowsNeverEvict(c: Config, run: seq<Arrival>, w: nat, windows: set<nat>)
    requires Within(c, run, windows)
    requires |windows| < MAP_SIZE
    ensures Replay(c, run, w).evictions == 0
    ensures Replay(c, run, w).counts.Keys <= windows
    ensures PossibleRun(c, run)
  {
    if run != [] {
      var n := |run| - 1;
      assert run[n] in run;
      forall m | 0 <= m < |run| ensures VictimExists(Replay(c, run[..m], 0).counts, run[m].victim) {
        FewWindowsNeverEvict(c, run[..m], 0, windows);
        Subset(Replay(c, run[..m], 0).counts, windows);
      }
      FewWindowsNeverEvict(c, run[..n], w, windows);
      Subset(Replay(c, run[..n], w).counts, windows);
    }
  }

  lemma Subset(counts: Counts, windows: set<nat>)
    requires counts.Keys <= windows
    ensures |counts| <= |windows|
  {
    assert |counts| == |counts.Keys|;
    assert windows == counts.Keys + (windows - counts.Keys);
  }

  /** Without a third window nothing is ever evicted, and the rate itself is the bound. */
  lemma TwoWindowsStayWithinRate(c: Config, run: seq<Arrival>, w: nat, windows: set<nat>)
    requires 0 <= c.rate
    requires Within(c, run, windows) && |windows| <= 2
    requires Replay(c, run, w).seen <= TWO_31 + c.rate
    ensures Replay(c, run, w).admitted <= c.rate
  {
    FewWindowsNeverEvict(c, run, w, windows);
    AdmissionsPerWindow(c, run, w);
  }

  // ---------------------------------------------------------------- the rate without the eviction term

  /** Some request, at some time, is counted in window `w`. */
  ghost predicate Occurs(c: Config, w: nat) {
    exists a :: InWindow(c, a, w)
  }

  /** The same request `n` times. */
  function Burst(a: Arrival, n: nat): (run: seq<Arrival>)
    ensures |run| == n
  {
    seq(n, _ => a)
  }

  /** One request each in two windows, then `n` in a third whose own entry is always the one evicted. */
  function SelfEvicting(x: Arrival, y: Arrival, a: Arrival, n: nat): (run: seq<Arrival>)
    ensures |run| == n + 2
  {
    [x, y] + Burst(a, n)
  }

  /** The counters then hold the two other windows and at most one request of this one. */
  predicate SelfEvicted(c: Config, l: Ledger, n: nat, x: nat, y: nat, w: nat) {
    && l.seen == l.admitted == n && l.live == Min(n, 1)
    && l.counts.Keys == if n == 0 then {x, y} else {x, y, w}
  }

  lemma SelfEvictingStep(c: Config, l: Ledger, a: Arrival, n: nat, x: nat, y: nat, w: nat)
    requires 1 <= c.rate
    requires x != y && x != w && y != w
    requires InWindow(c, a, w) && a.victim == w
    requires Consistent(l, w) && SelfEvicted(c, l, n, x, y, w)
    ensures VictimExists(l.counts, a.victim)
    ensures SelfEvicted(c, Advance(c, l, a, w), n + 1, x, y, w)
  {
    hide TimeKey, NthPasses, WrapI32, Denial;
    assert |l.counts| == |l.counts.Keys|;
    AdvanceConsistent(c, l, a, w);
    NthPassesExactly(c.rate, 1);
  }

  lemma SelfEvictingStart(c: Config, x: Arrival, y: Arrival, kx: nat, ky: nat, w: nat)
    requires InWindow(c, x, kx) && InWindow(c, y, ky) && w != kx && w != ky
    ensures SelfEvicted(c, Replay(c, [x, y], w), 0, kx, ky, w)
  {
    hide TimeKey, WrapI32, Denial;
    assert [x, y][..1] == [x] && [x][..0] == [];
    assert Replay(c, [x, y], w) == Advance(c, Advance(c, Replay(c, [], w), x, w), y, w);
  }

  /**
   * STARVED BOUND. From the third window on the limit can be void: if iteration always yields the current
   * window's entry first, every request evicts the one before it, and all of them pass.
   */
  lemma {:induction false} SelfEvictionPassesAll(c: Config, x: Arrival, y: Arrival, a: Arrival, n: nat,
                                                 kx: nat, ky: nat, w: nat)
    requires 1 <= c.rate
    requires kx != ky && kx != w && ky != w
    requires InWindow(c, x, kx) && InWindow(c, y, ky) && InWindow(c, a, w) && a.victim == w
    ensures var run := SelfEvicting(x, y, a, n);
            && PossibleRun(c, run) && Within(c, run, {kx, ky, w})
            && Replay(c, run, w).seen == n && Replay(c, run, w).admitted == n
            && SelfEvicted(c, Replay(c, run, w), n, kx, ky, w)
  {
    hide Advance, TimeKey, SelfEvicted, PossibleRun, Replay, Within, VictimExists, Consistent;
    var run := SelfEvicting(x, y, a, n);
    SelfEvictedCounts(c, Replay(c, run, w), n, kx, ky, w);
    WithinThree(c, x, y, a, n, kx, ky, w);
    if n == 0 {
      assert run == [x, y];
      FewWindowsNeverEvict(c, run, w, {kx, ky});
      SelfEvictingStart(c, x, y, kx, ky, w);
    } else {
      var front := SelfEvicting(x, y, a, n - 1);
      assert run == front + [a];
      SelfEvictionPassesAll(c, x, y, a, n - 1, kx, ky, w);
      CountersConserved(c, front, w);
      SelfEvictingStep(c, Replay(c, front, w), a, n - 1, kx, ky, w);
      CountsAgree(c, front, w, 0);
      PossibleAppend(c, front, a);
      ReplayAppend(c, front, a, w);
    }
  }

  lemma WithinThree(c: Config, x: Arrival, y: Arrival, a: Arrival, n: nat, kx: nat, ky: nat, w: nat)
    requires InWindow(c, x, kx) && InWindow(c, y, ky) && InWindow(c, a, w)
    ensures Within(c, SelfEvicting(x, y, a, n), {kx, ky, w})
    ensures Within(c, SelfEvicting(x, y, a, 0), {kx, ky})
  {
    hide TimeKey;
  }

  lemma SelfEvictedCounts(c: Config, l: Ledger, n: nat, x: nat, y: nat, w: nat)
    ensures SelfEvicted(c, l, n, x, y, w) ==> l.seen == l.admitted == n
  {
  }

  /** In every possible run of requests in these windows, every window stays within the rate. */
  ghost predicate RateHolds(c: Config, windows: set<nat>) {
    forall run, w: nat ::
      PossibleRun(c, run) && Within(c, run, windows) && Replay(c, run, w).seen <= TWO_31 + c.rate ==>
        Replay(c, run, w).admitted <= c.rate
  }

  /**
   * THE RATE ITSELF, EXACTLY. With a positive rate, "at most the rate in every window" holds for all runs
   * of requests in the given windows if and only if there are at most two of them.
   */
  lemma RateHoldsExactly(c: Config, windows: set<nat>)
    requires 1 <= c.rate
    requires forall w :: w in windows ==> Occurs(c, w)
    ensures RateHolds(c, windows) <==> |windows| <= 2
  {
    hide Replay, PossibleRun, TimeKey;
    if |windows| <= 2 {
      forall run, w: nat | PossibleRun(c, run) && Within(c, run, windows) && Replay(c, run, w).seen <= TWO_31 + c.rate
        ensures Replay(c, run, w).admitted <= c.rate
      {
        TwoWindowsStayWithinRate(c, run, w, windows);
      }
    } else {
      var kx, ky, w := ThreeOf(windows);
      var x, y, a :| InWindow(c, x, kx) && InWindow(c, y, ky) && InWindow(c, a, w);
      var run := SelfEvicting(x, y, a.(victim := w), c.rate + 1);
      SelfEvictionPassesAll(c, x, y, a.(victim := w), c.rate + 1, kx, ky, w);
      assert Within(c, run, windows);
    }
  }

  lemma ThreeOf(windows: set<nat>) returns (x: nat, y: nat, z: nat)
    requires 2 < |windows|
    ensures {x, y, z} <= windows && x != y && x != z && y != z
  {
    x :| x in windows;
    assert |windows - {x}| == |windows| - 1;
    y :| y in windows - {x};
    assert |windows - {x} - {y}| == |windows| - 2;
    z :| z in windows - {x} - {y};
  }

  // ---------------------------------------------------------------- the wrapping counter

  /** What the ledger says after `n` requests of one window, up to the first one too many. */
  predicate BurstState(c: Config, l: Ledger, n: nat) {
    && l.seen == l.live == n && l.evictions == 0
    && l.admitted == if n == TWO_31 + c.rate + 1 then c.rate + 1 else Min(n, c.rate)
  }

  lemma BurstStep(c: Config, l: Ledger, a: Arrival, n: nat, w: nat)
    requires 0 <= c.rate && n <= TWO_31 + c.rate
    requires InWindow(c, a, w) && Consistent(l, w) && |l.counts| < MAP_SIZE
    requires BurstState(c, l, n)
    ensures BurstState(c, Advance(c, l, a, w), n + 1)
  {
    hide Step, TimeKey, NthPasses, WrapI32;
    AdvanceConsistent(c, l, a, w);
    NthPassesExactly(c.rate, n + 1);
  }

  lemma {:induction false} BurstLedger(c: Config, a: Arrival, n: nat, w: nat)
    requires 0 <= c.rate && InWindow(c, a, w)
    requires n <= TWO_31 + c.rate + 1
    ensures PossibleRun(c, Burst(a, n)) && BurstState(c, Replay(c, Burst(a, n), w), n)
  {
    hide Advance, TimeKey, BurstState;
    FewWindowsNeverEvict(c, Burst(a, n), w, {w});
    if n == 0 {
      assert BurstState(c, Ledger(map[], 0, 0, 0, 0, 0), 0) by { BurstStart(c); }
    } else {
      var front := Burst(a, n - 1);
      assert Burst(a, n)[..n - 1] == front;
      BurstLedger(c, a, n - 1, w);
      CountersConserved(c, front, w);
      FewWindowsNeverEvict(c, front, w, {w});
      Subset(Replay(c, front, w).counts, {w});
      BurstStep(c, Replay(c, front, w), a, n - 1, w);
    }
  }

  lemma BurstStart(c: Config)
    requires 0 <= c.rate
    ensures BurstState(c, Ledger(map[], 0, 0, 0, 0, 0), 0)
  {
  }

  predicate BoundHolds(c: Config, run: seq<Arrival>, w: nat) {
    Replay(c, run, w).admitted <= c.rate * (1 + Replay(c, run, w).evictions)
  }

  /**
   * EXACT LIMIT OF THE WINDOW BOUND. The wrapping `i32` counter breaks the bound for long bursts:
   * it holds for every run with at most `n` requests in a window if and only if `n <= 2^31 + rate`.
   */
  lemma WindowBoundExactly(c: Config, a: Arrival, n: nat)
    requires 0 <= c.rate && Counted(c, a.req, a.clock)
    ensures (forall run, w: nat :: PossibleRun(c, run) && Replay(c, run, w).seen <= n ==> BoundHolds(c, run, w))
            <==> n <= TWO_31 + c.rate
  {
    if n <= TWO_31 + c.rate {
      forall run, w: nat | PossibleRun(c, run) && Replay(c, run, w).seen <= n ensures BoundHolds(c, run, w) {
        AdmissionsPerWindow(c, run, w);
      }
    } else {
      LongBurst(c, a);
      assert InWindow(c, a, TimeKey(c.unit, a.clock.first));
    }
  }

  /** One request more than `2^31 + rate` in a window: the wrapped counter lets one too many through. */
  lemma LongBurst(c: Config, a: Arrival)
    requires 0 <= c.rate && Counted(c, a.req, a.clock)
    ensures var run, w := Burst(a, TWO_31 + c.rate + 1), TimeKey(c.unit, a.clock.first);
            PossibleRun(c, run) && Replay(c, run, w).seen == TWO_31 + c.rate + 1 && !BoundHolds(c, run, w)
  {
    hide Replay, TimeKey, PossibleRun;
    BurstLedger(c, a, TWO_31 + c.rate + 1, TimeKey(c.unit, a.clock.first));
  }
}
