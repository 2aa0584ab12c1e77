/** `TokenBucketRateLimit::should_limit`: one matched request, and what whole runs of requests get. */
module TokenBuckets {
  import opened Common
  import opened RateLimit

  datatype Config = Config(rate: I32, unit: TimeUnit, capacity: I32, scope: LimitLocation)
  datatype Bucket = Bucket(count: I32, last: SystemTime)

  /** `rate_per_unit as u128` sign-extends, and the product wraps at 2^128. */
  function TokensFor(c: Config, millis: nat): nat {
    ((millis * (c.rate % TWO_128)) % TWO_128) / c.unit.Millis()
  }

  function Elapsed(b: Bucket, now: SystemTime): nat
    requires b.last <= now
  {
    WholeMillis(now - b.last)
  }

  function TokensDue(c: Config, b: Bucket, now: SystemTime): nat
    requires b.last <= now
  {
    TokensFor(c, Elapsed(b, now))
  }

  function Refill(c: Config, b: Bucket, tokens: nat, now: SystemTime): Bucket {
    if 0 < tokens then Bucket(Min(WrapI32(b.count + WrapI32(tokens)), c.capacity), now) else b
  }

  /** `unit / rate as u128`, in milliseconds; a negative rate becomes a huge divisor. */
  function MillisForOneToken(c: Config): nat
    requires c.rate != 0
  {
    c.unit.Millis() / (c.rate % TWO_128)
  }

  function RetryAfterSeconds(c: Config): nat
    requires c.rate != 0
  {
    (MillisForOneToken(c) + 999) / 1000
  }

  /** The answer for an empty bucket: dividing by a zero rate panics, a reset before the epoch fails. */
  function Denial(c: Config, b: Bucket): (v: Verdict)
    ensures !v.Pass?
  {
    if c.rate == 0 then Panic
    else
      var reset := b.last + MillisForOneToken(c) * NANOS_PER_MILLI;
      if reset < 0 then Failed
      else Limited(LimitHeaders(c.capacity, reset / NANOS_PER_SECOND, RetryAfterSeconds(c)))
  }

  /** A matched request that found `tokens` due. */
  function Serve(c: Config, b: Bucket, tokens: nat, now: SystemTime): (Bucket, Verdict) {
    var r := Refill(c, b, tokens, now);
    if 0 < r.count then (r.(count := r.count - 1), Pass) else (r, Denial(c, r))
  }

  function Step(c: Config, b: Bucket, req: Request, now: SystemTime): (Bucket, Verdict) {
    match Matched(c.scope, req)
    case MatchError => (b, Failed)
    case Differs => (b, Pass)
    case Matches => if now < b.last then (b, Failed) else Serve(c, b, TokensDue(c, b, now), now)
  }

  class TokenBucketRateLimit {
    const config: Config
    var currentCount: I32
    var lastUpdateTime: SystemTime

    function State(): Bucket
      reads this
    {
      Bucket(currentCount, lastUpdateTime)
    }

    constructor (config: Config, now: SystemTime)
      ensures this.config == config && State() == Bucket(0, now)
    {
      this.config := config;
      currentCount, lastUpdateTime := 0, now;
    }

    method ShouldLimit(req: Request, now: SystemTime) returns (v: Verdict)
      modifies this
      ensures (State(), v) == Step(config, old(State()), req, now)
    {
      var answer := Matched(config.scope, req);
      if answer.MatchError? {
        return Failed;
      }
      if answer.Differs? {
        return Pass;
      }
      if now < lastUpdateTime {
        return Failed;
      }
      var elapsedMillis := WholeMillis(now - lastUpdateTime);
      var tokensToAdd := TokensFor(config, elapsedMillis);
      if 0 < tokensToAdd {
        currentCount := Min(WrapI32(currentCount + WrapI32(tokensToAdd)), config.capacity);
        lastUpdateTime := now;
      }
      if 0 < currentCount {
        currentCount := currentCount - 1;
        v := Pass;
      } else {
        v := Denial(config, State());
      }
    }
  }

  // ---------------------------------------------------------------- rate bound

  /** The tokens a rate can produce over a time span, with a single floor at each unit change. */
  function Allowance(c: Config, from: SystemTime, until: SystemTime): nat
    requires 1 <= c.rate
    requires from <= until
  {
    c.rate * WholeMillis(until - from) / c.unit.Millis()
  }

  /** What is left to hand out by time `until`: the bound the run theorem states. */
  function Bound(c: Config, b: Bucket, until: SystemTime): nat
    requires 1 <= c.rate
  {
    if until < b.last then 0 else Max(0, b.count + Allowance(c, b.last, until))
  }

  /** Within the range of the clock the 128-bit product is exact, so tokens are the plain floor. */
  lemma TokensAreExact(c: Config, from: SystemTime, until: SystemTime)
    requires 0 <= c.rate
    requires from <= until
    ensures TokensFor(c, WholeMillis(until - from)) == c.rate * WholeMillis(until - from) / c.unit.Millis()
  {
    hide TokensFor;
    ExactFor(c, WholeMillis(until - from));
  }

  lemma ExactFor(c: Config, millis: nat)
    requires 0 <= c.rate && millis <= TWO_64 * 1000
    ensures TokensFor(c, millis) == c.rate * millis / c.unit.Millis()
  {
    ProductFits(millis, c.rate);
    assert c.rate % TWO_128 == c.rate && (millis * c.rate) % TWO_128 == millis * c.rate;
    assert millis * c.rate == c.rate * millis;
  }

  lemma ProductFits(millis: nat, rate: nat)
    requires millis <= TWO_64 * 1000
    requires rate < TWO_31
    ensures 0 <= millis * rate < TWO_128
  {
    MulMonotone(millis, TWO_64 * 1000, rate);
  }

  /** Allowances of adjacent spans add up to no more than the allowance of the whole span. */
  lemma AllowanceSplits(c: Config, from: SystemTime, mid: SystemTime, until: SystemTime)
    requires 1 <= c.rate
    requires from <= mid <= until
    ensures Allowance(c, from, mid) + Allowance(c, mid, until) <= Allowance(c, from, until)
  {
    var e1, e2 := WholeMillis(mid - from), WholeMillis(until - mid);
    var e := WholeMillis(until - from);
    FloorSuperadditive(mid - from, until - mid, NANOS_PER_MILLI);
    FloorSuperadditive(c.rate * e1, c.rate * e2, c.unit.Millis());
    assert c.rate * e1 + c.rate * e2 == (e1 + e2) * c.rate;
    MulMonotone(e1 + e2, e, c.rate);
    DivMonotone(c.rate * e1 + c.rate * e2, c.rate * e, c.unit.Millis());
  }

  /** Whether this request was counted against the bucket and let through. */
  predicate Admitted(c: Config, b: Bucket, req: Request, now: SystemTime) {
    Matched(c.scope, req).Matches? && Step(c, b, req, now).1.Pass?
  }

  /** `before` tokens can still come by the end if none are due now, `after` once `tokens` are added. */
  lemma ServeWithinBound(c: Config, b: Bucket, tokens: nat, now: SystemTime, before: nat, after: nat)
    requires tokens + after <= before
    ensures var (r, v) := Serve(c, b, tokens, now);
            Max(0, r.count + if 0 < tokens then after else before) + (if v.Pass? then 1 else 0)
              <= Max(0, b.count + before)
  {
  }

  /** One request uses up what it takes: this is the whole rate bound, wraps included. */
  lemma StepWithinBound(c: Config, b: Bucket, req: Request, now: SystemTime, until: SystemTime)
    requires 1 <= c.rate
    requires now <= until
    ensures Bound(c, Step(c, b, req, now).0, until) + (if Admitted(c, b, req, now) then 1 else 0) <= Bound(c, b, until)
  {
    if Matched(c.scope, req).Matches? && b.last <= now {
      var tokens := TokensDue(c, b, now);
      assert tokens == Allowance(c, b.last, now) by { TokensAreExact(c, b.last, now); }
      AllowanceSplits(c, b.last, now, until);
      ServeWithinBound(c, b, tokens, now, Allowance(c, b.last, until), Allowance(c, now, until));
    }
  }

  datatype Arrival = Arrival(req: Request, now: SystemTime)

  /**
   * Everything that happened to a bucket over a run. `generated` are the tokens the refills
   * computed, `millis` the elapsed milliseconds those refills consumed, `discarded` what the
   * capacity cut off.
   */
  datatype Ledger = Ledger(bucket: Bucket, admitted: nat, generated: nat, millis: nat, discarded: nat)

  function Refills(c: Config, b: Bucket, a: Arrival): bool {
    Matched(c.scope, a.req).Matches? && b.last <= a.now && 0 < TokensDue(c, b, a.now)
  }

  /** What one arrival adds to the ledger. */
  function Advance(c: Config, l: Ledger, a: Arrival): Ledger {
    var refills := Refills(c, l.bucket, a);
    Ledger(Step(c, l.bucket, a.req, a.now).0,
           l.admitted + if Admitted(c, l.bucket, a.req, a.now) then 1 else 0,
           l.generated + if refills then TokensDue(c, l.bucket, a.now) else 0,
           l.millis + if refills then Elapsed(l.bucket, a.now) else 0,
           l.discarded + if refills then Max(0, l.bucket.count + TokensDue(c, l.bucket, a.now) - c.capacity) else 0)
  }

  function Replay(c: Config, b: Bucket, run: seq<Arrival>): Ledger {
    if run == [] then Ledger(b, 0, 0, 0, 0)
    else Advance(c, Replay(c, b, run[..|run| - 1]), run[|run| - 1])
  }

  /**
   * RATE BOUND. However requests arrive and however the clock jumps, the matched requests let
   * through by time `until` are at most the tokens at the start plus what the rate yields.
   */
  lemma {:induction false} AdmissionsWithinRate(c: Config, b: Bucket, run: seq<Arrival>, until: SystemTime)
    requires 1 <= c.rate
    requires forall a :: a in run ==> a.now <= until
    ensures Replay(c, b, run).admitted + Bound(c, Replay(c, b, run).bucket, until) <= Bound(c, b, until)
  {
    if run != [] {
      var front, a := run[..|run| - 1], run[|run| - 1];
      assert a in run;
      AdmissionsWithinRate(c, b, front, until);
      StepWithinBound(c, Replay(c, b, front).bucket, a.req, a.now, until);
    }
  }

  /** The same bound, read as a burst of at most the capacity followed by the nominal rate. */
  lemma {:induction false} BurstWithinCapacity(c: Config, b: Bucket, run: seq<Arrival>, until: SystemTime)
    requires 1 <= c.rate
    requires b.count <= c.capacity
    requires b.last <= until
    requires forall a :: a in run ==> a.now <= until
    ensures Replay(c, b, run).admitted <= Max(0, c.capacity + Allowance(c, b.last, until))
    ensures Replay(c, b, run).bucket.count <= c.capacity
  {
    AdmissionsWithinRate(c, b, run, until);
    CountBelowCapacity(c, b, run);
  }

  lemma {:induction false} CountBelowCapacity(c: Config, b: Bucket, run: seq<Arrival>)
    requires b.count <= c.capacity
    ensures Replay(c, b, run).bucket.count <= c.capacity
  {
    if run != [] {
      CountBelowCapacity(c, b, run[..|run| - 1]);
    }
  }

  // ---------------------------------------------------------------- who is limited

  /** The arrivals in the scope of the limit, in order. */
  function InScope(c: Config, run: seq<Arrival>): seq<Arrival> {
    if run == [] then []
    else
      var last := run[|run| - 1];
      InScope(c, run[..|run| - 1]) + if Matched(c.scope, last.req).Matches? then [last] else []
  }

  /**
   * ONLY THE SCOPE COUNTS. Requests outside the scope of a limit are never limited by it and leave no trace:
   * the bucket is after any run where it is after the requests in scope alone, with the same ones let through.
   */
  lemma {:induction false} OnlyScopeCounts(c: Config, b: Bucket, run: seq<Arrival>, other: Request, now: SystemTime)
    ensures Replay(c, b, run) == Replay(c, b, InScope(c, run))
    ensures Matched(c.scope, other).Differs? ==> Step(c, Replay(c, b, run).bucket, other, now).1 == Pass
    ensures Matched(c.scope, other).MatchError? ==> Step(c, Replay(c, b, run).bucket, other, now).1 == Failed
    ensures !Matched(c.scope, other).Matches? ==> Replay(c, b, run + [Arrival(other, now)]) == Replay(c, b, run)
  {
    hide Matched, Step, Advance;
    ReplayAppend(c, b, run, Arrival(other, now));
    OutsideLeavesNoTrace(c, Replay(c, b, run), Arrival(other, now));
    if run != [] {
      var front, last := run[..|run| - 1], run[|run| - 1];
      OnlyScopeCounts(c, b, front, other, now);
      OutsideLeavesNoTrace(c, Replay(c, b, front), last);
      if Matched(c.scope, last.req).Matches? {
        ReplayAppend(c, b, InScope(c, front), last);
      } else {
        assert InScope(c, run) == InScope(c, front);
      }
    }
  }

  lemma ReplayAppend(c: Config, b: Bucket, run: seq<Arrival>, a: Arrival)
    ensures Replay(c, b, run + [a]) == Advance(c, Replay(c, b, run), a)
  {
    hide Advance;
    assert (run + [a])[..|run|] == run;
  }

  lemma OutsideLeavesNoTrace(c: Config, l: Ledger, a: Arrival)
    ensures !Matched(c.scope, a.req).Matches? ==>
              && Step(c, l.bucket, a.req, a.now)
                 == (l.bucket, if Matched(c.scope, a.req).Differs? then Pass else Failed)
              && Advance(c, l, a) == l
  {
    hide Matched, Serve, TokensDue, Elapsed;
  }

  /** A clock that went back behind the last refill is an error, and changes nothing. */
  lemma BackwardClockFails(c: Config, b: Bucket, req: Request, now: SystemTime)
    requires Matched(c.scope, req).Matches? && now < b.last
    ensures Step(c, b, req, now) == (b, Failed)
  {
  }

  /**
   * THE 429 ANSWER. A denied client is told the capacity as limit, and as reset the second in which
   * floor(unit / rate) milliseconds have gone by since the last refill. A rate of 0 has no answer, and a
   * reset before the epoch is an error.
   */
  lemma DenialTells(c: Config, b: Bucket, req: Request, now: SystemTime, floor: nat)
    requires 0 <= c.rate && Matched(c.scope, req).Matches? && b.last <= now
    requires floor * c.rate <= c.unit.Millis() && (0 < c.rate ==> c.unit.Millis() < (floor + 1) * c.rate)
    requires !Step(c, b, req, now).1.Pass?
    ensures var (after, v) := Step(c, b, req, now);
            && (c.rate == 0 ==> v == Panic)
            && (0 < c.rate && after.last + floor * NANOS_PER_MILLI < 0 ==> v == Failed)
            && (0 < c.rate && 0 <= after.last + floor * NANOS_PER_MILLI ==>
                  && v.Limited? && v.headers.limit == c.capacity
                  && v.headers.reset * NANOS_PER_SECOND <= after.last + floor * NANOS_PER_MILLI
                     < (v.headers.reset + 1) * NANOS_PER_SECOND)
  {
    hide TokensDue, TokensFor, WrapI32;
    if 0 < c.rate {
      assert c.rate % TWO_128 == c.rate;
      DivLower(c.unit.Millis(), c.rate, floor);
      DivUpper(c.unit.Millis(), c.rate, floor);
      assert MillisForOneToken(c) == floor;
    }
  }

  // ---------------------------------------------------------------- conservation and loss

  /** No refill of the run leaves the `i32` range. */
  predicate NoWrap(c: Config, b: Bucket, run: seq<Arrival>) {
    forall n :: 0 <= n < |run| ==>
      var s := Replay(c, b, run[..n]).bucket;
      Refills(c, s, run[n]) ==> s.count + TokensDue(c, s, run[n].now) < TWO_31
  }

  lemma NoWrapPrefix(c: Config, b: Bucket, run: seq<Arrival>)
    requires run != []
    requires NoWrap(c, b, run)
    ensures NoWrap(c, b, run[..|run| - 1])
  {
    var front := run[..|run| - 1];
    forall n | 0 <= n < |front|
      ensures var s := Replay(c, b, front[..n]).bucket;
              Refills(c, s, front[n]) ==> s.count + TokensDue(c, s, front[n].now) < TWO_31
    {
      assert front[..n] == run[..n];
    }
  }

  lemma ServeConserves(c: Config, b: Bucket, tokens: nat, now: SystemTime)
    requires 0 < tokens ==> b.count + tokens < TWO_31
    ensures var (r, v) := Serve(c, b, tokens, now);
            var cut := if 0 < tokens then Max(0, b.count + tokens - c.capacity) else 0;
            r.count + (if v.Pass? then 1 else 0) + cut == b.count + tokens
  {
  }

  /** CONSERVATION. Every generated token is in the bucket, was spent, or was cut off by the capacity. */
  lemma {:induction false} TokensConserved(c: Config, b: Bucket, run: seq<Arrival>)
    requires NoWrap(c, b, run)
    ensures var l := Replay(c, b, run);
            l.bucket.count + l.admitted + l.discarded == b.count + l.generated
  {
    if run != [] {
      var n := |run| - 1;
      NoWrapPrefix(c, b, run);
      TokensConserved(c, b, run[..n]);
      var s, a := Replay(c, b, run[..n]).bucket, run[n];
      if Matched(c.scope, a.req).Matches? && s.last <= a.now {
        assert Refills(c, s, a) ==> s.count + TokensDue(c, s, a.now) < TWO_31;
        ServeConserves(c, s, TokensDue(c, s, a.now), a.now);
      }
    }
  }

  /** A floor that is at least 1 keeps at least half of what was floored. */
  lemma FloorKeepsHalf(a: nat, d: nat)
    requires 0 < d && 1 <= a / d
    ensures a <= 2 * (d * (a / d))
  {
    MulMonotone(1, a / d, d);
  }

  lemma WholeMillisKeepHalf(rate: nat, nanos: nat)
    requires 1 <= WholeMillis(nanos)
    ensures rate * nanos <= 2 * NANOS_PER_MILLI * (rate * WholeMillis(nanos))
  {
    MulMonotone(nanos, 2 * NANOS_PER_MILLI * WholeMillis(nanos), rate);
    assert rate * (2 * NANOS_PER_MILLI * WholeMillis(nanos)) == 2 * NANOS_PER_MILLI * (rate * WholeMillis(nanos));
  }

  lemma FloorsKeepQuarter(rate: nat, nanos: nat, unit: nat)
    requires 0 < unit && 1 <= rate * WholeMillis(nanos) / unit
    ensures rate * WholeMillis(nanos) <= 2 * (unit * (rate * WholeMillis(nanos) / unit))
    ensures rate * nanos <= 4 * NANOS_PER_MILLI * (unit * (rate * WholeMillis(nanos) / unit))
  {
    FloorKeepsHalf(rate * WholeMillis(nanos), unit);
    if 1 <= WholeMillis(nanos) {
      WholeMillisKeepHalf(rate, nanos);
    }
  }

  /** A refill that yields at least one token wastes less than half of the time it consumes. */
  lemma RefillLoss(c: Config, b: Bucket, now: SystemTime)
    requires 1 <= c.rate
    requires b.last <= now
    requires 0 < TokensDue(c, b, now)
    ensures c.rate * Elapsed(b, now) <= 2 * (c.unit.Millis() * TokensDue(c, b, now))
    ensures c.rate * (now - b.last) <= 4 * NANOS_PER_MILLI * (c.unit.Millis() * TokensDue(c, b, now))
  {
    TokensAreExact(c, b.last, now);
    FloorsKeepQuarter(c.rate, now - b.last, c.unit.Millis());
  }

  /**
   * LOSS BOUND. Each refill drops the fractional token and the fractional millisecond, yet over
   * any run the tokens generated are at least half of what the consumed milliseconds are worth,
   * and at least a quarter of what the clock advance of `last_update_time` is worth.
   */
  lemma {:induction false} AtLeastHalfTheRate(c: Config, b: Bucket, run: seq<Arrival>)
    requires 1 <= c.rate
    ensures var l := Replay(c, b, run);
            && c.rate * l.millis <= 2 * (c.unit.Millis() * l.generated)
            && b.last <= l.bucket.last
            && c.rate * (l.bucket.last - b.last) <= 4 * NANOS_PER_MILLI * (c.unit.Millis() * l.generated)
  {
    hide TokensDue, Elapsed, Serve;
    if run != [] {
      var n := |run| - 1;
      AtLeastHalfTheRate(c, b, run[..n]);
      var l0, a := Replay(c, b, run[..n]), run[n];
      if Refills(c, l0.bucket, a) {
        var t := TokensDue(c, l0.bucket, a.now);
        RefillLoss(c, l0.bucket, a.now);
        ServeMovesClock(c, l0.bucket, t, a.now);
        Distribute(c.rate, l0.millis, Elapsed(l0.bucket, a.now));
        Distribute(c.unit.Millis(), l0.generated, t);
        Distribute(c.rate, l0.bucket.last - b.last, a.now - l0.bucket.last);
        assert l0.bucket.last - b.last + (a.now - l0.bucket.last) == a.now - b.last;
      } else if Matched(c.scope, a.req).Matches? && l0.bucket.last <= a.now {
        ServeMovesClock(c, l0.bucket, 0, a.now);
      }
    }
  }

  lemma ServeMovesClock(c: Config, b: Bucket, tokens: nat, now: SystemTime)
    ensures Serve(c, b, tokens, now).0.last == if 0 < tokens then now else b.last
  {
  }

  // ---------------------------------------------------------------- polling while denied

  /** With a sane configuration a refill always admits, so a denied request changes nothing at all. */
  lemma DenialChangesNothing(c: Config, b: Bucket, req: Request, now: SystemTime)
    requires 1 <= c.rate && 1 <= c.capacity && 0 <= b.count
    requires Matched(c.scope, req).Matches? && b.last <= now
    requires b.count + TokensDue(c, b, now) < TWO_31
    ensures Step(c, b, req, now).1.Pass? <==> 0 < b.count || c.unit.Millis() <= c.rate * Elapsed(b, now)
    ensures !Step(c, b, req, now).1.Pass? ==> Step(c, b, req, now).0 == b && b.count == 0
  {
    TokensAreExact(c, b.last, now);
    var u, x := c.unit.Millis(), c.rate * Elapsed(b, now);
    if u <= x {
      DivLower(x, u, 1);
    } else {
      DivUpper(x, u, 0);
    }
  }

  /** So a run in which no counted request passes leaves the bucket, and the wait for a token, as they were. */
  lemma {:induction false} DeniedRunChangesNothing(c: Config, b: Bucket, run: seq<Arrival>)
    requires 1 <= c.rate && 1 <= c.capacity && 0 <= b.count
    requires NoWrap(c, b, run)
    requires Replay(c, b, run).admitted == 0
    ensures Replay(c, b, run).bucket == b
  {
    if run != [] {
      hide TokensDue, Serve;
      var front, a := run[..|run| - 1], run[|run| - 1];
      NoWrapPrefix(c, b, run);
      DeniedRunChangesNothing(c, b, front);
      if Matched(c.scope, a.req).Matches? && b.last <= a.now {
        assert Refills(c, b, a) ==> b.count + TokensDue(c, b, a.now) < TWO_31;
        assert !Step(c, b, a.req, a.now).1.Pass?;
        DeniedIsUnchanged(c, b, a.req, a.now);
      }
    }
  }

  lemma DeniedIsUnchanged(c: Config, b: Bucket, req: Request, now: SystemTime)
    requires 1 <= c.capacity && 0 <= b.count
    requires Matched(c.scope, req).Matches? && b.last <= now
    requires 0 < TokensDue(c, b, now) ==> b.count + TokensDue(c, b, now) < TWO_31
    requires !Step(c, b, req, now).1.Pass?
    ensures Step(c, b, req, now).0 == b
  {
    hide TokensDue;
  }

  /**
   * ADMISSION EXACTLY. Whatever is in the bucket and however the sums wrap: without a token due the count
   * decides; with one due, the sum of both modulo 2^32 has to be a positive `i32`, and the capacity positive.
   */
  lemma AdmitsExactly(c: Config, b: Bucket, req: Request, now: SystemTime)
    requires Matched(c.scope, req).Matches? && b.last <= now
    ensures var due := TokensDue(c, b, now);
            Step(c, b, req, now).1.Pass? <==>
              if due == 0 then 0 < b.count else 1 <= c.capacity && 1 <= (b.count + due) % TWO_32 < TWO_31
  {
    hide TokensDue, Denial, WrapI32;
    var due := TokensDue(c, b, now);
    WrapI32Add(due, b.count);
    WrapI32Positive(b.count + due);
  }

  lemma WrapI32Positive(x: int)
    ensures 0 < WrapI32(x) <==> 1 <= x % TWO_32 < TWO_31
  {
    assert WrapI32(x) == if x % TWO_32 < TWO_31 then x % TWO_32 else x % TWO_32 - TWO_32;
  }

  /** In particular an empty bucket admits exactly when the truncated refill is positive. */
  lemma EmptyBucketAdmits(c: Config, b: Bucket, req: Request, now: SystemTime)
    requires 1 <= c.capacity && b.count == 0
    requires Matched(c.scope, req).Matches? && b.last <= now
    ensures Step(c, b, req, now).1.Pass? <==> 1 <= TokensDue(c, b, now) % TWO_32 < TWO_31
  {
    hide TokensDue, Step;
    AdmitsExactly(c, b, req, now);
  }

  /**
   * So the limiter can starve an idle client: at 1000 tokens per millisecond, 2147484 ms (36 minutes)
   * of silence are worth 2147484000 tokens, which truncate to a negative `i32`.
   */
  lemma IdleClientDenied(scope: LimitLocation, req: Request, b: Bucket, now: SystemTime)
    requires Matched(scope, req).Matches? && b.count == 0
    requires now == b.last + 2_147_484 * NANOS_PER_MILLI
    ensures var (r, v) := Step(Config(1000, MillionSecond, 10, scope), b, req, now);
            !v.Pass? && r == Bucket(-2_147_483_296, now)
  {
    var c := Config(1000, MillionSecond, 10, scope);
    assert Elapsed(b, now) == 2_147_484;
    assert TokensDue(c, b, now) == 2_147_484_000;
    assert WrapI32(2_147_484_000) == -2_147_483_296;
  }

  /**
   * A token left over does not help: at one per millisecond, 2147483647 ms of
   * silence and that token make -2^31, and everyone is shut out for the next 25 days.
   */
  lemma TokenHolderDenied(scope: LimitLocation, req: Request, b: Bucket, now: SystemTime)
    requires Matched(scope, req).Matches? && b.count == 1
    requires now == b.last + 2_147_483_647 * NANOS_PER_MILLI
    ensures var (r, v) := Step(Config(1, MillionSecond, 10, scope), b, req, now);
            !v.Pass? && r == Bucket(-TWO_31, now) && DebtMillis(Config(1, MillionSecond, 10, scope), r) == TWO_31 + 1
  {
    var c := Config(1, MillionSecond, 10, scope);
    assert Elapsed(b, now) == 2_147_483_647;
    assert TokensDue(c, b, now) == 2_147_483_647;
    assert WrapI32(2_147_483_648) == -TWO_31;
  }

  /** The milliseconds it takes to earn back a count of 0 or less, and one token more. */
  function DebtMillis(c: Config, b: Bucket): nat
    requires 1 <= c.rate && b.count <= 0
  {
    CeilDiv(c.unit.Millis() * (1 - b.count), c.rate)
  }

  lemma MillisWorth(c: Config, goal: nat, e: nat)
    requires 1 <= c.rate
    ensures goal <= c.rate * e / c.unit.Millis() <==> CeilDiv(c.unit.Millis() * goal, c.rate) <= e
  {
    var u, r := c.unit.Millis(), c.rate;
    if u * goal <= r * e {
      DivLower(r * e, u, goal);
      Distribute(r, e, 1);
      DivUpper(u * goal + r - 1, r, e);
    } else {
      DivUpper(r * e, u, goal - 1);
      Distribute(r, e, 1);
      DivLower(u * goal + r - 1, r, e + 1);
    }
  }

  /**
   * DEBT. A count at or below 0, as a wrapped refill leaves it, shuts everyone out for an exact time: no run
   * that ends before has a single request let through, however the clock jumps, and a matched request with
   * none before it, if it finds no wrap again, passes exactly from then on.
   */
  lemma DebtLastsExactly(c: Config, b: Bucket, run: seq<Arrival>, until: SystemTime, next: Arrival)
    requires 1 <= c.rate && 1 <= c.capacity && b.count <= 0
    requires b.last <= until && forall a :: a in run ==> a.now <= until
    requires Matched(c.scope, next.req).Matches? && b.last <= next.now
    requires b.count + TokensDue(c, b, next.now) < TWO_31
    ensures Elapsed(b, until) < DebtMillis(c, b) ==> Replay(c, b, run).admitted == 0
    ensures Step(c, b, next.req, next.now).1.Pass? <==> DebtMillis(c, b) <= Elapsed(b, next.now)
  {
    hide Step, Replay, TokensFor, CeilDiv;
    AdmissionsWithinRate(c, b, run, until);
    MillisWorth(c, 1 - b.count, Elapsed(b, until));
    MillisWorth(c, 1 - b.count, Elapsed(b, next.now));
    TokensAreExact(c, b.last, next.now);
    AdmitsExactly(c, b, next.req, next.now);
  }

  /** `ceil(unit / rate)` is the least number of milliseconds worth a token. */
  lemma MillisWorthAToken(c: Config, e: nat)
    requires 1 <= c.rate
    ensures c.unit.Millis() <= c.rate * e <==> CeilDiv(c.unit.Millis(), c.rate) <= e
  {
    var u, r := c.unit.Millis(), c.rate;
    if u <= r * e {
      assert u + r - 1 < (e + 1) * r;
      DivUpper(u + r - 1, r, e);
    } else {
      assert (e + 1) * r <= u + r - 1;
      DivLower(u + r - 1, r, e + 1);
    }
  }

  /**
   * NO STARVATION BY POLLING. From an empty bucket, requests that come less than
   * `ceil(unit / rate)` milliseconds after `last_update_time`, however many, leave the bucket
   * as it is; the first matched request at or past that point is let through.
   */
  lemma {:induction false} PollingDoesNotPostpone(c: Config, b: Bucket, polls: seq<Arrival>, next: Arrival)
    requires 1 <= c.rate && 1 <= c.capacity && b.count == 0
    requires forall a :: a in polls && b.last <= a.now ==> Elapsed(b, a.now) < CeilDiv(c.unit.Millis(), c.rate)
    requires Matched(c.scope, next.req).Matches? && b.last <= next.now
    requires TokensDue(c, b, next.now) < TWO_31
    ensures Replay(c, b, polls).bucket == b && Replay(c, b, polls).admitted == 0
    ensures Step(c, b, next.req, next.now).1.Pass? <==> CeilDiv(c.unit.Millis(), c.rate) <= Elapsed(b, next.now)
  {
    DenialChangesNothing(c, b, next.req, next.now);
    MillisWorthAToken(c, Elapsed(b, next.now));
    if polls != [] {
      var n := |polls| - 1;
      PollingDoesNotPostpone(c, b, polls[..n], next);
      var a := polls[n];
      assert a in polls;
      if Matched(c.scope, a.req).Matches? && b.last <= a.now {
        MillisWorthAToken(c, Elapsed(b, a.now));
        TokensAreExact(c, b.last, a.now);
        DivUpper(c.rate * Elapsed(b, a.now), c.unit.Millis(), 0);
        DenialChangesNothing(c, b, a.req, a.now);
      }
    }
  }

  /** A client denied at `denied`, not by a wrap, comes back exactly when the Retry-After header tells it to. */
  predicate RetryHonoured(c: Config, b: Bucket, req: Request, denied: SystemTime, again: SystemTime)
    requires c.rate != 0
  {
    && Matched(c.scope, req).Matches?
    && b.last <= denied
    && TokensDue(c, b, denied) < TWO_31
    && !Step(c, b, req, denied).1.Pass?
    && again == denied + RetryAfterSeconds(c) * NANOS_PER_SECOND
  }

  lemma SecondsAreShort(c: Config)
    requires 1 <= c.rate
    ensures c.rate * (1000 * RetryAfterSeconds(c)) <= 1000 * c.unit.Millis()
  {
    assert c.rate % TWO_128 == c.rate;
    RoundingUpIsShort(c.unit.Millis(), c.rate, c.unit.Millis() / c.rate, RetryAfterSeconds(c));
  }

  lemma RoundingUpIsShort(u: nat, r: nat, q: nat, seconds: nat)
    requires 0 < r && q == u / r && seconds == (q + 999) / 1000
    ensures r * (1000 * seconds) <= 1000 * u
  {
    assert q * r <= u by { assert u == r * q + u % r; }
    MulMonotone(1000 * seconds, 1000 * q, r);
  }

  /** The advertised seconds are worth at most 1000 tokens, so waiting them cannot wrap. */
  lemma RetryDueFits(c: Config, b: Bucket, req: Request, denied: SystemTime, again: SystemTime)
    requires 1 <= c.rate && 1 <= c.capacity && b.count == 0
    requires RetryHonoured(c, b, req, denied, again)
    ensures 1000 * RetryAfterSeconds(c) <= Elapsed(b, again)
    ensures TokensDue(c, b, again) <= 1000
    ensures Step(c, b, req, denied).0 == b
  {
    hide Step, TokensDue, RetryAfterSeconds, TokensFor;
    var u, r, w, e := c.unit.Millis(), c.rate, 1000 * RetryAfterSeconds(c), Elapsed(b, denied);
    DenialChangesNothing(c, b, req, denied);
    assert Elapsed(b, again) == e + w by { MillisLater(denied - b.last, RetryAfterSeconds(c)); }
    assert r * (e + w) < 1001 * u by {
      SecondsAreShort(c);
      Distribute(r, e, w);
    }
    assert TokensDue(c, b, again) == r * (e + w) / u by {
      TokensAreExact(c, b.last, again);
      DueIsTokensFor(c, b, again);
    }
    DivUpper(r * (e + w), u, 1000);
  }

  lemma DueIsTokensFor(c: Config, b: Bucket, now: SystemTime)
    requires b.last <= now
    ensures TokensDue(c, b, now) == TokensFor(c, WholeMillis(now - b.last))
  {
  }

  lemma MillisLater(nanos: nat, seconds: nat)
    ensures WholeMillis(nanos + seconds * NANOS_PER_SECOND) == WholeMillis(nanos) + 1000 * seconds
  {
  }

  /** The rate divides the unit, or rounding up to seconds leaves room for the lost fraction. */
  predicate RetryIsLongEnough(c: Config)
    requires 1 <= c.rate
  {
    c.unit.Millis() % c.rate == 0 || c.unit.Millis() / c.rate % 1000 != 0
  }

  lemma RetryCoversToken(c: Config)
    requires 1 <= c.rate
    ensures RetryIsLongEnough(c) <==> CeilDiv(c.unit.Millis(), c.rate) <= RetryAfterSeconds(c) * 1000
  {
    var u, r := c.unit.Millis(), c.rate;
    assert r % TWO_128 == r;
    var q := u / r;
    assert u == q * r + u % r;
    if u % r == 0 {
      assert q * r <= u + r - 1 < (q + 1) * r;
      DivLower(u + r - 1, r, q);
      DivUpper(u + r - 1, r, q);
    } else {
      assert (q + 1) * r <= u + r - 1 < (q + 2) * r;
      DivLower(u + r - 1, r, q + 1);
      DivUpper(u + r - 1, r, q + 1);
    }
  }

  /** Waiting for the advertised Retry-After is enough, after every denial without a wrap, when the guard holds. */
  lemma RetryAfterSuffices(c: Config, b: Bucket, req: Request, denied: SystemTime, again: SystemTime)
    requires 1 <= c.rate && 1 <= c.capacity && b.count == 0
    requires RetryIsLongEnough(c)
    requires RetryHonoured(c, b, req, denied, again)
    ensures var after := Step(c, b, req, denied).0;
            after == b && Step(c, after, req, again).1.Pass?
  {
    hide Step, RetryIsLongEnough;
    RetryDueFits(c, b, req, denied, again);
    RetryCoversToken(c);
    DenialChangesNothing(c, b, req, again);
    MillisWorthAToken(c, Elapsed(b, again));
  }

  /**
   * ... and only then: when the guard fails, a client denied at the instant of the last refill
   * that waits exactly as told is denied again.
   */
  lemma RetryAfterTooShort(c: Config, b: Bucket, req: Request, again: SystemTime)
    requires 1 <= c.rate && 1 <= c.capacity && b.count == 0
    requires !RetryIsLongEnough(c)
    requires Matched(c.scope, req).Matches?
    requires again == b.last + RetryAfterSeconds(c) * NANOS_PER_SECOND
    ensures RetryHonoured(c, b, req, b.last, again)
    ensures Step(c, b, req, b.last).0 == b && !Step(c, b, req, again).1.Pass?
  {
    RetryCoversToken(c);
    var w := RetryAfterSeconds(c) * 1000;
    assert Elapsed(b, again) == w;
    MillisWorthAToken(c, w);
    TokensAreExact(c, b.last, again);
    TokensAreExact(c, b.last, b.last);
    DivUpper(c.rate * w, c.unit.Millis(), 0);
    DenialChangesNothing(c, b, req, again);
    DenialChangesNothing(c, b, req, b.last);
  }

  /** RETRY-AFTER, EXACTLY. Waiting as told works after every denial of an empty bucket iff the guard holds. */
  lemma RetryWorksExactly(c: Config, req: Request)
    requires 1 <= c.rate && 1 <= c.capacity && Matched(c.scope, req).Matches?
    ensures (forall b: Bucket, denied, again :: b.count == 0 && RetryHonoured(c, b, req, denied, again) ==>
               Step(c, Step(c, b, req, denied).0, req, again).1.Pass?)
       <==> RetryIsLongEnough(c)
  {
    hide Step, RetryHonoured, RetryIsLongEnough;
    if RetryIsLongEnough(c) {
      forall b: Bucket, denied, again | b.count == 0 && RetryHonoured(c, b, req, denied, again)
        ensures Step(c, Step(c, b, req, denied).0, req, again).1.Pass?
      {
        RetryAfterSuffices(c, b, req, denied, again);
      }
    } else {
      var b, again := Bucket(0, 0), RetryAfterSeconds(c) * NANOS_PER_SECOND;
      assert again <= 86_401 * NANOS_PER_SECOND by { RetryIsShort(c); }
      RetryAfterTooShort(c, b, req, again);
    }
  }

  lemma RetryIsShort(c: Config)
    requires 1 <= c.rate
    ensures RetryAfterSeconds(c) <= 86_401
  {
    assert c.rate % TWO_128 == c.rate;
    DivUpper(c.unit.Millis(), c.rate, c.unit.Millis());
  }

  /** 3599 per hour: the client is told one second, but 1000 ms are worth 0.9997 tokens. */
  lemma RetryAfterExample(scope: LimitLocation)
    ensures var c := Config(3599, Hour, 10, scope);
            !RetryIsLongEnough(c) && RetryAfterSeconds(c) == 1
  {
    assert 3_600_000 / 3599 == 1000;
    assert 3_600_000 % 3599 == 1000;
  }
}
