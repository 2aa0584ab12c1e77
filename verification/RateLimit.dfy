/** What both limiters of `rate_limit.rs` share: clock units, the scope of a limit and its verdicts. */
module RateLimit {
  import opened Common
  import opened Http

  /** Nanoseconds since the Unix epoch; the standard library keeps the seconds in an `i64`. */
  type SystemTime = t: int | -0x8000_0000_0000_0000 * NANOS_PER_SECOND <= t < 0x8000_0000_0000_0000 * NANOS_PER_SECOND

  const NANOS_PER_SECOND := 1_000_000_000
  const NANOS_PER_MILLI := 1_000_000

  datatype TimeUnit = MillionSecond | Second | Minute | Hour | Day {
    function Millis(): (m: nat)
      ensures 1 <= m <= 86_400_000
    {
      match this
      case MillionSecond => 1
      case Second => 1_000
      case Minute => 60_000
      case Hour => 3_600_000
      case Day => 86_400_000
    }
  }

  /** Whole milliseconds of a non-negative duration. */
  function WholeMillis(nanos: nat): nat {
    nanos / NANOS_PER_MILLI
  }

  /** What the checks look at: the peer address as text and as IPv4 number, and the headers. */
  datatype Request = Request(remoteIp: string, ipv4: Option<nat>, headers: Headers)

  type Pos = x: int | 0 < x witness 1

  /** An address block; `blockSize` is 2^(32 - prefix length). */
  datatype Ipv4Net = Ipv4Net(base: nat, blockSize: Pos)

  /** `Iprange` carries the text and what the address library parses it to. */
  datatype LimitLocation =
    | IP(value: string)
    | Header(key: string, expected: string)
    | Iprange(range: string, parsed: Option<Ipv4Net>)

  datatype MatchAnswer = Matches | Differs | MatchError

  function Matched(scope: LimitLocation, req: Request): MatchAnswer {
    match scope
    case IP(value) => if value == req.remoteIp then Matches else Differs
    case Header(key, expected) =>
      if key !in req.headers then Differs
      else if req.headers[key].Unreadable? then MatchError
      else if req.headers[key].text == expected then Matches else Differs
    case Iprange(range, parsed) =>
      if '/' !in range || parsed.None? || req.ipv4.None? then MatchError
      else if req.ipv4.value / parsed.value.blockSize == parsed.value.base / parsed.value.blockSize then Matches
      else Differs
  }

  /** The units are a thousandth of a second, a second, 60 seconds, 60 minutes and 24 hours. */
  lemma UnitsFit()
    ensures Second.Millis() * NANOS_PER_MILLI == NANOS_PER_SECOND && Second.Millis() == 1000 * MillionSecond.Millis()
    ensures Minute.Millis() == 60 * Second.Millis() && Hour.Millis() == 60 * Minute.Millis()
    ensures Day.Millis() == 24 * Hour.Millis()
  {
  }

  /**
   * WHO IS COUNTED. A limit on an address counts that address and no other; one on a header the requests with
   * that text in it; one on an address range those in the block around its base, the addresses from a
   * multiple of the block size up to the next. A range that is none, and an unreadable header, are errors.
   */
  lemma ScopeCountsExactly(scope: LimitLocation, req: Request)
    ensures scope.IP? ==>
              Matched(scope, req) == if req.remoteIp == scope.value then Matches else Differs
    ensures scope.Header? ==>
              && (Matched(scope, req) == Matches <==>
                    scope.key in req.headers && req.headers[scope.key] == Readable(scope.expected))
              && (Matched(scope, req) == MatchError <==> scope.key in req.headers && req.headers[scope.key].Unreadable?)
    ensures scope.Iprange? ==>
              && (Matched(scope, req) == MatchError <==>
                    '/' !in scope.range || scope.parsed == None || req.ipv4 == None)
              && (Matched(scope, req) == Matches <==>
                    && '/' in scope.range && scope.parsed.Some? && req.ipv4.Some?
                    && exists block :: InBlock(scope.parsed.value.blockSize, block, scope.parsed.value.base)
                                       && InBlock(scope.parsed.value.blockSize, block, req.ipv4.value))
  {
    if scope.Iprange? && scope.parsed.Some? && req.ipv4.Some? {
      BlockOf(scope.parsed.value.blockSize, scope.parsed.value.base);
      BlockOf(scope.parsed.value.blockSize, req.ipv4.value);
    }
  }

  predicate InBlock(size: Pos, block: int, address: nat) {
    block * size <= address < block * size + size
  }

  lemma BlockOf(size: Pos, address: nat)
    ensures InBlock(size, address / size, address)
    ensures forall block :: InBlock(size, block, address) ==> block == address / size
  {
    assert address == size * (address / size) + address % size;
    forall block | InBlock(size, block, address) ensures block == address / size {
      ModUnique(address, size, block, address - block * size);
    }
  }

  /** The four headers of a 429 answer; `remaining` is always 0. */
  datatype LimitHeaders = LimitHeaders(limit: int, reset: nat, retryAfter: nat)

  /** `Pass` is `Ok(None)`, `Limited` is `Ok(Some(headers))`; `Panic` is an aborted request. */
  datatype Verdict = Pass | Limited(headers: LimitHeaders) | Failed | Panic
}
