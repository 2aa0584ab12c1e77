# A verified model of the Spire gateway's decisions

Spire is a reverse proxy. For every request it chooses a route, asks the route's middleware chain,
and picks a backend, all under one lock; timers, health checks and the admin API change the same
state. This project models that state and every operation on it in Dafny, and proves what holds over
whole runs: rate limits, breaker behaviour, balancing, failover, route choice, and configuration
upkeep.

Classes stand for the objects the source updates in place. Each method is proved equal to a function
on values; the theorems are about runs of those functions. Clock readings, random picks, hash-map
iteration orders, evicted entries, timer failures and the regular-expression library are parameters,
so every theorem holds for all of them.

| file | what it holds |
|---|---|
| `Common.dfy`, `Http.dfy` | machine integers, floors, headers, the text library |
| `RateLimit.dfy`, `TokenBucket.dfy`, `FixedWindow.dfy` | the two limiters |
| `CircuitBreaker.dfy` | the breaker and its history |
| `Chain.dfy`, `ChainRuns.dfy` | the middleware chain over separate objects, and its runs |
| `Liveness.dfy`, `Countdown.dfy`, `WeightedRouter.dfy`, `PollRouter.dfy`, `Routers.dfy` | the routers and failover |
| `Templates.dfy`, `Matchers.dfy`, `Converter.dfy` | OpenAPI conversion, matchers with caches, route choice |
| `Gateway.dfy`, `GatewayRuns.dfy`, `GatewayEras.dfy` | the whole request step, its runs, and runs across updates of other routes |
| `Reconciler.dfy`, `Probes.dfy` | health-check tasks and probe results |
| `ControlPlane.dfy` | admin API updates |

## Where the code leaves its own promises

The model follows the code. These differences are proved:

- Token bucket: the refill is truncated to 32 bits, so a long idle time can deny, with or without tokens
  left (`IdleClientDenied`, `TokenHolderDenied`; exact condition in `AdmitsExactly`), and shut everyone
  out for as long again (`DebtLastsExactly`). The advertised Retry-After is too short for some rates
  (`RetryAfterTooShort`; exact condition in `RetryWorksExactly`).
- Fixed window: the entry called the oldest is whichever iteration yields first, possibly the current
  window's. From the third window on every request of a window can then pass (`SelfEvictionPassesAll`);
  the rate itself holds for two windows and no more (`RateHoldsExactly`), in general only with an
  eviction term, and the 32-bit counter limits that bound exactly (`WindowBoundExactly`).
- Breaker: `half_open_requests` does not limit probes. Any value above 0 lets all calls through until the
  next outcome, 0 lets one through, so the limit holds for no configuration (`ProbesExactly`,
  `NoConfigurationLimitsProbes`). With 0, a breaker can refuse for ever (`LockoutExample`; exact condition
  in `LockoutExactly`). The proxy reports at most one outcome per forwarded request
  (`rust-proxy/src/proxy/http1/http_proxy.rs:413-420`), and none when the request times out.
- Converter: literals are not escaped, so a dot matches any character (`DotsWidenTheMatcher`); a query
  string hides concrete paths (`ConcreteWinsExactlyWithoutQuery`).
- Health-check tasks: the id counter comes round after 2^64 ids, and two tasks can then share one
  (`CounterWrapCollides`; exact conditions in `StaysInStepExactly` and `BelowCounterExactly`).
- Reload: the port check and the commit are two critical sections, so a route posted in between is lost
  unless the reloaded file has it too, even where its port stays (`PostLostOnKeptPort`; exact condition in
  `PostSurvivesReloadExactly`).

## Model

| member | source | states |
|---|---|---|
| `RateLimit.ScopeCountsExactly` | rust-proxy/src/middleware/rate_limit.rs:182-213 | a limit counts exactly its address, the requests with its text in the header, or the addresses of the block around the base of its range; what is an error instead |
| `RateLimit.UnitsFit` | rust-proxy/src/middleware/rate_limit.rs:119-129 | the time units are a thousandth of a second, a second, and 60 x, 60 x and 24 x the one before |
| `TokenBuckets.TokenBucketRateLimit.ShouldLimit` | rust-proxy/src/middleware/rate_limit.rs:216-254 | one call in place: unmatched requests and a backward clock change nothing, else refill, spend or deny, as the value step the lemmas below are about |
| `TokenBuckets.AdmissionsWithinRate` | rust-proxy/src/middleware/rate_limit.rs:225-239 | rate bound over every run and clock, wraps included: requests let through by a time, plus what is still available then, never exceed the starting count plus floor(rate x elapsed ms / unit) |
| `TokenBuckets.BurstWithinCapacity` | rust-proxy/src/middleware/rate_limit.rs:232-234 | the same bound as a burst of at most the capacity plus the nominal rate; the count never passes the capacity |
| `TokenBuckets.OnlyScopeCounts` | rust-proxy/src/middleware/rate_limit.rs:217-223 | over every run, requests outside the scope pass, or fail if their header is unreadable, and leave no trace: the ledger is that of the requests in scope alone |
| `TokenBuckets.BackwardClockFails` | rust-proxy/src/middleware/rate_limit.rs:225-227 | a clock behind the last refill is an error without a change |
| `TokenBuckets.DenialTells` | rust-proxy/src/middleware/rate_limit.rs:241-252 | a denied client is told the capacity as limit and as reset the second floor(unit / rate) ms after the last refill; a rate of 0 panics, a reset before the epoch is an error |
| `TokenBuckets.TokensConserved` | rust-proxy/src/middleware/rate_limit.rs:228-239 | without wrapping, tokens generated over a run are exactly those in the bucket, spent, or cut off by the capacity |
| `TokenBuckets.AtLeastHalfTheRate` | rust-proxy/src/middleware/rate_limit.rs:228-235 | although every refill drops fractions, a run generates at least half of what the consumed milliseconds are worth and a quarter of what the clock advance is worth |
| `TokenBuckets.DenialChangesNothing` | rust-proxy/src/middleware/rate_limit.rs:232-241 | with positive rate and capacity and no wrap, a counted request passes iff a token is there or due, and a denied one leaves the bucket untouched |
| `TokenBuckets.DeniedRunChangesNothing` | rust-proxy/src/middleware/rate_limit.rs:225-252 | any run in which no counted request passes leaves count and last update time as they were |
| `TokenBuckets.PollingDoesNotPostpone` | rust-proxy/src/middleware/rate_limit.rs:225-239 | from an empty bucket, any number of early requests postpone nothing, and the first one passes iff ceil(unit/rate) ms have gone by |
| `TokenBuckets.AdmitsExactly` | rust-proxy/src/middleware/rate_limit.rs:232-239 | whatever is in the bucket and whatever wraps: with no token due a request passes iff the count is positive, with some due iff the capacity is positive and count plus due, modulo 2^32, is a positive i32 |
| `TokenBuckets.EmptyBucketAdmits` | rust-proxy/src/middleware/rate_limit.rs:232-239 | in particular an empty bucket admits iff the refill truncated to 32 bits is positive |
| `TokenBuckets.IdleClientDenied` | rust-proxy/src/middleware/rate_limit.rs:233-233 | so the truncation denies a client after 36 idle minutes at 1000 tokens per millisecond, leaving a negative count |
| `TokenBuckets.TokenHolderDenied` | rust-proxy/src/middleware/rate_limit.rs:233-233 | and a client with a token left after 2147483647 idle ms at one token per millisecond, leaving -2^31, which takes another 2^31 + 1 ms to earn back |
| `TokenBuckets.DebtLastsExactly` | rust-proxy/src/middleware/rate_limit.rs:225-241 | a count at or below 0 shuts everyone out for exactly ceil(unit x (1 - count) / rate) ms: nothing passes in any run that ends before, whatever the clock does, and a matched request with none before it passes iff that time is over |
| `TokenBuckets.RetryAfterSuffices` | rust-proxy/src/middleware/rate_limit.rs:242-250 | when the rate divides the unit or rounding up to seconds leaves room, a client denied with an empty bucket, not by a wrap, that waits for Retry-After is let through; the wait itself cannot wrap |
| `TokenBuckets.RetryAfterTooShort` | rust-proxy/src/middleware/rate_limit.rs:242-250 | otherwise a client denied at the last refill that waits exactly as told is denied again |
| `TokenBuckets.RetryWorksExactly` | rust-proxy/src/middleware/rate_limit.rs:241-250 | so the advertised wait works after every such denial iff that guard holds |
| `TokenBuckets.RetryCoversToken` | rust-proxy/src/middleware/rate_limit.rs:242-243 | the guard of the two lemmas above holds iff the advertised seconds cover ceil(unit/rate) ms |
| `TokenBuckets.RetryAfterExample` | rust-proxy/src/middleware/rate_limit.rs:242-243 | 3599 per hour advertises one second, which is too short |
| `FixedWindows.FixedWindowRateLimit.ShouldLimit` | rust-proxy/src/middleware/rate_limit.rs:267-307 | one call in place: evict from a full map, count in the window's entry with wrapping, compare, and answer with headers from later clock readings |
| `FixedWindows.TimeKeyIsWindowNumber` | rust-proxy/src/middleware/rate_limit.rs:166-180 | the time key is the number of the window the instant falls in, for every unit |
| `FixedWindows.CountersConserved` | rust-proxy/src/middleware/rate_limit.rs:278-284 | over every run and eviction choice the map holds at most three entries, and a window's live count plus what its evictions lost is the number of requests counted in it |
| `FixedWindows.AdmissionsPerWindow` | rust-proxy/src/middleware/rate_limit.rs:278-288 | for every eviction choice, at most rate x (1 + evictions of the window's entry) requests pass in a window of at most 2^31 + rate requests |
| `FixedWindows.WindowBoundExactly` | rust-proxy/src/middleware/rate_limit.rs:283-288 | that bound holds for all runs with at most n requests per window iff n <= 2^31 + rate: the wrapping counter breaks it beyond |
| `FixedWindows.LongBurst` | rust-proxy/src/middleware/rate_limit.rs:283-288 | the burst of 2^31 + rate + 1 requests that breaks it |
| `FixedWindows.TwoWindowsStayWithinRate` | rust-proxy/src/middleware/rate_limit.rs:278-288 | a run that has seen at most two windows evicts nothing, and the rate itself is the bound |
| `FixedWindows.SelfEvictionPassesAll` | rust-proxy/src/middleware/rate_limit.rs:274-288 | from the third window on, if iteration always yields the current window's entry first, any number of requests in it all pass, for every positive rate |
| `FixedWindows.RateHoldsExactly` | rust-proxy/src/middleware/rate_limit.rs:274-288 | at most the rate in every window holds for all runs of requests in a set of windows iff there are at most two of them |
| `FixedWindows.RetryAfterLeavesWindow` | rust-proxy/src/middleware/rate_limit.rs:291-296 | however far apart the three clock readings of a call are, also across a window boundary, waiting the advertised Retry-After from the last one ends in a later window than the one counted in and the one described |
| `FixedWindows.DenialTells` | rust-proxy/src/middleware/rate_limit.rs:290-303 | for units of a second and more a denied client is told the rate, the end of its window, and a wait of at least a second but no whole second past that end |
| `FixedWindows.DenialFailsExactly` | rust-proxy/src/middleware/rate_limit.rs:291-295 | the denial is an error exactly when a later clock reading is before the epoch |
| `FixedWindows.OnlyScopeCounts` | rust-proxy/src/middleware/rate_limit.rs:271-278 | over every run, requests outside the scope pass and leave no trace; an unreadable header and a clock before the epoch are errors without a trace |
| `CircuitBreakers.CircuitBreaker.IsCallAllowed` | rust-proxy/src/middleware/circuit_breaker.rs:110-127 | the answer and the Open to HalfOpen move, in place |
| `CircuitBreakers.CircuitBreaker.RecordSuccess` | rust-proxy/src/middleware/circuit_breaker.rs:129-151 | the state after a reported success, in place |
| `CircuitBreakers.CircuitBreaker.RecordFailure` | rust-proxy/src/middleware/circuit_breaker.rs:153-188 | the state after a reported failure, in place, with wrapping counters |
| `CircuitBreakers.ClosedStateIsHistory` | rust-proxy/src/middleware/circuit_breaker.rs:129-188 | while closed, the counters are the failures, the length and the trailing failures of the outcomes since the last close, and none of those outcomes was a trip point |
| `CircuitBreakers.OpensExactlyAtTripPoint` | rust-proxy/src/middleware/circuit_breaker.rs:160-176 | a closed breaker opens on an event iff it is a failure completing a trip point of that history, and then until open_duration later; what a trip point means in numbers is the next row |
| `CircuitBreakers.OpensExactlyAtThresholds` | rust-proxy/src/middleware/circuit_breaker.rs:160-176 | with f failures among n outcomes since the last close, that failure included, and n below 2^64, it opens iff the final run of failures reaches the consecutive threshold, or n reaches the minimum and failureRate x n <= f; no other event opens it |
| `CircuitBreakers.MoreFailuresOpenToo` | rust-proxy/src/middleware/circuit_breaker.rs:169-176 | of two histories of one length, the one with at least as many failures and as long a final run opens whenever the other does |
| `CircuitBreakers.HalfOfTen` | rust-proxy/src/middleware/circuit_breaker.rs:170-176 | with threshold one half and ten outcomes, one failure does not open the breaker and five do |
| `CircuitBreakers.AtTheWrap` | rust-proxy/src/middleware/circuit_breaker.rs:169-172 | when the 64-bit outcome counter has just come round to 0, any failure counted makes the rate infinite and opens a breaker without a minimum |
| `CircuitBreakers.HalfOpenCountsNothing` | rust-proxy/src/middleware/circuit_breaker.rs:113-125 | every reachable HalfOpen has both probe counters at 0 |
| `CircuitBreakers.HalfOpenEndsOnFirstOutcome` | rust-proxy/src/middleware/circuit_breaker.rs:125-185 | any number of calls leaves HalfOpen as it is; the first outcome ends it, a success by closing and a failure by opening |
| `CircuitBreakers.ProbesExactly` | rust-proxy/src/middleware/circuit_breaker.rs:110-127 | over every run, of the calls past an open breaker's deadline before the next outcome all are let through if half_open_requests is positive, and exactly the first if it is 0 |
| `CircuitBreakers.FailuresTrip` | rust-proxy/src/middleware/circuit_breaker.rs:153-188 | every configuration can be tripped: failures on end open the breaker at the latest at max(1, consecutive threshold) |
| `CircuitBreakers.LimitsProbesExactly` | rust-proxy/src/middleware/circuit_breaker.rs:110-127 | all runs keep the probes after a trip to at most a given number iff half_open_requests is 0 and that number is at least 1 |
| `CircuitBreakers.NoConfigurationLimitsProbes` | rust-proxy/src/middleware/circuit_breaker.rs:110-127 | so at most half_open_requests probes holds for no configuration, 0 included |
| `CircuitBreakers.StaysOpenUntilDeadline` | rust-proxy/src/middleware/circuit_breaker.rs:113-124 | after a trip no call and no late outcome moves the breaker before its deadline |
| `CircuitBreakers.TripsAreSpaced` | rust-proxy/src/middleware/circuit_breaker.rs:110-194 | with a monotone clock and any interleaving, no call is let through and no further trip happens within open_duration of a trip |
| `CircuitBreakers.RefusedExactly` | rust-proxy/src/middleware/circuit_breaker.rs:110-127 | after every run a call is refused iff the breaker tripped less than open_duration ago and has not moved since, or is half open and allows no probes |
| `Chains.Middleware.CheckRequest` | rust-proxy/src/middleware/middlewares.rs:160-172 | dispatch of one middleware over its own object; limiters stand aside when there are no headers |
| `Chains.IsAllowed` | rust-proxy/src/vojo/app_config.rs:170-184 | the loop over separate objects leaves them as the short-circuiting walk says and returns its answer |
| `Chains.HandleBeforeResponse` | rust-proxy/src/proxy/proxy_trait.rs:93-95 | an outcome is recorded by every breaker of the chain and changes nothing else |
| `ChainRuns.ReportInTurns` | rust-proxy/src/proxy/proxy_trait.rs:93-95 | taking one breaker after the other, with nothing in between, records the same as one step; runs allow any requests in between |
| `ChainRuns.WalkRunsAPrefix` | rust-proxy/src/vojo/app_config.rs:176-183 | exactly the middlewares up to the first refusal or error change; a request passes iff every middleware allows it |
| `ChainRuns.RefusalTellsWhy` | rust-proxy/src/vojo/app_config.rs:176-181 | a refused request gets the answer of the first middleware that does not let it on: 503 from a breaker that refuses, 429 with the limiter's own headers, a check's own answer |
| `ChainRuns.LimitersNeedHeaders` | rust-proxy/src/middleware/middlewares.rs:160-172 | a request without headers passes every chain of limiters and passive middlewares and changes nothing |
| `ChainRuns.BucketRunsAlone` | rust-proxy/src/vojo/app_config.rs:170-184 | over any run a token bucket in a chain is where its own run on the requests that reach it leads |
| `ChainRuns.ChainWithinEveryBucket` | rust-proxy/src/vojo/app_config.rs:170-184 | requests the whole chain lets through stay within the bound of every token bucket in it |
| `ChainRuns.ChainWithinEveryWindow` | rust-proxy/src/vojo/app_config.rs:170-184 | and within rate x (1 + evictions) of every fixed window in it |
| `ChainRuns.BreakerRunsAlone` | rust-proxy/src/middleware/middlewares.rs:188-195 | over any run a breaker in a chain is in the state its own calls and outcomes lead to |
| `ChainRuns.PassedMeansBreakersAllow` | rust-proxy/src/vojo/app_config.rs:176-181 | no request passes while some breaker of the chain refuses |
| `ChainRuns.OpenBreakerBlocksChain` | rust-proxy/src/vojo/app_config.rs:176-181 | once a breaker of the chain is open, nothing passes the chain before its deadline, whatever outcomes arrive |
| `ChainRuns.InertBreakerBlocksChain` | rust-proxy/src/vojo/app_config.rs:176-181 | as long as no event moves a refusing breaker it stays as it is and nothing passes the chain, whatever the other middlewares do |
| `WeightedRouters.WeightBasedRoute.GetRoute` | rust-proxy/src/vojo/router.rs:647-698 | pick, counter update and reset, in place |
| `WeightedRouters.WeightBasedRoute.UpdateRouteAlive` | rust-proxy/src/vojo/router.rs:699-710 | health of the matching backends set in place, nothing else |
| `WeightedRouters.ServeIsCountdown` | rust-proxy/src/vojo/router.rs:653-690 | a pick takes one unit from the first candidate with something left of its quota, refilling all first if none has |
| `WeightedRouters.FollowsSchedule` | rust-proxy/src/vojo/router.rs:647-698 | closed form for every call from every state: first the rest of the round, then the cumulative-weight interval of k mod W for ever |
| `WeightedRouters.PicksItsInterval` | rust-proxy/src/vojo/router.rs:647-698 | the same with intervals: call k picks the candidate whose cumulative interval contains k in the rest of the round, and k minus that rest modulo W afterwards |
| `WeightedRouters.RoundEndsExactly` | rust-proxy/src/vojo/router.rs:654-682 | all quotas are used after exactly the sum of max(0, weight - index) calls and not earlier |
| `WeightedRouters.BlockServesWeights` | rust-proxy/src/vojo/router.rs:654-689 | from used-up quotas a block of W calls picks each candidate exactly max(0, weight) times and ends used up |
| `WeightedRouters.FailsExactly` | rust-proxy/src/vojo/router.rs:648-690 | a call errs iff there is no backend, or no candidate has any weight or anything left |
| `Countdown.SlotInterval` | rust-proxy/src/vojo/router.rs:664-689 | the slot a number falls in is the one whose cumulative interval contains it |
| `Countdown.FullPass` | rust-proxy/src/vojo/router.rs:654-664 | a full pass over the quotas names each slot exactly its quota's number of times |
| `PollRouters.PollRoute.GetRoute` | rust-proxy/src/vojo/router.rs:562-602 | pick and index update, in place |
| `PollRouters.PollRoute.UpdateRouteAlive` | rust-proxy/src/vojo/router.rs:603-614 | health of the matching backends set in place, nothing else |
| `PollRouters.Cycles` | rust-proxy/src/vojo/router.rs:562-602 | from any index, also one left by a larger set, call m picks candidate (p + m) mod k |
| `PollRouters.RoundRobinBalanced` | rust-proxy/src/vojo/router.rs:562-602 | m calls pick each of k candidates floor(m/k) or ceil(m/k) times, k consecutive calls each exactly once |
| `Routers.RandomRoute.GetRoute` | rust-proxy/src/vojo/router.rs:505-534 | the pick for a random choice among all, or among the live backends |
| `Routers.HeaderBasedRoute.GetRoute` | rust-proxy/src/vojo/router.rs:399-468 | the first considered rule that matches or errs, else the first rule |
| `Routers.HeaderRoutesExactly` | rust-proxy/src/vojo/router.rs:399-468 | it names position i iff rule i is the first live rule that matches, none before it erring, or no live rule matches or errs and i is 0 |
| `Routers.RulesTake` | rust-proxy/src/vojo/router.rs:413-457 | without the header a rule misses, with an unreadable one it errs; when a text, a split and a pattern rule match, and when a pattern errs |
| `Routers.TextRulesRouteByValue` | rust-proxy/src/vojo/router.rs:430-439 | among live text rules on one header, the first with the request's text gets it, and the first of all gets the rest |
| `Liveness.NoCandidates` | rust-proxy/src/vojo/router.rs:583-587 | a blind pick happens only when every backend is known to be down |
| `Liveness.CandidatesExactly` | rust-proxy/src/vojo/router.rs:566-581 | until every backend has been probed all take part, from then on exactly those that are up, in order and once each |
| `Routers.PickInRange` | rust-proxy/src/vojo/router.rs:96-113 | a pick names a backend and changes no endpoint, health or order |
| `Routers.PicksExactly` | rust-proxy/src/vojo/router.rs:96-113 | a router names a backend iff it has one, some weight among its candidates, and no header rule that errs before one that matches, whatever is drawn |
| `Routers.BlindPickIsAny` | rust-proxy/src/vojo/router.rs:583-587 | with every backend down any of them can be drawn; only a weighted router counts the pick |
| `Routers.RandomPicksAreCandidates` | rust-proxy/src/vojo/router.rs:505-534 | a random router can draw exactly the backends that may serve, while there is one |
| `Routers.RequestsGoRound` | rust-proxy/src/vojo/router.rs:562-602 | between two probes, whatever requests a polling router has served, its next pick is the candidate that many places on, round and round |
| `Routers.RequestsFollowWeights` | rust-proxy/src/vojo/router.rs:647-698 | between two probes, a weighted router's next pick is the candidate in whose cumulative interval the number of requests served falls |
| `Routers.HealthIsLastResult` | rust-proxy/src/vojo/router.rs:127-143 | over every interleaving of picks and probes a backend's health is its last result or what it was |
| `Routers.ProbesDecideHealth` | rust-proxy/src/vojo/router.rs:127-143 | over every run a backend is up iff its last probe succeeded, down iff it failed, and as at the start if there was none |
| `Routers.KnownStaysKnown` | rust-proxy/src/vojo/router.rs:603-614 | known status never becomes unknown again |
| `Routers.FailoverSafety` | rust-proxy/src/vojo/router.rs:399-710 | once all are known and while one is up, no successful pick is dead and a header router's pick has a matching rule, except its first-rule fallback when no live rule matches |
| `Templates.ReplaceRendered` | rust-proxy/src/command/openapi_converter.rs:31-55 | replacing placeholders in a template's text gives the template's pattern body |
| `Templates.ConvertedMatcherAcceptsInstances` | rust-proxy/src/command/openapi_converter.rs:54-59 | for every well-formed template without metacharacters the emitted matcher accepts exactly the template's instances |
| `Templates.DotsWidenTheMatcher` | rust-proxy/src/command/openapi_converter.rs:55-55 | among templates with placeholders and plain or dot literals, the matcher means the template iff there is no dot |
| `Matchers.MatchersTake` | rust-proxy/src/vojo/matcher.rs:100-131 | a prefix matcher takes what begins with its value, an exact one only the value, a pattern one what its pattern matches; a method matcher the methods it lists |
| `Matchers.LiteralHeaderMatches` | rust-proxy/src/vojo/matcher.rs:133-213 | for a plain text, a header matcher takes exactly the requests with that text in the header, a host matcher those with it in the host header |
| `Matchers.MatcherRule.IsMatch` | rust-proxy/src/vojo/matcher.rs:83-213 | whatever was asked before, the answer is that of a freshly loaded rule, and a filled cache holds what the value compiles to |
| `Matchers.RouteConfig.MatchAndRewrite` | rust-proxy/src/vojo/app_config.rs:134-168 | a route answers with the rewritten path iff all its fresh matchers match, keeping the caches right |
| `Matchers.ScoreIsLongestPrefix` | rust-proxy/src/proxy/proxy_trait.rs:145-155 | the score is the length of the longest path value that is literally a prefix of the request path |
| `Matchers.FindBest` | rust-proxy/src/proxy/proxy_trait.rs:142-167 | the loop returns the earliest matching route of highest score and its rewritten path, or nothing iff none matches |
| `Matchers.BestHasLongestPrefix` | rust-proxy/src/proxy/proxy_trait.rs:145-165 | no matching route has a longer literal prefix than the best one, and none before it one as long |
| `Matchers.BestIsUnique` | rust-proxy/src/proxy/proxy_trait.rs:157-165 | there is at most one such route |
| `Matchers.SomeBest` | rust-proxy/src/proxy/proxy_trait.rs:142-167 | there is a best route iff some route matches |
| `Converters.Convert` | rust-proxy/src/command/openapi_converter.rs:14-82 | the nested loops produce what the jobs of the document produce in order, or fail on a server that does not parse |
| `Converters.ServiceIsItsJobs` | rust-proxy/src/command/openapi_converter.rs:36-77 | each service sits at its port, has the protocol of the first server that asked for the port, and exactly the routes its paths, methods and servers ask for, in document order |
| `Converters.ServicesAreAtServerPorts` | rust-proxy/src/command/openapi_converter.rs:15-77 | for a document with an operation, services are exactly at the ports its servers name, 80 where one names none, and 8080 without servers; all routes go to the first server |
| `Converters.JobAt` | rust-proxy/src/command/openapi_converter.rs:32-77 | the loops turn path by path, method by method and server by server, in document order |
| `Converters.JobsCount` | rust-proxy/src/command/openapi_converter.rs:32-36 | and exactly once for each server of each operation |
| `Converters.ConvertedRouteTakesInstances` | rust-proxy/src/command/openapi_converter.rs:52-75 | a converted route takes exactly the requests of its method whose path is an instance of its template, and keeps their path |
| `Converters.ConcreteWins` | rust-proxy/src/proxy/proxy_trait.rs:142-167 | without a query an exact concrete path with that method wins over every templated route, also earlier ones |
| `Converters.ConvertedServiceServesConcretePath` | rust-proxy/src/command/openapi_converter.rs:32-77 | end to end from the document: at each server's port exactly one route is best for an exact concrete request, and it is that path's |
| `Converters.ConcreteWinsExactlyWithoutQuery` | rust-proxy/src/proxy/proxy_trait.rs:127-144 | for a document with the requested concrete path, the winner is concrete iff the request has no query |
| `Converters.QueryPicksTheTemplate` | rust-proxy/src/proxy/proxy_trait.rs:127-144 | GET /users/me?x=1 goes to /users/{id} |
| `Gateways.GetDestination` | rust-proxy/src/proxy/proxy_trait.rs:131-217 | one atomic step on the shared objects: the early errors for a missing path, timeout setting or port in their order and without a change; else choice, chain of the winner only, then its router only if the chain allows, and the forwarded path; the request's context gets the winner's middlewares iff it is forwarded |
| `Gateways.ResultTellsWhy` | rust-proxy/src/proxy/proxy_trait.rs:142-217 | no match iff no route matches; else refused, with the chain's reason, iff the winner's chain does not allow it, no backend iff the chain does but the router has none, forwarded otherwise |
| `Gateways.ForwardGoesWhere` | rust-proxy/src/proxy/proxy_trait.rs:178-215 | a forwarded request goes to a backend of the winning route, at its endpoint followed by the path as the route rewrites it; for gRPC the path alone, a file under the document root unless absolute; with the route's own timeout or else the configured one |
| `Gateways.PathsRewriteSo` | rust-proxy/src/vojo/app_config.rs:149-167 | the path stays without a rewrite or path matcher; else the first path matcher's pattern is replaced by the library if it compiles, or as a literal prefix |
| `GatewayRuns.RouteRunsAlone` | rust-proxy/src/proxy/proxy_trait.rs:142-178 | over every run a route's chain and router are where its own requests, outcomes and probes lead |
| `GatewayRuns.GatewayWithinEveryBucket` | rust-proxy/src/proxy/proxy_trait.rs:168-178 | what a route forwards stays within the bound of every token bucket in its chain, over runs of the whole gateway |
| `GatewayRuns.GatewayWithinEveryWindow` | rust-proxy/src/proxy/proxy_trait.rs:168-178 | and within rate x (1 + evictions) of every fixed window in its chain |
| `GatewayRuns.OpenBreakerBlocksRoute` | rust-proxy/src/proxy/proxy_trait.rs:168-176 | once a breaker of a route is open, no request is forwarded by that route before the deadline, whatever the gateway does meanwhile |
| `GatewayRuns.ShutStaysShut` | rust-proxy/src/middleware/circuit_breaker.rs:113-125 | with nothing in flight, a half-open breaker that allows no probes never hears an outcome: it stays shut and its route forwards nothing, in every run |
| `GatewayRuns.ForwardsExactly` | rust-proxy/src/proxy/proxy_trait.rs:168-178 | a request past a middleware that allows it is forwarded iff every later middleware allows it and the router has a destination |
| `GatewayRuns.LockoutExactly` | rust-proxy/src/middleware/circuit_breaker.rs:110-127 | the request that finds a breaker open past its deadline makes it refuse for ever iff half_open_requests is 0, nothing was in flight, and a later middleware refuses that request or the router has no backend for it |
| `GatewayRuns.LockoutExample` | rust-proxy/src/middleware/circuit_breaker.rs:110-127 | after one failure one request without a login locks a route with such a breaker in front of a login check for ever |
| `GatewayRuns.ForwardedBackendIsUp` | rust-proxy/src/proxy/proxy_trait.rs:178-215 | from a point of the run on where a route's backends are all known, and while one is up, a request it forwards goes to a live backend, whose rule matches on a header-based route, or is its first-rule fallback when no live rule matches |
| `GatewayEras.SurvivorRunsAlone` | rust-proxy/src/control_plane/rest_api.rs:69-163 | across any number of posts, puts and deletes of other routes, a surviving route's chain and router are where all its own requests, outcomes and probes lead |
| `GatewayEras.SurvivorWithinEveryBucket` | rust-proxy/src/control_plane/rest_api.rs:69-163 | over all of that time, what it forwards stays within the bound of every token bucket in its chain, from its first state on |
| `Reconcilers.HealthCheck.DoHealthCheck` | rust-proxy/src/health_check/health_check_task.rs:122-185 | one pass in place over the map, the counter and the timer, for any failures and any visiting order |
| `Reconcilers.WantedExactly` | rust-proxy/src/health_check/health_check_task.rs:125-146 | a task is wanted iff some route has exactly its id, check, liveness and endpoints |
| `Reconcilers.HealthCheck.RetainWanted` | rust-proxy/src/health_check/health_check_task.rs:148-159 | stale entries leave the map and the timer unless the timer refuses |
| `Reconcilers.HealthCheck.SubmitMissing` | rust-proxy/src/health_check/health_check_task.rs:162-182 | each missing key uses up an id and gets an entry iff the timer takes the task |
| `Reconcilers.PassKeepsInvariant` | rust-proxy/src/health_check/health_check_task.rs:148-182 | a pass keeps ids distinct, handed out before and the timer's live tasks equal to the map's, and ids below the 64-bit counter until it comes round |
| `Reconcilers.ReachableInvariant` | rust-proxy/src/health_check/health_check_task.rs:122-185 | so does every run of passes from the empty map, whatever fails, while at most 2^64 ids are handed out; ids are below the counter while fewer are |
| `Reconcilers.CounterWrapCollides` | rust-proxy/src/health_check/health_check_task.rs:167-177 | a run of passes from the empty map that hands out one id more and ends with two running tasks under id 0: one task's insertion fails until the counter has come round |
| `Reconcilers.StaysInStepExactly` | rust-proxy/src/health_check/health_check_task.rs:148-182 | all runs handing out at most n ids keep ids distinct and map and timer in step iff n <= 2^64 |
| `Reconcilers.BelowCounterExactly` | rust-proxy/src/health_check/health_check_task.rs:167-177 | all runs handing out at most n ids keep every id below the counter iff n < 2^64 |
| `Reconcilers.FaultFreePassConverges` | rust-proxy/src/health_check/health_check_task.rs:148-182 | a pass without failures makes the keys the wanted ones and keeps surviving ids |
| `Reconcilers.ChangedRouteStartsOver` | rust-proxy/src/health_check/health_check_task.rs:148-182 | when a route changes in anything its task depends on, a pass without failures ends the old task and starts one under a new id |
| `Reconcilers.CallsAreCounted` | rust-proxy/src/health_check/health_check_task.rs:162-182 | submitting calls the timer once for every missing task that could be built |
| `Reconcilers.RemovalsAreCounted` | rust-proxy/src/health_check/health_check_task.rs:148-159 | removing calls it once for every stale task |
| `Reconcilers.WantedTasksUndisturbed` | rust-proxy/src/health_check/health_check_task.rs:148-182 | whatever fails, a wanted running task keeps its id |
| `Reconcilers.ConvergedPassIsIdle` | rust-proxy/src/health_check/health_check_task.rs:148-182 | repeating a pass on the same configuration calls the timer for nothing |
| `Probes.SharedConfig.ApplyResults` | rust-proxy/src/health_check/health_check_task.rs:230-261 | the join loop writes each conclusive result into the first route with the id, in place |
| `Probes.BatchChangesOneRouter` | rust-proxy/src/health_check/health_check_task.rs:234-245 | a batch changes that one router and nothing else, or nothing if the route is gone |
| `Probes.BatchEntryByEntry` | rust-proxy/src/health_check/health_check_task.rs:230-261 | entry by entry, the first route with the id gets what the batch makes of its router, every other entry stays |
| `Probes.FindIsFirst` | rust-proxy/src/health_check/health_check_task.rs:234-245 | the route found is the first with the id, and none is found only if there is none |
| `Probes.BatchIsRelabelling` | rust-proxy/src/health_check/health_check_task.rs:246-255 | after a batch each backend's health is its last conclusive verdict; order, weights, counters and indices stay; which replies count is the next row |
| `Probes.RepliesDecide` | rust-proxy/src/health_check/health_check_task.rs:246-255 | after a batch a backend is up if the last 200 or failed request about its endpoint was a 200, down if it was a failed request, and as before if there was none |
| `Probes.OnlyTheLiveOneIsPicked` | rust-proxy/src/health_check/health_check_task.rs:230-261 | after a batch in which one endpoint answered 200 and every other request failed, a pick goes to that endpoint, header fallback excepted |
| `Probes.JoinOrderIrrelevant` | rust-proxy/src/health_check/health_check_task.rs:230-261 | all join orders leave the same router iff no two conclusive results about one of its backends disagree |
| `ControlPlanes.Load` | rust-proxy/src/vojo/app_config.rs:71-82 | services keyed by listen port, later ones replacing earlier |
| `ControlPlanes.LoadedWellFormed` | rust-proxy/src/vojo/app_config.rs:77-81 | a loaded configuration files every service under its own port |
| `ControlPlanes.LoadedExactly` | rust-proxy/src/vojo/app_config.rs:77-81 | a port is loaded iff some service listens on it, and what is loaded is the last such service |
| `ControlPlanes.ControlPlane.PostAppConfig` | rust-proxy/src/control_plane/rest_api.rs:69-84 | append to the service found by its port, insert otherwise, refuse an empty route list |
| `ControlPlanes.PostOnWellFormed` | rust-proxy/src/control_plane/rest_api.rs:69-84 | exactly one route or one service is added at the port, everything else stays, and when it is refused |
| `ControlPlanes.ControlPlane.DeleteRoute` | rust-proxy/src/control_plane/rest_api.rs:115-125 | the rebuilt map |
| `ControlPlanes.KeepIsSubsequence` | rust-proxy/src/control_plane/rest_api.rs:118-120 | retained routes keep their order and are exactly those with another id |
| `ControlPlanes.DeleteRemovesExactlyTheId` | rust-proxy/src/control_plane/rest_api.rs:116-125 | the id is gone everywhere, other routes stay, services left empty are dropped |
| `ControlPlanes.DeletedIsGone` | rust-proxy/src/control_plane/rest_api.rs:115-125 | over runs, right after a delete exactly the earlier routes with another id are in force and no service is empty |
| `ControlPlanes.DeleteTwice` | rust-proxy/src/control_plane/rest_api.rs:116-125 | deleting again changes nothing |
| `ControlPlanes.ControlPlane.PutRoute` | rust-proxy/src/control_plane/rest_api.rs:156-163 | the first route with the id is replaced in place |
| `ControlPlanes.PutReplaces` | rust-proxy/src/control_plane/rest_api.rs:156-163 | a put that succeeds has the route in the place of the first with its id at one port and changes nothing else; a refused one changes nothing |
| `ControlPlanes.PutIsInForce` | rust-proxy/src/control_plane/rest_api.rs:156-163 | over runs, right after a put the route is in force, or no route had its id and nothing changed |
| `ControlPlanes.PutKeepsIds` | rust-proxy/src/control_plane/rest_api.rs:156-163 | every service keeps its port and sequence of route ids; refused iff no route has the id |
| `ControlPlanes.PutAfterDeleteRefused` | rust-proxy/src/control_plane/rest_api.rs:115-163 | a deleted id can no longer be put |
| `ControlPlanes.RunsStaySound` | rust-proxy/src/control_plane/rest_api.rs:68-217 | every interleaving of post, put, delete and two-step reloads keeps every service under its own port |
| `ControlPlanes.PendingWasAccepted` | rust-proxy/src/control_plane/rest_api.rs:193-217 | over every run, each waiting reload was accepted by one earlier check against the configuration then in force |
| `ControlPlanes.ReloadWithOtherPortsIsRefused` | rust-proxy/src/control_plane/rest_api.rs:197-211 | a reload check leaves the configuration alone and is refused iff its ports differ from those in force |
| `ControlPlanes.ReloadsWaitForTheirCommit` | rust-proxy/src/control_plane/rest_api.rs:213-217 | an accepted reload waits for its own commit, whatever else happens |
| `ControlPlanes.CommitInstallsSnapshotPorts` | rust-proxy/src/control_plane/rest_api.rs:192-217 | in every run from a loaded configuration, a commit installs the well-formed configuration of one earlier accepted check and with it exactly the ports in force at that check, so it changes the ports in force unless they are the same as then |
| `ControlPlanes.PostSurvivesReloadExactly` | rust-proxy/src/control_plane/rest_api.rs:69-217 | in every run, a post between a reload's check and its commit succeeds and its route is served; after the commit the port is in force iff it was at the check, and the route iff the checked file has it at that port |
| `ControlPlanes.PostLostOnKeptPort` | rust-proxy/src/control_plane/rest_api.rs:69-217 | a route posted at a port that stays is gone after the commit of a reload of the same file |

## Left out

- Servers, clients, TLS, ACME, logging, metrics, the CLI and writing files: input and output around the decisions.
- Authentication, the IP allow and deny list: any stateless check (`Check`); CORS, header edits and compression never refuse.
- Passive health checks and liveness thresholds: parsed by the source but not used by the modelled operations.
- Regular expressions outside anchors, plain characters, dots and `[^/]+`: an arbitrary library (`Library`); templates with other metacharacters have no stated meaning.
- Header names are taken as already normalised; texts are sequences of characters, not bytes.
- `f64` in the breaker's failure rate: real numbers instead, rounding at the threshold is not modelled.
- Panics: a zero rate answers `Panic` without a change; what the poisoned locks do to later requests, and overflow of clock additions at the end of time, are not modelled.
- The TCP proxy, which picks on a clone of the router and so never advances it.
- The timer's scheduling and the health probe's HTTP exchange: only which tasks run and how each probe ends.
- The reset timestamp of a fixed window in milliseconds: only its header for units of a second and more (`FixedWindows.DenialTells`).
- ReachableInvariant: holds until 2^64 task ids have been handed out, because the counter then wraps (`StaysInStepExactly`).
- RetryAfterLeavesWindow: while milliseconds since the epoch fit 64 bits.
- SurvivorRunsAlone: says nothing about a route that is itself put or reloaded; it starts over with freshly loaded limiters, breakers and router.
- RetryAfterSuffices: for denials of an empty bucket whose refill did not wrap; a wrapped refill leaves a negative count that no advertised wait covers.
