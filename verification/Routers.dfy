/** The random and header-based routers, the `Router` sum of all of them, and failover over whole runs. */
module Routers {
  import opened Common
  import opened Http
  import opened Liveness
  import PollRouters
  import WeightedRouters
  import opened Countdown

  // ---------------------------------------------------------------- random

  function RandomPick(routes: seq<BaseRoute>, rnd: nat): Option<nat> {
    var cands := PollRouters.CandidatesOf(routes);
    if routes == [] then None
    else if cands == [] then Some(Draw(rnd, |routes|))
    else Some(cands[Draw(rnd, |cands|)])
  }

  class RandomRoute {
    var routes: seq<BaseRoute>

    constructor (endpoints: seq<string>)
      ensures |routes| == |endpoints|
      ensures forall i :: 0 <= i < |endpoints| ==> routes[i] == BaseRoute(endpoints[i], Unknown)
    {
      routes := seq(|endpoints|, i requires 0 <= i < |endpoints| => BaseRoute(endpoints[i], Unknown));
    }

    method GetRoute(rnd: nat) returns (result: PickResult)
      ensures result == match RandomPick(routes, rnd) case None => NoRoute case Some(i) => Picked(routes[i])
    {
      if routes == [] {
        return NoRoute;
      }
      if Unconfigured(PollRouters.HealthOf(routes)) {
        return Picked(routes[Draw(rnd, |routes|)]);
      }
      var alive := AliveFrom(PollRouters.HealthOf(routes), 0);
      if alive == [] {
        return Picked(routes[Draw(rnd, |routes|)]);
      }
      result := Picked(routes[alive[Draw(rnd, |alive|)]]);
    }

    method UpdateRouteAlive(endpoint: string, health: Health)
      modifies this
      ensures routes == PollRouters.SetHealth(old(routes), endpoint, health)
    {
      for n := 0 to |routes|
        invariant |routes| == |old(routes)|
        invariant forall i :: 0 <= i < n ==> routes[i] == PollRouters.SetHealth(old(routes), endpoint, health)[i]
        invariant forall i :: n <= i < |routes| ==> routes[i] == old(routes)[i]
      {
        if routes[n].endpoint == endpoint {
          routes := routes[n := routes[n].(alive := health)];
        }
      }
    }
  }

  // ---------------------------------------------------------------- header based

  datatype Mapping = Regexp(pattern: string) | Text(text: string) | Split(separator: string, wanted: seq<string>)

  datatype Rule = Rule(endpoint: string, alive: Health, headerKey: string, mapping: Mapping) {
    function Base(): BaseRoute {
      BaseRoute(endpoint, alive)
    }
  }

  datatype Answer = Hit | Miss | Error

  function ValueAnswer(lib: Library, mapping: Mapping, value: string): Answer {
    match mapping
    case Regexp(pattern) =>
      if lib.Compile(pattern).None? then Error
      else if lib.isMatch(lib.Compile(pattern).value, value) then Hit else Miss
    case Text(text) => if text == value then Hit else Miss
    case Split(separator, wanted) =>
      var parts := lib.split(separator, value);
      if parts != [] && forall w :: w in wanted ==> w in parts then Hit else Miss
  }

  /** What one rule says about the headers. */
  function RuleAnswer(lib: Library, rule: Rule, headers: Headers): Answer {
    if rule.headerKey !in headers then Miss
    else match headers[rule.headerKey]
      case Unreadable => Error
      case Readable(value) => ValueAnswer(lib, rule.mapping, value)
  }

  /**
   * WHAT A RULE TAKES. Without the header a rule misses, with an unreadable one it errs. A text rule takes the
   * one text; a split rule the values whose parts, of which there are some, include every wanted one; a
   * pattern rule what the pattern matches, and it errs if the pattern does not compile.
   */
  lemma RulesTake(lib: Library, rule: Rule, headers: Headers)
    ensures RuleAnswer(lib, rule, headers) == Error <==>
              && rule.headerKey in headers
              && (|| headers[rule.headerKey] == Unreadable
                  || (rule.mapping.Regexp? && !lib.compiles(rule.mapping.pattern)))
    ensures RuleAnswer(lib, rule, headers) == Hit <==>
              exists value :: rule.headerKey in headers && headers[rule.headerKey] == Readable(value) && (
                || rule.mapping == Text(value)
                || (rule.mapping.Regexp? && lib.compiles(rule.mapping.pattern)
                    && lib.isMatch(Regex(rule.mapping.pattern), value))
                || (rule.mapping.Split? && AllAmong(rule.mapping.wanted, lib.split(rule.mapping.separator, value))))
  {
    if rule.headerKey in headers && headers[rule.headerKey].Readable? {
      var value := headers[rule.headerKey].text;
      assert headers[rule.headerKey] == Readable(value);
      if rule.mapping.Split? {
        AllAmongMeans(rule.mapping.wanted, lib.split(rule.mapping.separator, value));
      }
    }
  }

  lemma AllAmongMeans(wanted: seq<string>, parts: seq<string>)
    ensures AllAmong(wanted, parts) <==> parts != [] && forall w :: w in wanted ==> w in parts
  {
    var all := set w | w in wanted;
    if AllAmong(wanted, parts) {
      forall w | w in wanted ensures w in parts {
        assert w in all;
      }
    }
  }

  predicate AllAmong(wanted: seq<string>, parts: seq<string>) {
    parts != [] && (set w | w in wanted) <= (set p | p in parts)
  }

  function RuleHealth(rules: seq<Rule>): (health: seq<Health>)
    ensures |health| == |rules|
    ensures forall i :: 0 <= i < |rules| ==> health[i] == rules[i].alive
  {
    seq(|rules|, i requires 0 <= i < |rules| => rules[i].alive)
  }

  /** The first considered rule that does not miss; `|cands|` if all miss. */
  function FirstAnswer(lib: Library, rules: seq<Rule>, cands: seq<nat>, headers: Headers, j: nat): (k: nat)
    requires forall m :: 0 <= m < |cands| ==> cands[m] < |rules|
    requires j <= |cands|
    ensures j <= k <= |cands|
    ensures forall m :: j <= m < k ==> RuleAnswer(lib, rules[cands[m]], headers) == Miss
    ensures k < |cands| ==> RuleAnswer(lib, rules[cands[k]], headers) != Miss
    decreases |cands| - j
  {
    if j == |cands| || RuleAnswer(lib, rules[cands[j]], headers) != Miss then j
    else FirstAnswer(lib, rules, cands, headers, j + 1)
  }

  function HeaderPick(lib: Library, rules: seq<Rule>, headers: Headers): Option<nat> {
    if rules == [] then None
    else
      var cands := Candidates(RuleHealth(rules));
      var k := FirstAnswer(lib, rules, cands, headers, 0);
      if k == |cands| then Some(0)
      else if RuleAnswer(lib, rules[cands[k]], headers) == Error then None
      else Some(cands[k])
  }

  class HeaderBasedRoute {
    var routes: seq<Rule>

    constructor (routes: seq<Rule>)
      ensures this.routes == routes
    {
      this.routes := routes;
    }

    method GetRoute(lib: Library, headers: Headers) returns (result: PickResult)
      ensures result == match HeaderPick(lib, routes, headers)
                        case None => NoRoute
                        case Some(i) => Picked(routes[i].Base())
    {
      if routes == [] {
        return NoRoute;
      }
      var cands := Candidates(RuleHealth(routes));
      for j := 0 to |cands|
        invariant FirstAnswer(lib, routes, cands, headers, 0) == FirstAnswer(lib, routes, cands, headers, j)
      {
        var answer := RuleAnswer(lib, routes[cands[j]], headers);
        if answer == Error {
          return NoRoute;
        }
        if answer == Hit {
          return Picked(routes[cands[j]].Base());
        }
      }
      result := Picked(routes[0].Base());
    }

    method UpdateRouteAlive(endpoint: string, health: Health)
      modifies this
      ensures routes == SetRuleHealth(old(routes), endpoint, health)
    {
      for n := 0 to |routes|
        invariant |routes| == |old(routes)|
        invariant forall i :: 0 <= i < n ==> routes[i] == SetRuleHealth(old(routes), endpoint, health)[i]
        invariant forall i :: n <= i < |routes| ==> routes[i] == old(routes)[i]
      {
        if routes[n].endpoint == endpoint {
          routes := routes[n := routes[n].(alive := health)];
        }
      }
    }
  }

  function SetRuleHealth(rules: seq<Rule>, endpoint: string, health: Health): (after: seq<Rule>)
    ensures |after| == |rules|
  {
    seq(|rules|, i requires 0 <= i < |rules| =>
      if rules[i].endpoint == endpoint then rules[i].(alive := health) else rules[i])
  }

  // ---------------------------------------------------------------- any router

  datatype Router =
    | StaticFile(docRoot: string)
    | Poll(index: int, polled: seq<BaseRoute>)
    | HeaderBased(rules: seq<Rule>)
    | Random(targets: seq<BaseRoute>)
    | WeightBased(items: seq<WeightedRouters.Item>)
  {
    ghost predicate Valid() {
      Poll? ==> -1 <= index
    }

    /** The backends in order, with their health; a file route has none. */
    function Backends(): seq<BaseRoute> {
      match this
      case StaticFile(_) => []
      case Poll(_, routes) => routes
      case HeaderBased(rules) => seq(|rules|, i requires 0 <= i < |rules| => rules[i].Base())
      case Random(routes) => routes
      case WeightBased(items) => seq(|items|, i requires 0 <= i < |items| => items[i].Base())
    }
  }

  datatype Destination = File(docRoot: string) | Http(route: BaseRoute) | Grpc(route: BaseRoute) | Failed

  function ToDestination(route: BaseRoute): Destination {
    if "grpc://" <= route.endpoint then Grpc(route) else Destination.Http(route)
  }

  /** `Router::get_route`: the router afterwards and the position of the backend picked. */
  function Pick(lib: Library, r: Router, headers: Headers, rnd: nat): (Router, Option<nat>)
    requires r.Valid()
  {
    match r
    case StaticFile(_) => (r, None)
    case Poll(index, routes) => var (next, pick) := PollRouters.Step(index, routes, rnd); (Poll(next, routes), pick)
    case HeaderBased(rules) => (r, HeaderPick(lib, rules, headers))
    case Random(routes) => (r, RandomPick(routes, rnd))
    case WeightBased(items) => var (after, pick) := WeightedRouters.Step(items, rnd); (WeightBased(after), pick)
  }

  function Route(lib: Library, r: Router, headers: Headers, rnd: nat): (Router, Destination)
    requires r.Valid()
  {
    PickInRange(lib, r, headers, rnd);
    var (after, pick) := Pick(lib, r, headers, rnd);
    (after, if r.StaticFile? then File(r.docRoot)
            else if pick.None? then Failed
            else ToDestination(after.Backends()[pick.value]))
  }

  /** `Router::update_route_alive`; a file route answers with an error and stays as it is. */
  function SetHealth(r: Router, endpoint: string, health: Health): Router {
    match r
    case StaticFile(_) => r
    case Poll(index, routes) => Poll(index, PollRouters.SetHealth(routes, endpoint, health))
    case HeaderBased(rules) => HeaderBased(SetRuleHealth(rules, endpoint, health))
    case Random(routes) => Random(PollRouters.SetHealth(routes, endpoint, health))
    case WeightBased(items) => WeightBased(WeightedRouters.SetHealth(items, endpoint, health))
  }

  /** A pick changes no endpoint, no health and no order; it names one of the backends. */
  lemma PickInRange(lib: Library, r: Router, headers: Headers, rnd: nat)
    requires r.Valid()
    ensures var (after, pick) := Pick(lib, r, headers, rnd);
            && after.Valid() && after.Backends() == r.Backends()
            && (pick.Some? ==> pick.value < |r.Backends()|)
  {
    if r.WeightBased? {
      WeightedInRange(r.items, rnd);
    } else {
      assert Pick(lib, r, headers, rnd).0.Backends() == r.Backends();
    }
  }

  lemma WeightedInRange(items: seq<WeightedRouters.Item>, rnd: nat)
    ensures var (after, pick) := WeightedRouters.Step(items, rnd);
            && WeightBased(after).Backends() == WeightBased(items).Backends()
            && (pick.Some? ==> pick.value < |items|)
  {
    var cands := WeightedRouters.CandidatesOf(items);
    if items != [] && cands != [] {
      WeightedRouters.ServeKeepsBackends(items, cands);
    }
    assert WeightBased(WeightedRouters.Step(items, rnd).0).Backends() == WeightBased(items).Backends();
  }

  /** Some candidate has a positive weight, or something left of one; with every backend down none is needed. */
  predicate HasWeight(items: seq<WeightedRouters.Item>) {
    || WeightedRouters.CandidatesOf(items) == []
    || exists i :: 0 <= i < |items| && MayServe(WeightedRouters.HealthOf(items), i)
                   && (0 < items[i].weight || items[i].index < items[i].weight)
  }

  /** The first live rule that does not miss is no error, if there is one. */
  predicate NoErrorFirst(lib: Library, rules: seq<Rule>, headers: Headers) {
    forall i :: 0 <= i < |rules| && MayServe(RuleHealth(rules), i) && RuleAnswer(lib, rules[i], headers) == Error ==>
      exists j :: 0 <= j < i && MayServe(RuleHealth(rules), j) && RuleAnswer(lib, rules[j], headers) == Hit
  }

  /** What a router needs to name a backend. */
  predicate CanPick(lib: Library, r: Router, headers: Headers) {
    && r.Backends() != []
    && (r.WeightBased? ==> HasWeight(r.items))
    && (r.HeaderBased? ==> NoErrorFirst(lib, r.rules, headers))
  }

  /**
   * PICKS EXACTLY. A router names a backend if and only if it has one, some weight to serve among its
   * candidates, and no rule that errs before one that matches; random draws and positions do not matter.
   */
  lemma PicksExactly(lib: Library, r: Router, headers: Headers, rnd: nat)
    requires r.Valid()
    ensures Pick(lib, r, headers, rnd).1.Some? <==> CanPick(lib, r, headers)
  {
    hide RuleAnswer;
    match r
    case StaticFile(_) =>
    case Poll(_, _) =>
    case Random(_) =>
    case HeaderBased(rules) => HeaderPicksExactly(lib, rules, headers);
    case WeightBased(items) =>
      hide WeightedRouters.Step;
      WeightedRouters.FailsExactly(items, rnd);
  }

  /** Rule `i` may serve and matches the headers, and no earlier rule that may serve matches or errs. */
  predicate FirstHit(lib: Library, rules: seq<Rule>, headers: Headers, i: nat) {
    && i < |rules| && MayServe(RuleHealth(rules), i) && RuleAnswer(lib, rules[i], headers) == Hit
    && forall j :: 0 <= j < i && MayServe(RuleHealth(rules), j) ==> RuleAnswer(lib, rules[j], headers) == Miss
  }

  /** No rule that may serve matches or errs. */
  predicate AllMiss(lib: Library, rules: seq<Rule>, headers: Headers) {
    forall j :: 0 <= j < |rules| && MayServe(RuleHealth(rules), j) ==> RuleAnswer(lib, rules[j], headers) == Miss
  }

  /**
   * HEADER ROUTING, EXACTLY. A header router names position `i` if and only if rule `i` is the first live one
   * to match, none before it erring, or no live rule matches or errs and `i` is 0.
   */
  lemma HeaderRoutesExactly(lib: Library, rules: seq<Rule>, headers: Headers, rnd: nat, i: nat)
    requires i < |rules|
    ensures Pick(lib, HeaderBased(rules), headers, rnd).1 == Some(i) <==>
              FirstHit(lib, rules, headers, i) || (AllMiss(lib, rules, headers) && i == 0)
  {
    hide RuleAnswer, Candidates, FirstAnswer;
    var cands := Candidates(RuleHealth(rules));
    var k := FirstAnswer(lib, rules, cands, headers, 0);
    EarlierRulesMiss(lib, rules, headers, k);
    if k < |cands| {
      assert MayServe(RuleHealth(rules), cands[k]);
    }
  }

  /** Everything that may serve before the first answer misses. */
  lemma EarlierRulesMiss(lib: Library, rules: seq<Rule>, headers: Headers, k: nat)
    requires var cands := Candidates(RuleHealth(rules));
             k <= |cands| && forall m :: 0 <= m < k ==> RuleAnswer(lib, rules[cands[m]], headers) == Miss
    ensures var cands := Candidates(RuleHealth(rules));
            forall j :: 0 <= j < |rules| && MayServe(RuleHealth(rules), j) && (k < |cands| ==> j < cands[k]) ==>
              RuleAnswer(lib, rules[j], headers) == Miss
  {
    hide RuleAnswer, Candidates;
    var cands := Candidates(RuleHealth(rules));
    forall j | 0 <= j < |rules| && MayServe(RuleHealth(rules), j) && (k < |cands| ==> j < cands[k])
      ensures RuleAnswer(lib, rules[j], headers) == Miss
    {
      assert j in cands;
      var m :| 0 <= m < |cands| && cands[m] == j;
      assert m < k;
    }
  }

  /** For rules that all ask for a text in one header, a live rule takes exactly the requests with its text first. */
  lemma TextRulesRouteByValue(lib: Library, rules: seq<Rule>, headers: Headers, rnd: nat, key: string, value: string)
    requires key in headers && headers[key] == Readable(value)
    requires forall i :: 0 <= i < |rules| ==> rules[i].headerKey == key && rules[i].mapping.Text?
    requires forall i :: 0 <= i < |rules| ==> rules[i].alive == Up
    ensures var pick := Pick(lib, HeaderBased(rules), headers, rnd).1;
            forall i :: 0 <= i < |rules| ==>
              (pick == Some(i) <==>
                || (rules[i].mapping.text == value && forall j :: 0 <= j < i ==> rules[j].mapping.text != value)
                || (i == 0 && forall j :: 0 <= j < |rules| ==> rules[j].mapping.text != value))
  {
    hide Pick, Candidates;
    var health := RuleHealth(rules);
    forall i | 0 <= i < |rules|
      ensures MayServe(health, i)
      ensures RuleAnswer(lib, rules[i], headers) == if rules[i].mapping.text == value then Hit else Miss
    {
    }
    forall i | 0 <= i < |rules|
      ensures Pick(lib, HeaderBased(rules), headers, rnd).1 == Some(i) <==>
                || (rules[i].mapping.text == value && forall j :: 0 <= j < i ==> rules[j].mapping.text != value)
                || (i == 0 && forall j :: 0 <= j < |rules| ==> rules[j].mapping.text != value)
    {
      HeaderRoutesExactly(lib, rules, headers, rnd, i);
    }
  }

  lemma HeaderPicksExactly(lib: Library, rules: seq<Rule>, headers: Headers)
    ensures HeaderPick(lib, rules, headers).Some? <==> rules != [] && NoErrorFirst(lib, rules, headers)
  {
    hide RuleAnswer, Candidates;
    if rules != [] {
      var health := RuleHealth(rules);
      var cands := Candidates(health);
      var k := FirstAnswer(lib, rules, cands, headers, 0);
      forall i | 0 <= i < |rules| && MayServe(health, i)
        ensures exists m :: 0 <= m < |cands| && cands[m] == i
      {
        assert i in cands;
      }
      if k < |cands| {
        assert MayServe(health, cands[k]);
      }
    }
  }

  /** With every backend known to be down, any of them can be drawn; only a weighted router counts the pick. */
  lemma BlindPickIsAny(lib: Library, r: Router, headers: Headers, i: nat)
    requires r.Valid() && i < |r.Backends()| && !r.HeaderBased?
    requires forall j :: 0 <= j < |r.Backends()| ==> r.Backends()[j].alive == Down
    ensures Pick(lib, r, headers, i).1 == Some(i)
    ensures !r.WeightBased? ==> Pick(lib, r, headers, i).0 == r
    ensures r.WeightBased? ==>
              var counted := r.items[i].(index := WrapI32(r.items[i].index + 1));
              Pick(lib, r, headers, i).0 == WeightBased(r.items[i := counted])
  {
    HealthAgrees(r);
    NoCandidates(HealthOf(r));
  }

  /** A random router can draw every backend that may serve, and no other while there is one. */
  lemma RandomPicksAreCandidates(lib: Library, targets: seq<BaseRoute>, headers: Headers, i: nat)
    requires i < |targets| && exists j :: 0 <= j < |targets| && targets[j].alive != Down
    ensures (exists rnd :: Pick(lib, Random(targets), headers, rnd).1 == Some(i)) <==>
              targets[i].alive == Up || exists j :: 0 <= j < |targets| && targets[j].alive == Unknown
  {
    hide Candidates;
    var health := PollRouters.HealthOf(targets);
    var cands := Candidates(health);
    NoCandidates(health);
    if MayServe(health, i) {
      assert i in cands;
      var rnd :| 0 <= rnd < |cands| && cands[rnd] == i;
      assert Pick(lib, Random(targets), headers, rnd).1 == Some(i);
    }
    if rnd :| Pick(lib, Random(targets), headers, rnd).1 == Some(i) {
      assert MayServe(health, cands[Draw(rnd, |cands|)]);
    }
  }

  /** A probe result changes the health of the backends at that endpoint and nothing else. */
  lemma SetHealthPointwise(r: Router, endpoint: string, health: Health)
    requires r.Valid()
    ensures var before, after := r.Backends(), SetHealth(r, endpoint, health).Backends();
            && SetHealth(r, endpoint, health).Valid()
            && |after| == |before|
            && forall i :: 0 <= i < |before| ==>
                 after[i] == BaseRoute(before[i].endpoint,
                                       if before[i].endpoint == endpoint then health else before[i].alive)
  {
  }

  // ---------------------------------------------------------------- failover

  datatype Event = Request(headers: Headers, rnd: nat) | Probe(endpoint: string, up: bool)

  function HealthFrom(up: bool): Health {
    if up then Up else Down
  }

  function After(lib: Library, r: Router, events: seq<Event>): (after: Router)
    requires r.Valid()
    ensures after.Valid()
  {
    if events == [] then r
    else
      var before := After(lib, r, events[..|events| - 1]);
      match events[|events| - 1]
      case Request(headers, rnd) => PickInRange(lib, before, headers, rnd); Pick(lib, before, headers, rnd).0
      case Probe(endpoint, up) =>
        SetHealthPointwise(before, endpoint, HealthFrom(up));
        SetHealth(before, endpoint, HealthFrom(up))
  }

  predicate RequestsOnly(events: seq<Event>) {
    forall e :: e in events ==> e.Request?
  }

  /** What was drawn for each request. */
  function Draws(events: seq<Event>): seq<nat>
    requires RequestsOnly(events)
  {
    if events == [] then []
    else
      assert events[|events| - 1] in events;
      Draws(events[..|events| - 1]) + [events[|events| - 1].rnd]
  }

  lemma {:induction false} DrawsCount(events: seq<Event>)
    requires RequestsOnly(events)
    ensures |Draws(events)| == |events|
  {
    if events != [] {
      DrawsCount(events[..|events| - 1]);
    }
  }

  lemma {:induction false} PollRunsAlone(lib: Library, index: int, routes: seq<BaseRoute>, events: seq<Event>)
    requires -1 <= index && RequestsOnly(events)
    ensures var next := PollRouters.After(index, routes, Draws(events));
            -1 <= next && After(lib, Poll(index, routes), events) == Poll(next, routes)
  {
    hide PollRouters.Step;
    if events != [] {
      var front, last := events[..|events| - 1], events[|events| - 1];
      assert last in events;
      PollRunsAlone(lib, index, routes, front);
      assert Draws(events)[..|Draws(events)| - 1] == Draws(front);
      PickInRange(lib, After(lib, Poll(index, routes), front), last.headers, last.rnd);
    }
  }

  lemma {:induction false} WeightedRunsAlone(lib: Library, items: seq<WeightedRouters.Item>, events: seq<Event>)
    requires RequestsOnly(events)
    ensures After(lib, WeightBased(items), events) == WeightBased(WeightedRouters.After(items, Draws(events)))
  {
    hide WeightedRouters.Step;
    if events != [] {
      var front, last := events[..|events| - 1], events[|events| - 1];
      assert last in events;
      WeightedRunsAlone(lib, items, front);
      assert Draws(events)[..|Draws(events)| - 1] == Draws(front);
    }
  }

  /**
   * ROUND ROBIN OF REQUESTS. Between two probes, however many requests a polling router serves, the next one
   * picks the candidate after the last one's, and starts over after the last candidate.
   */
  lemma RequestsGoRound(lib: Library, index: int, routes: seq<BaseRoute>, events: seq<Event>, headers: Headers,
                        rnd: nat) returns (p: nat)
    requires -1 <= index && RequestsOnly(events) && PollRouters.CandidatesOf(routes) != []
    ensures var cands := PollRouters.CandidatesOf(routes);
            && p < |cands| && (0 <= index && index + 1 < |cands| ==> p == index + 1)
            && Pick(lib, Poll(index, routes), headers, rnd).1 == Some(cands[p])
            && Pick(lib, After(lib, Poll(index, routes), events), headers, rnd).1
            == Some(cands[PollRouters.Residue(p + |events|, |cands|)])
  {
    hide PollRouters.Step, PollRouters.After, PollRouters.Residue, PollRouters.CandidatesOf, After;
    p := PollRouters.Next(index, |PollRouters.CandidatesOf(routes)|);
    DrawsCount(events);
    PollRunsAlone(lib, index, routes, events);
    PollRouters.Cycles(index, routes, Draws(events), rnd);
    PollRouters.Cycles(index, routes, [], rnd);
    PollRouters.ResidueSmall(p, |PollRouters.CandidatesOf(routes)|);
    NothingPolled(index, routes);
  }

  lemma NothingPolled(index: int, routes: seq<BaseRoute>)
    requires -1 <= index
    ensures PollRouters.After(index, routes, []) == index
  {
  }

  /**
   * WEIGHTED REQUESTS. Between two probes, a weighted router's next pick is the candidate in whose cumulative
   * interval the number of requests served so far falls.
   */
  lemma RequestsFollowWeights(lib: Library, items: seq<WeightedRouters.Item>, events: seq<Event>, headers: Headers,
                              rnd: nat) returns (j: nat)
    requires RequestsOnly(events) && WeightedRouters.CandidatesOf(items) != []
    requires 0 < Sum(WeightedRouters.Quotas(items, WeightedRouters.CandidatesOf(items)))
    ensures var cands := WeightedRouters.CandidatesOf(items);
            var left, quotas := WeightedRouters.Lefts(items, cands), WeightedRouters.Quotas(items, cands);
            && j < |cands| && WeightedRouters.FallsIn(left, quotas, |events|, j)
            && Pick(lib, After(lib, WeightBased(items), events), headers, rnd).1 == Some(cands[j])
  {
    hide WeightedRouters.Step, WeightedRouters.After, WeightedRouters.FallsIn, After;
    DrawsCount(events);
    WeightedRunsAlone(lib, items, events);
    j := WeightedRouters.PicksItsInterval(items, Draws(events), rnd);
  }

  /** The conclusive result about an endpoint that comes last in the run, if there is one. */
  function LastResult(events: seq<Event>, endpoint: string): Health {
    if events == [] then Unknown
    else
      var e := events[|events| - 1];
      if e.Probe? && e.endpoint == endpoint then HealthFrom(e.up) else LastResult(events[..|events| - 1], endpoint)
  }

  /**
   * LIVENESS IS THE LAST RESULT. Over every interleaving of requests and probes, the backends stay the
   * same in the same order, and each one's health is its last probe result, or what it was at the start.
   */
  lemma {:induction false} HealthIsLastResult(lib: Library, r: Router, events: seq<Event>)
    requires r.Valid()
    ensures var before, after := r.Backends(), After(lib, r, events).Backends();
            && |after| == |before|
            && forall i :: 0 <= i < |before| ==>
                 var last := LastResult(events, before[i].endpoint);
                 after[i] == BaseRoute(before[i].endpoint, if last == Unknown then before[i].alive else last)
  {
    hide Pick, SetHealth;
    if events != [] {
      var front, e := events[..|events| - 1], events[|events| - 1];
      HealthIsLastResult(lib, r, front);
      var mid := After(lib, r, front);
      if e.Request? {
        PickInRange(lib, mid, e.headers, e.rnd);
      } else {
        SetHealthPointwise(mid, e.endpoint, HealthFrom(e.up));
      }
    }
  }

  /** Event `n` is the last probe of the endpoint. */
  predicate LastProbe(events: seq<Event>, endpoint: string, n: int) {
    && 0 <= n < |events| && events[n].Probe? && events[n].endpoint == endpoint
    && forall m :: n < m < |events| ==> !(events[m].Probe? && events[m].endpoint == endpoint)
  }

  lemma {:induction false} LastResultIsLastProbe(events: seq<Event>, endpoint: string)
    ensures forall n :: LastProbe(events, endpoint, n) ==>
              LastResult(events, endpoint) == if events[n].up then Up else Down
    ensures LastResult(events, endpoint) == Unknown ==>
              forall n :: 0 <= n < |events| ==> !(events[n].Probe? && events[n].endpoint == endpoint)
    ensures LastResult(events, endpoint) != Unknown ==> exists n :: LastProbe(events, endpoint, n)
  {
    if events != [] {
      var front, last := events[..|events| - 1], events[|events| - 1];
      LastResultIsLastProbe(front, endpoint);
      if last.Probe? && last.endpoint == endpoint {
        assert LastProbe(events, endpoint, |events| - 1);
      } else {
        forall n ensures LastProbe(front, endpoint, n) <==> LastProbe(events, endpoint, n) {
          assert forall m :: 0 <= m < |front| ==> front[m] == events[m];
        }
        assert forall n :: LastProbe(front, endpoint, n) ==> front[n] == events[n];
      }
    }
  }

  /** Up after a successful probe and down after a failed one, until the next; without any, as at the start. */
  lemma ProbesDecideHealth(lib: Library, r: Router, events: seq<Event>, i: nat)
    requires r.Valid() && i < |r.Backends()|
    ensures var b, after := r.Backends()[i], After(lib, r, events).Backends();
            && i < |after| && after[i].endpoint == b.endpoint
            && (after[i].alive == Up <==>
                  || (exists n :: LastProbe(events, b.endpoint, n) && events[n].up)
                  || (b.alive == Up && !exists n :: LastProbe(events, b.endpoint, n)))
            && (after[i].alive == Down <==>
                  || (exists n :: LastProbe(events, b.endpoint, n) && !events[n].up)
                  || (b.alive == Down && !exists n :: LastProbe(events, b.endpoint, n)))
  {
    hide After, LastResult;
    HealthIsLastResult(lib, r, events);
    LastResultIsLastProbe(events, r.Backends()[i].endpoint);
  }

  predicate AllKnown(r: Router) {
    forall i :: 0 <= i < |r.Backends()| ==> r.Backends()[i].alive != Unknown
  }

  predicate SomeUp(r: Router) {
    exists i :: 0 <= i < |r.Backends()| && r.Backends()[i].alive == Up
  }

  /** Known status never becomes unknown again. */
  lemma KnownStaysKnown(lib: Library, r: Router, events: seq<Event>)
    requires r.Valid() && AllKnown(r)
    ensures AllKnown(After(lib, r, events))
  {
    HealthIsLastResult(lib, r, events);
  }

  function HealthOf(r: Router): (health: seq<Health>)
    ensures |health| == |r.Backends()|
    ensures forall i :: 0 <= i < |health| ==> health[i] == r.Backends()[i].alive
  {
    seq(|r.Backends()|, i requires 0 <= i < |r.Backends()| => r.Backends()[i].alive)
  }

  lemma HealthAgrees(r: Router)
    ensures r.Poll? ==> HealthOf(r) == PollRouters.HealthOf(r.polled)
    ensures r.HeaderBased? ==> HealthOf(r) == RuleHealth(r.rules)
    ensures r.Random? ==> HealthOf(r) == PollRouters.HealthOf(r.targets)
    ensures r.WeightBased? ==> HealthOf(r) == WeightedRouters.HealthOf(r.items)
  {
  }

  /** As long as there are candidates, a pick is one of them, or a header router's first-rule fallback. */
  lemma PickAmongCandidates(lib: Library, r: Router, headers: Headers, rnd: nat)
    requires r.Valid() && Candidates(HealthOf(r)) != []
    requires Pick(lib, r, headers, rnd).1.Some?
    ensures var i, cands := Pick(lib, r, headers, rnd).1.value, Candidates(HealthOf(r));
            i in cands ||
            (&& r.HeaderBased? && i == 0
             && forall j :: 0 <= j < |cands| ==>
                  cands[j] < |r.rules| && RuleAnswer(lib, r.rules[cands[j]], headers) == Miss)
  {
    hide Candidates, RuleAnswer;
    HealthAgrees(r);
  }

  /** With every status known and a backend up, balancing picks are up and header picks are up and match. */
  lemma PickIsUp(lib: Library, r: Router, headers: Headers, rnd: nat)
    requires r.Valid() && AllKnown(r) && SomeUp(r)
    requires Pick(lib, r, headers, rnd).1.Some?
    ensures var i := Pick(lib, r, headers, rnd).1.value;
            && i < |r.Backends()|
            && ((&& r.Backends()[i].alive == Up
                 && (r.HeaderBased? ==> RuleAnswer(lib, r.rules[i], headers) == Hit))
                || (&& r.HeaderBased? && i == 0
                    && forall j :: 0 <= j < |r.rules| && r.rules[j].alive == Up ==>
                         RuleAnswer(lib, r.rules[j], headers) == Miss))
  {
    hide Pick, Candidates, RuleAnswer;
    PickInRange(lib, r, headers, rnd);
    var health := HealthOf(r);
    var cands := Candidates(health);
    var up :| 0 <= up < |r.Backends()| && r.Backends()[up].alive == Up;
    assert MayServe(health, up) && up in cands;
    PickAmongCandidates(lib, r, headers, rnd);
    var i := Pick(lib, r, headers, rnd).1.value;
    if r.HeaderBased? {
      HeaderRoutesExactly(lib, r.rules, headers, rnd, i);
      assert health == RuleHealth(r.rules);
    }
    if i in cands {
      assert MayServe(health, i);
    }
    if r.HeaderBased? && AllMiss(lib, r.rules, headers) {
      forall j | 0 <= j < |r.rules| && r.rules[j].alive == Up ensures RuleAnswer(lib, r.rules[j], headers) == Miss {
        assert r.Backends()[j].alive == Up;
        assert MayServe(health, j) && j in cands;
      }
    }
  }

  /**
   * FAILOVER. Take any run after which every backend has been probed, and any run after that. As long as
   * some backend is up, a successful pick is never a dead backend, and a header router's is one whose rule
   * matches, except that it falls back to its first rule when no live rule matches.
   */
  lemma FailoverSafety(lib: Library, r: Router, first: seq<Event>, later: seq<Event>, headers: Headers, rnd: nat)
    requires r.Valid() && AllKnown(After(lib, r, first))
    requires var now := After(lib, After(lib, r, first), later);
             SomeUp(now) && Pick(lib, now, headers, rnd).1.Some?
    ensures var now := After(lib, After(lib, r, first), later);
            var i := Pick(lib, now, headers, rnd).1.value;
            && i < |now.Backends()|
            && ((&& now.Backends()[i].alive == Up
                 && (now.HeaderBased? ==> RuleAnswer(lib, now.rules[i], headers) == Hit))
                || (&& now.HeaderBased? && i == 0
                    && forall j :: 0 <= j < |now.rules| && now.rules[j].alive == Up ==>
                         RuleAnswer(lib, now.rules[j], headers) == Miss))
  {
    KnownStaysKnown(lib, After(lib, r, first), later);
    PickIsUp(lib, After(lib, After(lib, r, first), later), headers, rnd);
  }
}
