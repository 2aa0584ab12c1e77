/** Route matchers with their lazily filled regex cache, path rewriting, and the best-match loop. */
module Matchers {
  import opened Common
  import opened Http
  import opened Templates

  /** What a request is matched on; `path` is path and query as received. */
  datatype Request = Request(method_: string, path: string, headers: Headers)

  /** A matcher as configured, without its cache. */
  datatype Rule =
    | PathRule(value: string, matchType: MatchType)
    | HostRule(value: string)
    | HeaderRule(name: string, value: string)
    | MethodRule(values: set<string>)

  /** The header a rule looks at must be there, readable, and match the pattern. */
  predicate HeaderAccepts(lib: Library, name: string, pattern: string, headers: Headers) {
    && lib.compiles(pattern)
    && name in headers
    && headers[name].Readable?
    && lib.isMatch(Regex(pattern), headers[name].text)
  }

  /** The answer of a rule that was just loaded. */
  predicate Matches(lib: Library, rule: Rule, req: Request) {
    match rule
    case PathRule(value, matchType) => Accepts(lib, value, matchType, req.path)
    case HostRule(value) => HeaderAccepts(lib, "host", value, req.headers)
    case HeaderRule(name, value) => HeaderAccepts(lib, name, value, req.headers)
    case MethodRule(values) => req.method_ in values
  }

  class MatcherRule {
    const rule: Rule
    var regex: Option<Regex>

    /** A filled cache holds what the value compiles to. */
    ghost predicate Valid(lib: Library)
      reads this
    {
      regex.Some? ==> !rule.MethodRule? && regex == lib.Compile(rule.value)
    }

    constructor (rule: Rule)
      ensures this.rule == rule && regex == None
      ensures forall lib :: Valid(lib)
    {
      this.rule := rule;
      regex := None;
    }

    method FillCache(lib: Library)
      requires Valid(lib) && !rule.MethodRule?
      modifies this
      ensures Valid(lib) && regex == lib.Compile(rule.value)
    {
      if regex == None {
        regex := lib.Compile(rule.value);
      }
    }

    /** CACHE TRANSPARENCY of one rule: whatever was asked before, the answer is that of a fresh rule. */
    method IsMatch(lib: Library, req: Request) returns (ok: bool)
      requires Valid(lib)
      modifies this
      ensures Valid(lib)
      ensures ok == Matches(lib, rule, req)
    {
      match rule
      case PathRule(value, matchType) =>
        match matchType {
          case Prefix => ok := value <= req.path;
          case Exact => ok := req.path == value;
          case Regexp =>
            FillCache(lib);
            ok := regex.Some? && lib.isMatch(regex.value, req.path);
        }
      case HostRule(_) => ok := HeaderMatches(lib, "host", req.headers);
      case HeaderRule(name, _) => ok := HeaderMatches(lib, name, req.headers);
      case MethodRule(values) => ok := req.method_ in values;
    }

    method HeaderMatches(lib: Library, name: string, headers: Headers) returns (ok: bool)
      requires Valid(lib) && !rule.MethodRule?
      modifies this
      ensures Valid(lib)
      ensures ok == HeaderAccepts(lib, name, rule.value, headers)
    {
      FillCache(lib);
      ok := name in headers && regex.Some? && headers[name].Readable? && lib.isMatch(regex.value, headers[name].text);
    }
  }

  // ---------------------------------------------------------------- a route

  datatype RouteSpec = RouteSpec(rules: seq<Rule>, rewrite: Option<string>)

  predicate RouteMatches(lib: Library, spec: RouteSpec, req: Request) {
    forall i :: 0 <= i < |spec.rules| ==> Matches(lib, spec.rules[i], req)
  }

  /** The first path matcher's value, of whatever match type. */
  function FirstPath(rules: seq<Rule>): Option<string> {
    if rules == [] then None
    else if rules[0].PathRule? then Some(rules[0].value)
    else FirstPath(rules[1..])
  }

  /** A pattern that compiles is replaced as a regex even for a prefix or exact matcher. */
  function Rewritten(lib: Library, spec: RouteSpec, path: string): string {
    match spec.rewrite
    case None => path
    case Some(template) =>
      match FirstPath(spec.rules)
      case None => path
      case Some(pattern) =>
        if lib.Compile(pattern).Some? then lib.replace(lib.Compile(pattern).value, path, template)
        else if pattern <= path then template + path[|pattern|..]
        else path
  }

  /**
   * What the kinds of path matcher take: everything that begins with the value, only the value, what a pattern
   * matches; and a method matcher the methods it lists.
   */
  lemma MatchersTake(lib: Library, value: string, methods: set<string>, req: Request)
    ensures Matches(lib, PathRule(value, Prefix), req) <==> exists rest :: req.path == value + rest
    ensures Matches(lib, PathRule(value, Exact), req) <==> req.path == value
    ensures Matches(lib, PathRule(value, Regexp), req) <==>
              exists re :: lib.Compile(value) == Some(re) && lib.isMatch(re, req.path)
    ensures Matches(lib, MethodRule(methods), req) <==> {req.method_} <= methods
  {
    if value <= req.path {
      assert req.path == value + req.path[|value|..];
    }
    if Matches(lib, PathRule(value, Regexp), req) {
      assert lib.Compile(value) == Some(Regex(value));
    }
  }

  /** A rule as the configuration writes it for one plain text. */
  function Literally(text: string): string {
    "^" + text + "$"
  }

  lemma {:induction false} TextIsItsTemplate(text: string)
    ensures Body(Lits(text)) == text
    ensures Params(Lits(text)) == 0
    ensures Render(Lits(text)) == text
  {
    if text != [] {
      TextIsItsTemplate(text[1..]);
      assert Lits(text)[1..] == Lits(text[1..]);
    }
  }

  /**
   * HEADER AND HOST MATCHERS. For a plain text, a header matcher takes exactly the requests that carry the
   * header with that text, and a host matcher those whose host header has it.
   */
  lemma LiteralHeaderMatches(lib: Library, name: string, text: string, req: Request)
    requires Understands(lib)
    requires forall i :: 0 <= i < |text| ==> !Meta(text[i])
    ensures Matches(lib, HeaderRule(name, Literally(text)), req) <==>
              name in req.headers && req.headers[name] == Readable(text)
    ensures Matches(lib, HostRule(Literally(text)), req) <==>
              "host" in req.headers && req.headers["host"] == Readable(text)
  {
    hide Meta, Parse;
    var t := Lits(text);
    TextIsItsTemplate(text);
    assert Plain(t) && PlainOrDot(t);
    ParseEmitted(t);
    forall s ensures lib.isMatch(Regex(Literally(text)), s) <==> s == text {
      AnchoredMatch(t, s);
      MatchIsInstance(t, s, 0);
      assert s[0..] == s;
      LiteralInstance(t, s);
    }
  }

  /** The length of the longest path value that is literally a prefix of the request path; 0 if none is. */
  function Score(rules: seq<Rule>, path: string): nat {
    if rules == [] then 0
    else Max(if rules[0].PathRule? && rules[0].value <= path then |rules[0].value| else 0, Score(rules[1..], path))
  }

  /** The score is attained by a literal prefix, unless it is 0, and no literal prefix is longer. */
  lemma {:induction false} ScoreIsLongestPrefix(rules: seq<Rule>, path: string)
    ensures forall r :: r in rules && r.PathRule? && r.value <= path ==> |r.value| <= Score(rules, path)
    ensures Score(rules, path) == 0 ||
              exists r :: r in rules && r.PathRule? && r.value <= path && |r.value| == Score(rules, path)
  {
    if rules != [] {
      ScoreIsLongestPrefix(rules[1..], path);
      assert forall r :: r in rules <==> r == rules[0] || r in rules[1..];
    }
  }

  class RouteConfig {
    const matchers: seq<MatcherRule>
    const rewrite: Option<string>

    constructor (matchers: seq<MatcherRule>, rewrite: Option<string>)
      ensures this.matchers == matchers && this.rewrite == rewrite
    {
      this.matchers, this.rewrite := matchers, rewrite;
    }

    function Spec(): (spec: RouteSpec)
      ensures |spec.rules| == |matchers|
      ensures forall i :: 0 <= i < |matchers| ==> spec.rules[i] == matchers[i].rule
    {
      RouteSpec(seq(|matchers|, i requires 0 <= i < |matchers| => matchers[i].rule), rewrite)
    }

    ghost predicate Valid(lib: Library)
      reads matchers
    {
      forall m :: m in matchers ==> m.Valid(lib)
    }

    /** All matchers in order, stopping at the first that fails, so later caches may stay empty. */
    method MatchAndRewrite(lib: Library, req: Request) returns (path: Option<string>)
      requires Valid(lib)
      modifies matchers
      ensures Valid(lib)
      ensures path == if RouteMatches(lib, Spec(), req) then Some(Rewritten(lib, Spec(), req.path)) else None
    {
      for n := 0 to |matchers|
        invariant Valid(lib)
        invariant forall i :: 0 <= i < n ==> Matches(lib, matchers[i].rule, req)
      {
        var ok := matchers[n].IsMatch(lib, req);
        if !ok {
          assert !Matches(lib, Spec().rules[n], req);
          return None;
        }
      }
      path := Some(Rewritten(lib, Spec(), req.path));
    }
  }

  // ---------------------------------------------------------------- the best route

  /** Route `i` matches, no matching route scores higher, and none before it scores as high. */
  predicate IsBest(lib: Library, specs: seq<RouteSpec>, req: Request, i: nat) {
    && i < |specs|
    && RouteMatches(lib, specs[i], req)
    && forall j :: 0 <= j < |specs| && RouteMatches(lib, specs[j], req) ==>
         var mine, other := Score(specs[i].rules, req.path), Score(specs[j].rules, req.path);
         other <= mine && (j < i ==> other < mine)
  }

  lemma BestIsUnique(lib: Library, specs: seq<RouteSpec>, req: Request, i: nat, j: nat)
    requires IsBest(lib, specs, req, i) && IsBest(lib, specs, req, j)
    ensures i == j
  {
  }

  /** Some path value of the rules, at least this long, is literally a prefix of the path. */
  predicate HasPrefix(rules: seq<Rule>, path: string, length: nat) {
    exists r :: r in rules && r.PathRule? && r.value <= path && length <= |r.value|
  }

  /**
   * LONGEST PREFIX, EARLIEST FIRST. No other matching route has a longer literal prefix than the best one, and
   * one that comes before it has none as long.
   */
  lemma BestHasLongestPrefix(lib: Library, specs: seq<RouteSpec>, req: Request, best: nat, j: nat, length: nat)
    requires IsBest(lib, specs, req, best)
    requires j < |specs| && RouteMatches(lib, specs[j], req) && 0 < length
    requires HasPrefix(specs[j].rules, req.path, length)
    ensures HasPrefix(specs[best].rules, req.path, if j < best then length + 1 else length)
  {
    hide RouteMatches;
    ScoreIsLongestPrefix(specs[best].rules, req.path);
    ScoreIsLongestPrefix(specs[j].rules, req.path);
  }

  function Specs(routes: seq<RouteConfig>): (specs: seq<RouteSpec>)
    ensures |specs| == |routes|
    ensures forall i :: 0 <= i < |routes| ==> specs[i] == routes[i].Spec()
  {
    seq(|routes|, i requires 0 <= i < |routes| => routes[i].Spec())
  }

  ghost function Caches(routes: seq<RouteConfig>): set<MatcherRule> {
    set r, m | r in routes && m in r.matchers :: m
  }

  ghost predicate AllValid(lib: Library, routes: seq<RouteConfig>)
    reads Caches(routes)
  {
    forall m :: m in Caches(routes) ==> m.Valid(lib)
  }

  datatype Best = Best(index: nat, path: string, score: nat)

  /** What the loop knows after the first `|specs|` routes. */
  ghost predicate BestSoFar(lib: Library, specs: seq<RouteSpec>, req: Request, best: Option<Best>) {
    match best
    case None => forall i :: 0 <= i < |specs| ==> !RouteMatches(lib, specs[i], req)
    case Some(b) =>
      && IsBest(lib, specs, req, b.index)
      && b.score == Score(specs[b.index].rules, req.path)
      && b.path == Rewritten(lib, specs[b.index], req.path)
  }

  lemma OneMoreRoute(lib: Library, specs: seq<RouteSpec>, spec: RouteSpec, req: Request, best: Option<Best>)
    requires BestSoFar(lib, specs, req, best)
    ensures var score := Score(spec.rules, req.path);
            BestSoFar(lib, specs + [spec], req,
              if RouteMatches(lib, spec, req) && (best == None || best.value.score < score)
              then Some(Best(|specs|, Rewritten(lib, spec, req.path), score)) else best)
  {
    hide RouteMatches, Score, Rewritten;
  }

  /** There is a best route as soon as some route matches. */
  lemma {:induction false} SomeBest(lib: Library, specs: seq<RouteSpec>, req: Request) returns (best: Option<Best>)
    ensures BestSoFar(lib, specs, req, best)
    ensures best.Some? <==> exists i :: 0 <= i < |specs| && RouteMatches(lib, specs[i], req)
  {
    hide RouteMatches, Score, Rewritten;
    if specs == [] {
      best := None;
    } else {
      var front, last := specs[..|specs| - 1], specs[|specs| - 1];
      best := SomeBest(lib, front, req);
      OneMoreRoute(lib, front, last, req, best);
      assert front + [last] == specs;
      var score := Score(last.rules, req.path);
      if RouteMatches(lib, last, req) && (best == None || best.value.score < score) {
        best := Some(Best(|front|, Rewritten(lib, last, req.path), score));
      }
    }
  }

  /**
   * ROUTE CHOICE. The loop finds the earliest matching route of the highest literal-prefix score, or
   * nothing if none matches, judged by freshly loaded matchers whatever was asked before.
   */
  method FindBest(lib: Library, routes: seq<RouteConfig>, req: Request) returns (best: Option<Best>)
    requires AllValid(lib, routes)
    modifies Caches(routes)
    ensures AllValid(lib, routes)
    ensures best == None <==> forall i :: 0 <= i < |routes| ==> !RouteMatches(lib, Specs(routes)[i], req)
    ensures best.Some? ==>
              && IsBest(lib, Specs(routes), req, best.value.index)
              && best.value.path == Rewritten(lib, Specs(routes)[best.value.index], req.path)
  {
    hide RouteMatches, Score, Rewritten, IsBest;
    best := None;
    for n := 0 to |routes|
      invariant AllValid(lib, routes)
      invariant BestSoFar(lib, Specs(routes)[..n], req, best)
    {
      assert routes[n] in routes;
      assert Specs(routes)[..n + 1] == Specs(routes)[..n] + [routes[n].Spec()];
      assert forall m :: m in routes[n].matchers ==> m in Caches(routes);
      OneMoreRoute(lib, Specs(routes)[..n], routes[n].Spec(), req, best);
      var path := routes[n].MatchAndRewrite(lib, req);
      if path.Some? {
        var score := Score(routes[n].Spec().rules, req.path);
        if best == None || best.value.score < score {
          best := Some(Best(n, path.value, score));
        }
      }
    }
    assert Specs(routes)[..|routes|] == Specs(routes);
    if best.Some? {
      BestIsInRange(lib, Specs(routes), req, best.value.index);
    }
  }

  lemma BestIsInRange(lib: Library, specs: seq<RouteSpec>, req: Request, i: nat)
    requires IsBest(lib, specs, req, i)
    ensures i < |specs| && RouteMatches(lib, specs[i], req)
  {
  }
}
