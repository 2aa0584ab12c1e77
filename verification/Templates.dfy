/** Path templates of an OpenAPI document, the pattern the converter makes of them, and what it accepts. */
module Templates {
  import opened Common
  import opened Http

  // ---------------------------------------------------------------- templates and their meaning

  datatype Segment = Lit(c: char) | Param(name: string)

  type Template = seq<Segment>

  predicate NoBraces(s: string) {
    '{' !in s && '}' !in s
  }

  /** Literals are not braces; placeholders have a non-empty name without braces. */
  predicate WellFormed(t: Template) {
    forall i :: 0 <= i < |t| ==>
      match t[i] case Lit(c) => c != '{' && c != '}' case Param(name) => name != [] && NoBraces(name)
  }

  function Render(t: Template): string {
    if t == [] then []
    else (match t[0] case Lit(c) => [c] case Param(name) => "{" + name + "}") + Render(t[1..])
  }

  function Params(t: Template): nat {
    if t == [] then 0 else (if t[0].Param? then 1 else 0) + Params(t[1..])
  }

  /** The template with its placeholders replaced. */
  function Fill(t: Template, values: seq<string>): string
    requires |values| == Params(t)
  {
    if t == [] then []
    else match t[0]
      case Lit(c) => [c] + Fill(t[1..], values)
      case Param(_) => values[0] + Fill(t[1..], values[1..])
  }

  predicate Segmental(value: string) {
    value != [] && '/' !in value
  }

  /** "Path Templating": each placeholder stands for a non-empty text without a slash. */
  ghost predicate Instance(t: Template, path: string) {
    exists values :: InstanceBy(t, values, path)
  }

  predicate InstanceBy(t: Template, values: seq<string>, path: string) {
    |values| == Params(t) && (forall v :: v in values ==> Segmental(v)) && path == Fill(t, values)
  }

  // ---------------------------------------------------------------- the converter

  /** How many characters at the front are not braces. */
  function NameLength(s: string): (n: nat)
    ensures n <= |s| && NoBraces(s[..n])
    ensures n < |s| ==> s[n] == '{' || s[n] == '}'
  {
    if s == [] || s[0] == '{' || s[0] == '}' then 0 else 1 + NameLength(s[1..])
  }

  const ANY_SEGMENT := "[^/]+"

  /** Replacing every match of `\{[^{}]+\}`, leftmost first. */
  function ReplaceAll(s: string): string {
    if s == [] then []
    else
      var n := NameLength(s[1..]);
      if s[0] == '{' && 0 < n && n + 1 < |s| && s[n + 1] == '}' then ANY_SEGMENT + ReplaceAll(s[n + 2..])
      else [s[0]] + ReplaceAll(s[1..])
  }

  datatype MatchType = Prefix | Exact | Regexp

  /** The value and match type of the path matcher the converter emits. */
  function ConvertPath(path: string): (string, MatchType) {
    if '{' in path && '}' in path then ("^" + ReplaceAll(path) + "$", Regexp) else (path, Exact)
  }

  // ---------------------------------------------------------------- the regular expressions it emits

  datatype Token = Start | End | Char(c: char) | AnyChar | NotSlashes

  predicate Meta(c: char) {
    c in "\\.+*?()|[]{}^$"
  }

  /** Patterns of anchors, plain characters, dots and `[^/]+`; anything else is outside this fragment. */
  function Parse(p: string): Option<seq<Token>>
    decreases |p|
  {
    if p == [] then Some([])
    else if ANY_SEGMENT <= p then Prepend(NotSlashes, Parse(p[5..]))
    else if p[0] == '^' then Prepend(Start, Parse(p[1..]))
    else if p[0] == '$' then Prepend(End, Parse(p[1..]))
    else if p[0] == '.' then Prepend(AnyChar, Parse(p[1..]))
    else if Meta(p[0]) then None
    else Prepend(Char(p[0]), Parse(p[1..]))
  }

  function Prepend(token: Token, rest: Option<seq<Token>>): Option<seq<Token>> {
    match rest
    case None => None
    case Some(tokens) => Some([token] + tokens)
  }

  /** Whether the tokens match some stretch of `s` that begins at `i`. */
  predicate MatchesAt(tokens: seq<Token>, s: string, i: nat)
    requires i <= |s|
    decreases tokens
  {
    tokens == [] ||
    match tokens[0]
    case Start => i == 0 && MatchesAt(tokens[1..], s, i)
    case End => i == |s| && MatchesAt(tokens[1..], s, i)
    case Char(c) => i < |s| && s[i] == c && MatchesAt(tokens[1..], s, i + 1)
    case AnyChar => i < |s| && s[i] != '\n' && MatchesAt(tokens[1..], s, i + 1)
    case NotSlashes => exists k :: i < k <= |s| && '/' !in s[i..k] && MatchesAt(tokens[1..], s, k)
  }

  predicate IsMatch(tokens: seq<Token>, s: string) {
    exists i :: 0 <= i <= |s| && MatchesAt(tokens, s, i)
  }

  /** The regular-expression library does on this fragment what its documentation says. */
  ghost predicate Understands(lib: Library) {
    forall p :: Parse(p).Some? ==>
      lib.compiles(p) && forall s :: lib.isMatch(Regex(p), s) <==> IsMatch(Parse(p).value, s)
  }

  /** There is such a library; nothing is assumed about patterns outside the fragment. */
  ghost function FragmentLibrary(): (lib: Library)
    ensures Understands(lib)
  {
    Library(p => Parse(p).Some?,
            (r: Regex, s: string) => Parse(r.pattern).Some? && IsMatch(Parse(r.pattern).value, s),
            (_, path, _) => path,
            (_, s) => [s])
  }

  /** Whether a freshly loaded path matcher accepts a path. */
  predicate Accepts(lib: Library, value: string, matchType: MatchType, path: string) {
    match matchType
    case Prefix => value <= path
    case Exact => path == value
    case Regexp => lib.compiles(value) && lib.isMatch(Regex(value), path)
  }

  // ---------------------------------------------------------------- replacing works on rendered templates

  function Body(t: Template): string {
    if t == [] then []
    else (match t[0] case Lit(c) => [c] case Param(_) => ANY_SEGMENT) + Body(t[1..])
  }

  lemma {:induction false} NameEndsAtBrace(name: string, rest: string)
    requires NoBraces(name)
    ensures NameLength(name + ['}'] + rest) == |name|
  {
    if name != [] {
      assert (name + ['}'] + rest)[1..] == name[1..] + ['}'] + rest;
      NameEndsAtBrace(name[1..], rest);
    }
  }

  lemma ReplaceLit(c: char, rest: string)
    requires c != '{'
    ensures ReplaceAll([c] + rest) == [c] + ReplaceAll(rest)
  {
    assert ([c] + rest)[1..] == rest;
  }

  lemma ReplaceParam(name: string, rest: string)
    requires name != [] && NoBraces(name)
    ensures ReplaceAll("{" + name + "}" + rest) == ANY_SEGMENT + ReplaceAll(rest)
  {
    var s := "{" + name + "}" + rest;
    assert s[1..] == name + ['}'] + rest;
    NameEndsAtBrace(name, rest);
    assert s[|name| + 1] == '}' && s[|name| + 2..] == rest;
  }

  lemma {:induction false} ReplaceRendered(t: Template)
    requires WellFormed(t)
    ensures ReplaceAll(Render(t)) == Body(t)
  {
    if t != [] {
      hide ReplaceAll, NameLength;
      ReplaceRendered(t[1..]);
      match t[0]
      case Lit(c) => ReplaceLit(c, Render(t[1..]));
      case Param(name) => ReplaceParam(name, Render(t[1..]));
    }
  }

  lemma {:induction false} RenderBraces(t: Template)
    requires WellFormed(t)
    ensures '{' in Render(t) && '}' in Render(t) <==> 0 < Params(t)
    ensures Params(t) == 0 ==> NoBraces(Render(t))
  {
    if t != [] {
      RenderBraces(t[1..]);
      match t[0]
      case Lit(c) =>
        assert Render(t) == [c] + Render(t[1..]);
      case Param(name) =>
        assert Render(t)[0] == '{' && Render(t)[|name| + 1] == '}';
    }
  }

  // ---------------------------------------------------------------- parsing what was emitted

  predicate PlainOrDot(t: Template) {
    forall i :: 0 <= i < |t| && t[i].Lit? ==> t[i].c == '.' || !Meta(t[i].c)
  }

  /** No literal is a regular-expression metacharacter. */
  predicate Plain(t: Template) {
    forall i :: 0 <= i < |t| && t[i].Lit? ==> !Meta(t[i].c)
  }

  function Tokens(t: Template): seq<Token> {
    if t == [] then []
    else
      var token := match t[0]
        case Lit(c) => if c == '.' then AnyChar else Char(c)
        case Param(_) => NotSlashes;
      [token] + Tokens(t[1..])
  }

  lemma ParseLit(c: char, rest: string)
    requires c == '.' || !Meta(c)
    ensures Parse([c] + rest) == Prepend(if c == '.' then AnyChar else Char(c), Parse(rest))
  {
    var p := [c] + rest;
    assert p[1..] == rest;
    assert p[0] == c;
    assert !(ANY_SEGMENT <= p);
  }

  lemma ParseParam(rest: string)
    ensures Parse(ANY_SEGMENT + rest) == Prepend(NotSlashes, Parse(rest))
  {
    assert (ANY_SEGMENT + rest)[5..] == rest;
  }

  lemma {:induction false} ParseBody(t: Template)
    requires PlainOrDot(t)
    ensures Parse(Body(t) + "$") == Some(Tokens(t) + [End])
  {
    if t == [] {
      assert "$"[1..] == [] && Parse("$"[1..]) == Some([]);
      assert Tokens(t) + [End] == [End] && [End] + [] == [End];
    } else {
      hide Parse;
      var rest := Body(t[1..]) + "$";
      ParseBody(t[1..]);
      assert [Tokens(t)[0]] + (Tokens(t[1..]) + [End]) == Tokens(t) + [End];
      if t[0].Lit? {
        assert Body(t) + "$" == [t[0].c] + rest;
        ParseLit(t[0].c, rest);
      } else {
        assert Body(t) + "$" == ANY_SEGMENT + rest;
        ParseParam(rest);
      }
    }
  }

  lemma ParseEmitted(t: Template)
    requires PlainOrDot(t)
    ensures Parse("^" + Body(t) + "$") == Some([Start] + Tokens(t) + [End])
  {
    var p := "^" + Body(t) + "$";
    assert p[1..] == Body(t) + "$";
    assert p[0] == '^';
    ParseBody(t);
    assert [Start] + (Tokens(t) + [End]) == [Start] + Tokens(t) + [End];
  }

  // ---------------------------------------------------------------- matching is being an instance

  lemma InstanceEmpty(path: string)
    ensures Instance([], path) <==> path == []
  {
    if path == [] {
      assert InstanceBy([], [], path);
    }
  }

  lemma InstanceLit(t: Template, path: string)
    requires t != [] && t[0].Lit?
    ensures Instance(t, path) <==> path != [] && path[0] == t[0].c && Instance(t[1..], path[1..])
  {
    if Instance(t, path) {
      var values :| InstanceBy(t, values, path);
      assert InstanceBy(t[1..], values, path[1..]);
    }
    if path != [] && path[0] == t[0].c && Instance(t[1..], path[1..]) {
      var values :| InstanceBy(t[1..], values, path[1..]);
      assert path == [path[0]] + path[1..];
      assert InstanceBy(t, values, path);
    }
  }

  ghost predicate SplitsAt(t: Template, path: string, k: int)
    requires t != []
  {
    0 < k <= |path| && '/' !in path[..k] && Instance(t[1..], path[k..])
  }

  lemma InstanceParam(t: Template, path: string)
    requires t != [] && t[0].Param?
    ensures Instance(t, path) <==> exists k :: SplitsAt(t, path, k)
  {
    if Instance(t, path) {
      var values :| InstanceBy(t, values, path);
      var v := values[0];
      assert Segmental(v) by { assert v in values; }
      assert path[..|v|] == v && path[|v|..] == Fill(t[1..], values[1..]);
      assert InstanceBy(t[1..], values[1..], path[|v|..]);
      assert SplitsAt(t, path, |v|);
    }
    if k :| SplitsAt(t, path, k) {
      var values :| InstanceBy(t[1..], values, path[k..]);
      assert path == path[..k] + path[k..];
      assert ([path[..k]] + values)[1..] == values;
      assert InstanceBy(t, [path[..k]] + values, path);
    }
  }

  /** A plain template's tokens match from `i` to the end exactly when the rest is an instance. */
  lemma {:induction false} MatchIsInstance(t: Template, path: string, i: nat)
    requires Plain(t) && i <= |path|
    ensures MatchesAt(Tokens(t) + [End], path, i) <==> Instance(t, path[i..])
  {
    hide Instance;
    var tokens := Tokens(t) + [End];
    if t == [] {
      InstanceEmpty(path[i..]);
      assert tokens[1..] == [];
    } else {
      assert tokens[1..] == Tokens(t[1..]) + [End];
      if t[0].Lit? {
        InstanceLit(t, path[i..]);
        assert !Meta(t[0].c);
        if i < |path| {
          MatchIsInstance(t[1..], path, i + 1);
          assert path[i..][1..] == path[i + 1..];
        }
      } else {
        InstanceParam(t, path[i..]);
        forall k | i < k <= |path|
          ensures '/' !in path[i..k] && MatchesAt(tokens[1..], path, k) <==> SplitsAt(t, path[i..], k - i)
        {
          MatchIsInstance(t[1..], path, k);
          assert path[i..][..k - i] == path[i..k] && path[i..][k - i..] == path[k..];
        }
        if m :| SplitsAt(t, path[i..], m) {
          assert SplitsAt(t, path[i..], (i + m) - i);
          assert MatchesAt(tokens[1..], path, i + m);
        }
      }
    }
  }

  lemma AnchoredMatch(t: Template, path: string)
    ensures IsMatch([Start] + Tokens(t) + [End], path) <==> MatchesAt(Tokens(t) + [End], path, 0)
  {
    var tokens := [Start] + Tokens(t) + [End];
    assert tokens[1..] == Tokens(t) + [End];
    if MatchesAt(tokens, path, 0) {
      assert IsMatch(tokens, path);
    }
  }

  /**
   * MEANING PRESERVED. For every well-formed template whose literals are no metacharacters (none are
   * needed to be plain without placeholders), the emitted matcher accepts a path exactly when the
   * path is the template with each placeholder replaced by a non-empty text without a slash.
   */
  lemma ConvertedMatcherAcceptsInstances(lib: Library, t: Template, path: string)
    requires Understands(lib)
    requires WellFormed(t) && (0 < Params(t) ==> Plain(t))
    ensures var (value, matchType) := ConvertPath(Render(t));
            Accepts(lib, value, matchType, path) <==> Instance(t, path)
  {
    RenderBraces(t);
    if 0 < Params(t) {
      ReplaceRendered(t);
      ParseEmitted(t);
      AnchoredMatch(t, path);
      MatchIsInstance(t, path, 0);
      assert path[0..] == path;
    } else {
      LiteralInstance(t, path);
    }
  }

  lemma {:induction false} LiteralInstance(t: Template, path: string)
    requires Params(t) == 0
    ensures Instance(t, path) <==> path == Render(t)
  {
    hide Instance;
    if t == [] {
      InstanceEmpty(path);
    } else {
      InstanceLit(t, path);
      if path != [] {
        LiteralInstance(t[1..], path[1..]);
        assert path == [path[0]] + path[1..];
      }
      assert Render(t)[1..] == Render(t[1..]);
    }
  }

  /** A template without placeholders. */
  function Lits(s: string): (t: Template)
    ensures |t| == |s| && forall i :: 0 <= i < |s| ==> t[i] == Lit(s[i])
  {
    seq(|s|, i requires 0 <= i < |s| => Lit(s[i]))
  }

  // ---------------------------------------------------------------- dots

  /** A path the emitted pattern takes although the template has a dot where it has an `x`. */
  function Undotted(t: Template): string {
    if t == [] then []
    else [match t[0] case Lit(c) => (if c == '.' then 'x' else c) case Param(_) => 'x'] + Undotted(t[1..])
  }

  lemma {:induction false} UndottedMatches(t: Template, before: string)
    requires PlainOrDot(t)
    ensures MatchesAt(Tokens(t) + [End], before + Undotted(t), |before|)
    ensures '.' !in Undotted(t)
  {
    var tokens, s := Tokens(t) + [End], before + Undotted(t);
    if t == [] {
      assert tokens[1..] == [];
    } else {
      var c := Undotted(t)[0];
      UndottedMatches(t[1..], before + [c]);
      assert before + [c] + Undotted(t[1..]) == s;
      assert tokens[1..] == Tokens(t[1..]) + [End];
      if t[0].Param? {
        assert s[|before|..|before| + 1] == [c];
      }
    }
  }

  lemma {:induction false} InstancesKeepDots(t: Template, values: seq<string>, i: nat)
    requires i < |t| && t[i] == Lit('.') && |values| == Params(t)
    ensures '.' in Fill(t, values)
  {
    if i != 0 {
      if t[0].Param? {
        InstancesKeepDots(t[1..], values[1..], i - 1);
      } else {
        InstancesKeepDots(t[1..], values, i - 1);
      }
    }
  }

  /**
   * EXACT CONDITION FOR DOTS. The converter does not escape literals. Among templates with a placeholder
   * whose literals are plain or dots, the emitted matcher means the template if and only if there
   * is no dot in it.
   */
  lemma DotsWidenTheMatcher(lib: Library, t: Template)
    requires Understands(lib)
    requires WellFormed(t) && PlainOrDot(t) && 0 < Params(t)
    ensures (forall path ::
               Accepts(lib, ConvertPath(Render(t)).0, ConvertPath(Render(t)).1, path) <==> Instance(t, path))
            <==> Lit('.') !in t
  {
    if Lit('.') in t {
      var i :| 0 <= i < |t| && t[i] == Lit('.');
      var path := Undotted(t);
      RenderBraces(t);
      ReplaceRendered(t);
      ParseEmitted(t);
      UndottedMatches(t, []);
      assert [] + path == path;
      AnchoredMatch(t, path);
      assert Accepts(lib, ConvertPath(Render(t)).0, ConvertPath(Render(t)).1, path);
      if Instance(t, path) {
        var values :| InstanceBy(t, values, path);
        InstancesKeepDots(t, values, i);
      }
    } else {
      assert Plain(t);
      forall path
        ensures Accepts(lib, ConvertPath(Render(t)).0, ConvertPath(Render(t)).1, path) <==> Instance(t, path)
      {
        ConvertedMatcherAcceptsInstances(lib, t, path);
      }
    }
  }
}
