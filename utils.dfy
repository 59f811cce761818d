/** String helpers of Utils.cs: the named-placeholder formatter `Format`, `TrimLines` and
    `ContainsCI`. */
module Utils {
  import opened Wrappers
  import opened Strings
  import CollectionUtils

  // ---------------------------------------------------------------------------------------
  // Format: Regex.Replace(format, @"(\{+)([^\}]+)(\}+)", evaluator)
  // ---------------------------------------------------------------------------------------

  /** The end of the run of `c` that starts at i. */
  function RunEnd(s: string, i: nat, c: char): (j: nat)
    requires i <= |s|
    ensures i <= j <= |s| && (j == |s| || s[j] != c)
    decreases |s| - i
  {
    if i < |s| && s[i] == c then RunEnd(s, i + 1, c) else i
  }

  /** The first '}' at or after j, or |s|. */
  function FirstClose(s: string, j: nat): (c: nat)
    requires j <= |s|
    ensures j <= c <= |s| && (c == |s| || s[c] == '}')
    decreases |s| - j
  {
    if j == |s| || s[j] == '}' then j else FirstClose(s, j + 1)
  }

  function Repeat(c: char, n: nat): (r: string)
    ensures |r| == n && forall k :: 0 <= k < n ==> r[k] == c
  {
    seq(n, _ => c)
  }

  predicate IsFieldEnd(c: char) { c == ':' || c == ',' }

  /** The property name of a placeholder: its text before the first ':' or ','. */
  function FieldName(inner: string): (r: string)
    ensures |r| <= |inner| && r == inner[..|r|]
    ensures forall k :: 0 <= k < |r| ==> !IsFieldEnd(r[k])
    ensures |r| < |inner| ==> IsFieldEnd(inner[|r|])
  {
    if inner == [] || IsFieldEnd(inner[0]) then [] else [inner[0]] + FieldName(inner[1..])
  }

  /** The alignment and format part of a placeholder: what follows its property name. */
  function FormatSuffix(inner: string): (r: string)
    ensures FieldName(inner) + r == inner
  {
    inner[|FieldName(inner)|..]
  }

  /** The text the evaluator puts in place of one match: `openCount` and `closeCount` are the
      lengths of the brace runs, `inner` the text between them. `props` maps the public
      properties of the argument to their values; `render(v, f)` is string.Format's rendering
      of v under the format suffix f (",alignment" and/or ":format"). */
  function Replacement<V>(openCount: nat, inner: string, closeCount: nat,
                          props: map<string, V>, render: (V, string) -> string): Result<string>
  {
    if openCount % 2 != closeCount % 2 then Failure(Argument("format"))
    else if openCount % 2 == 0 then
      Success(Repeat('{', openCount / 2) + inner + Repeat('}', closeCount / 2))
    else if FieldName(inner) !in props then Failure(Argument("arg"))
    else Success(Repeat('{', openCount / 2) + render(props[FieldName(inner)], FormatSuffix(inner)))
  }

  /** One step of the scan at i: what replaces s[i..next] (or the exception the evaluator
      throws), and next. A character that starts no match is copied. */
  function Step<V>(s: string, i: nat, props: map<string, V>, render: (V, string) -> string): (r: (Result<string>, nat))
    requires i < |s|
    ensures i < r.1 <= |s|
  {
    if s[i] != '{' then (Success([s[i]]), i + 1)
    else
      var j := RunEnd(s, i, '{');
      var c := FirstClose(s, j);
      if c == |s| || (c == j && j - i < 2) then
        // no match starts here: "{" is copied and the scan moves on
        (Success([s[i]]), i + 1)
      else
        // when '}' follows the brace run at once, the last '{' becomes the inner text
        var innerStart := if c == j then j - 1 else j;
        var e := RunEnd(s, c, '}');
        (Replacement(innerStart - i, s[innerStart..c], e - c, props, render), e)
  }

  /** The replacement of every match of the brace pattern from position i on, scanning from
      the left as the regex engine does; the first failing evaluation aborts the whole call. */
  function FormatFrom<V>(s: string, i: nat, props: map<string, V>,
                         render: (V, string) -> string): Result<string>
    requires i <= |s|
    decreases |s| - i
  {
    if i == |s| then Success("")
    else
      var step := Step(s, i, props, render);
      if step.0.Failure? then step.0
      else
        var rest := FormatFrom(s, step.1, props, render);
        if rest.Failure? then rest else Success(step.0.value + rest.value)
  }

  /** Utils.Format(format, arg): string.Format with named placeholders. A null format or arg
      throws ArgumentNullException; the argument object is the map of its properties. */
  function Format<V>(format: Option<string>, arg: Option<map<string, V>>,
                     render: (V, string) -> string): (r: Result<string>)
    ensures format.None? ==> r == Failure(ArgumentNull("format"))
    ensures format.Some? && arg.None? ==> r == Failure(ArgumentNull("arg"))
  {
    if format.None? then Failure(ArgumentNull("format"))
    else if arg.None? then Failure(ArgumentNull("arg"))
    else FormatFrom(format.value, 0, arg.value, render)
  }

  /** One character other than '{' is copied, ahead of the rest of the scan. */
  lemma FormatFromPlain<V>(s: string, i: nat, props: map<string, V>, render: (V, string) -> string)
    requires i < |s| && s[i] != '{'
    ensures FormatFrom(s, i, props, render) ==
      (var rest := FormatFrom(s, i + 1, props, render);
       if rest.Success? then Success([s[i]] + rest.value) else rest)
  {
  }

  /** A format string without '{' comes back unchanged. */
  lemma FormatWithoutBraces<V>(s: string, props: map<string, V>, render: (V, string) -> string)
    requires NoBraces(s)
    ensures Format(Some(s), Some(props), render) == Success(s)
  {
    assert s[0..|s|] == s;
    LiteralStep(s, 0, s, props, render, "");
    assert s + "" == s;
  }

  /** A placeholder "{name}" (name free of braces, ':' and ',') followed by something other
      than '}' is replaced by the rendered value of that property. */
  lemma FormatPlaceholder<V>(s: string, i: nat, k: nat, props: map<string, V>,
                             render: (V, string) -> string)
    requires i + 1 < k < |s| && s[i] == '{' && s[k] == '}'
    requires forall m :: i < m < k ==> s[m] != '{' && s[m] != '}' && !IsFieldEnd(s[m])
    requires k + 1 == |s| || s[k + 1] != '}'
    requires s[i + 1..k] in props
    ensures FormatFrom(s, i, props, render) ==
      (var rest := FormatFrom(s, k + 1, props, render);
       if rest.Success? then Success(render(props[s[i + 1..k]], "") + rest.value) else rest)
  {
    StepPlaceholder(s, i, k, props, render);
  }

  lemma StepPlaceholder<V>(s: string, i: nat, k: nat, props: map<string, V>,
                           render: (V, string) -> string)
    requires i + 1 < k < |s| && s[i] == '{' && s[k] == '}'
    requires forall m :: i < m < k ==> s[m] != '{' && s[m] != '}' && !IsFieldEnd(s[m])
    requires k + 1 == |s| || s[k + 1] != '}'
    requires s[i + 1..k] in props
    ensures Step(s, i, props, render) == (Success(render(props[s[i + 1..k]], "")), k + 1)
  {
    var name := s[i + 1..k];
    assert RunEnd(s, i + 1, '{') == i + 1;
    assert RunEnd(s, i, '{') == i + 1;
    FirstCloseSkips(s, i + 1, k);
    assert RunEnd(s, k + 1, '}') == k + 1;
    assert RunEnd(s, k, '}') == k + 1;
    FieldNameWhole(name);
    assert Repeat('{', 0) == [];
    assert Repeat('{', 0) + render(props[name], "") == render(props[name], "");
  }

  lemma {:induction false} FieldNameWhole(inner: string)
    requires forall m :: 0 <= m < |inner| ==> !IsFieldEnd(inner[m])
    ensures FieldName(inner) == inner && FormatSuffix(inner) == ""
  {
    if inner != [] {
      FieldNameWhole(inner[1..]);
    }
  }

  lemma {:induction false} FirstCloseSkips(s: string, j: nat, k: nat)
    requires j <= k < |s| && s[k] == '}'
    requires forall m :: j <= m < k ==> s[m] != '}'
    ensures FirstClose(s, j) == k
    decreases k - j
  {
    if j < k {
      FirstCloseSkips(s, j + 1, k);
    }
  }

  /** A format string made of literal text and plain "{name}" placeholders. */
  datatype Segment = Literal(text: string) | Field(name: string)

  predicate NoBraces(t: string)
  {
    forall m :: 0 <= m < |t| ==> t[m] != '{' && t[m] != '}'
  }

  /** Literal text without braces, or a non-empty name without braces, ':' or ','. */
  predicate PlainSegment(g: Segment)
  {
    match g
    case Literal(t) => NoBraces(t)
    case Field(n) => |n| > 0 && NoBraces(n) && forall m :: 0 <= m < |n| ==> !IsFieldEnd(n[m])
  }

  function SegmentText(g: Segment): string
  {
    match g
    case Literal(t) => t
    case Field(n) => "{" + n + "}"
  }

  function Layout(gs: seq<Segment>): string
  {
    if gs == [] then "" else SegmentText(gs[0]) + Layout(gs[1..])
  }

  predicate Fillable<V>(gs: seq<Segment>, props: map<string, V>)
  {
    forall g :: g in gs && g.Field? ==> g.name in props
  }

  function SegmentValue<V>(g: Segment, props: map<string, V>, render: (V, string) -> string): string
    requires g.Field? ==> g.name in props
  {
    match g
    case Literal(t) => t
    case Field(n) => render(props[n], "")
  }

  /** The text with every placeholder replaced by its rendered property. */
  function Filled<V>(gs: seq<Segment>, props: map<string, V>, render: (V, string) -> string): string
    requires Fillable(gs, props)
  {
    if gs == [] then ""
    else
      assert gs[0] in gs && forall g :: g in gs[1..] ==> g in gs;
      SegmentValue(gs[0], props, render) + Filled(gs[1..], props, render)
  }

  /** Plain segments never lay out a '}' first. */
  lemma {:induction false} LayoutStart(gs: seq<Segment>)
    requires forall g :: g in gs ==> PlainSegment(g)
    ensures Layout(gs) == [] || Layout(gs)[0] != '}'
  {
    if gs != [] {
      assert gs[0] in gs;
      assert forall g :: g in gs[1..] ==> g in gs;
      LayoutStart(gs[1..]);
      var t := SegmentText(gs[0]);
      if t != [] {
        assert Layout(gs)[0] == t[0];
      } else {
        assert Layout(gs) == Layout(gs[1..]);
      }
    }
  }

  /** What follows a piece of a suffix. */
  lemma SuffixAfter(s: string, i: nat, t: string, r: string)
    requires i <= |s| && s[i..] == t + r
    ensures i + |t| <= |s| && s[i..i + |t|] == t && s[i + |t|..] == r
  {
    assert s[i..i + |t|] == s[i..][..|t|];
    assert s[i + |t|..] == s[i..][|t|..];
  }

  /** A scan that copies one character at each position from i to i + |t| copies t. */
  lemma {:induction false} CopyChain(f: nat -> Result<string>, i: nat, t: string, rest: string)
    requires forall j :: i <= j < i + |t| ==>
      f(j) == (if f(j + 1).Success? then Success([t[j - i]] + f(j + 1).value) else f(j + 1))
    requires f(i + |t|) == Success(rest)
    ensures f(i) == Success(t + rest)
    decreases |t|
  {
    if t == [] {
      assert t + rest == rest;
    } else {
      forall j | i + 1 <= j < i + 1 + |t[1..]|
        ensures f(j) == (if f(j + 1).Success? then Success([t[1..][j - (i + 1)]] + f(j + 1).value) else f(j + 1))
      {
        assert t[1..][j - (i + 1)] == t[j - i];
      }
      CopyChain(f, i + 1, t[1..], rest);
      assert [t[0]] + (t[1..] + rest) == t + rest;
    }
  }

  /** Literal text at i is copied. */
  lemma LiteralStep<V>(s: string, i: nat, t: string, props: map<string, V>,
                       render: (V, string) -> string, rest: string)
    requires i + |t| <= |s| && s[i..i + |t|] == t && NoBraces(t)
    requires FormatFrom(s, i + |t|, props, render) == Success(rest)
    ensures FormatFrom(s, i, props, render) == Success(t + rest)
  {
    var f := (j: nat) => if j <= |s| then FormatFrom(s, j, props, render) else Success("");
    forall j | i <= j < i + |t|
      ensures f(j) == (if f(j + 1).Success? then Success([t[j - i]] + f(j + 1).value) else f(j + 1))
    {
      assert s[j] == t[j - i];
      FormatFromPlain(s, j, props, render);
    }
    CopyChain(f, i, t, rest);
  }

  /** The characters of a placeholder at i. */
  lemma FieldChars(s: string, i: nat, n: string)
    requires i + |n| + 2 <= |s| && s[i..i + |n| + 2] == "{" + n + "}" && PlainSegment(Field(n))
    ensures s[i] == '{' && s[i + |n| + 1] == '}' && s[i + 1..i + |n| + 1] == n
    ensures forall m :: i < m < i + |n| + 1 ==> s[m] != '{' && s[m] != '}' && !IsFieldEnd(s[m])
  {
    var w := "{" + n + "}";
    assert s[i] == w[0] && s[i + |n| + 1] == w[|n| + 1];
    forall m | 0 <= m < |n|
      ensures s[i + 1 + m] == n[m]
    {
      assert s[i + 1 + m] == w[1 + m];
    }
    assert s[i + 1..i + |n| + 1] == n;
    forall m | i < m < i + |n| + 1
      ensures s[m] != '{' && s[m] != '}' && !IsFieldEnd(s[m])
    {
      assert s[m] == n[m - i - 1];
    }
  }

  /** A literal segment at i is copied. */
  lemma LiteralSegmentStep<V>(s: string, i: nat, g: Segment, props: map<string, V>,
                              render: (V, string) -> string, rest: string)
    requires g.Literal? && PlainSegment(g)
    requires i + |SegmentText(g)| <= |s| && s[i..i + |SegmentText(g)|] == SegmentText(g)
    requires FormatFrom(s, i + |SegmentText(g)|, props, render) == Success(rest)
    ensures FormatFrom(s, i, props, render) == Success(SegmentValue(g, props, render) + rest)
  {
    LiteralStep(s, i, g.text, props, render, rest);
  }

  /** A placeholder segment at i, not followed by '}', formats to its property's rendering. */
  lemma FieldSegmentStep<V>(s: string, i: nat, g: Segment, props: map<string, V>,
                            render: (V, string) -> string, rest: string)
    requires g.Field? && PlainSegment(g) && g.name in props
    requires i + |SegmentText(g)| <= |s| && s[i..i + |SegmentText(g)|] == SegmentText(g)
    requires i + |SegmentText(g)| == |s| || s[i + |SegmentText(g)|] != '}'
    requires FormatFrom(s, i + |SegmentText(g)|, props, render) == Success(rest)
    ensures FormatFrom(s, i, props, render) == Success(SegmentValue(g, props, render) + rest)
  {
    FieldStep(s, i, g.name, props, render, rest);
  }

  /** A placeholder at i, not followed by '}', is replaced by its rendered property. */
  lemma FieldStep<V>(s: string, i: nat, n: string, props: map<string, V>, render: (V, string) -> string,
                     rest: string)
    requires i + |n| + 2 <= |s| && s[i..i + |n| + 2] == "{" + n + "}" && PlainSegment(Field(n))
    requires n in props
    requires i + |n| + 2 == |s| || s[i + |n| + 2] != '}'
    requires FormatFrom(s, i + |n| + 2, props, render) == Success(rest)
    ensures FormatFrom(s, i, props, render) == Success(render(props[n], "") + rest)
  {
    FieldChars(s, i, n);
    FormatPlaceholder(s, i, i + |n| + 1, props, render);
  }

  /** Formatting a layout of plain segments fills every placeholder with its property's
      rendering and copies the literal text. */
  lemma {:induction false} FormatLayout<V>(s: string, i: nat, gs: seq<Segment>, props: map<string, V>,
                                           render: (V, string) -> string)
    requires i <= |s| && s[i..] == Layout(gs)
    requires forall g :: g in gs ==> PlainSegment(g)
    requires Fillable(gs, props)
    ensures FormatFrom(s, i, props, render) == Success(Filled(gs, props, render))
    decreases |gs|
  {
    if gs == [] {
      assert |s[i..]| == 0;
    } else {
      var g := gs[0];
      var t := SegmentText(g);
      var tail := gs[1..];
      assert g in gs && forall x :: x in tail ==> x in gs;
      SuffixAfter(s, i, t, Layout(tail));
      FormatLayout(s, i + |t|, tail, props, render);
      LayoutStart(tail);
      if i + |t| < |s| {
        assert s[i + |t|] == s[i + |t|..][0];
      }
      if g.Literal? {
        LiteralSegmentStep(s, i, g, props, render, Filled(tail, props, render));
      } else {
        FieldSegmentStep(s, i, g, props, render, Filled(tail, props, render));
      }
    }
  }

  /** Format over a layout of plain segments whose placeholders all name properties. */
  lemma FormatOfLayout<V>(gs: seq<Segment>, props: map<string, V>, render: (V, string) -> string)
    requires forall g :: g in gs ==> PlainSegment(g)
    requires Fillable(gs, props)
    ensures Format(Some(Layout(gs)), Some(props), render) == Success(Filled(gs, props, render))
  {
    var s := Layout(gs);
    assert s[0..] == s;
    FormatLayout(s, 0, gs, props, render);
  }

  /** A match of `(\{+)([^\}]+)(\}+)` at i: the opening run s[i..i+a], the inner text
      s[i+a..c] and the closing run s[c..e], each as long as the regex takes it. The opening
      run gives back its last '{' to the inner text only when '}' follows the run at once. */
  predicate MatchAt(s: string, i: nat, a: nat, c: nat, e: nat)
  {
    1 <= a && i + a < c < e <= |s| &&
    (forall m :: i <= m < i + a ==> s[m] == '{') &&
    (s[i + a] != '{' || c == i + a + 1) &&
    (forall m :: i + a <= m < c ==> s[m] != '}') &&
    (forall m :: c <= m < e ==> s[m] == '}') &&
    (e == |s| || s[e] != '}')
  }

  /** A run of c from i to j that ends at j. */
  lemma {:induction false} RunEndAt(s: string, i: nat, j: nat, c: char)
    requires i <= j <= |s|
    requires forall m :: i <= m < j ==> s[m] == c
    requires j == |s| || s[j] != c
    ensures RunEnd(s, i, c) == j
    decreases j - i
  {
    if i < j {
      RunEndAt(s, i + 1, j, c);
    }
  }

  /** Step at an opening brace, in terms of the runs it finds. */
  lemma StepRuns<V>(s: string, i: nat, j: nat, c: nat, e: nat, props: map<string, V>,
                    render: (V, string) -> string)
    requires i < |s| && s[i] == '{' && RunEnd(s, i, '{') == j && FirstClose(s, j) == c
    requires c < |s| && !(c == j && j - i < 2) && RunEnd(s, c, '}') == e
    ensures var innerStart := if c == j then j - 1 else j;
      Step(s, i, props, render) == (Replacement(innerStart - i, s[innerStart..c], e - c, props, render), e)
  {
  }

  /** The scan replaces a match at i by the evaluator's text for its runs and inner text, and
      resumes after the closing run. */
  lemma StepMatch<V>(s: string, i: nat, a: nat, c: nat, e: nat, props: map<string, V>,
                     render: (V, string) -> string)
    requires MatchAt(s, i, a, c, e)
    ensures Step(s, i, props, render) == (Replacement(a, s[i + a..c], e - c, props, render), e)
  {
    RunEndAt(s, c, e, '}');
    if s[i + a] != '{' {
      RunEndAt(s, i, i + a, '{');
      FirstCloseSkips(s, i + a, c);
      StepRuns(s, i, i + a, c, e, props, render);
    } else {
      RunEndAt(s, i, i + a + 1, '{');
      StepRuns(s, i, c, c, e, props, render);
    }
  }

  /** A failure at k is the outcome from any i before it when s[i..k] holds no '{'. */
  lemma {:induction false} FailurePropagates<V>(s: string, i: nat, k: nat, props: map<string, V>,
                                                render: (V, string) -> string)
    requires i <= k <= |s|
    requires forall m :: i <= m < k ==> s[m] != '{'
    requires FormatFrom(s, k, props, render).Failure?
    ensures FormatFrom(s, i, props, render) == FormatFrom(s, k, props, render)
    decreases k - i
  {
    if i < k {
      FailurePropagates(s, i + 1, k, props, render);
      var rest := FormatFrom(s, i + 1, props, render);
      assert rest.Failure?;
      FormatFromPlain(s, i, props, render);
    }
  }

  /** Escaped braces: a match whose runs are both even becomes half the opening braces, the
      inner text as it stands and half the closing braces. */
  lemma FormatEscapedBraces<V>(s: string, i: nat, a: nat, c: nat, e: nat, props: map<string, V>,
                               render: (V, string) -> string)
    requires MatchAt(s, i, a, c, e) && a % 2 == 0 && (e - c) % 2 == 0
    ensures FormatFrom(s, i, props, render) ==
      (var rest := FormatFrom(s, e, props, render);
       if rest.Success? then Success(Repeat('{', a / 2) + s[i + a..c] + Repeat('}', (e - c) / 2) + rest.value)
       else rest)
  {
    StepMatch(s, i, a, c, e, props, render);
  }

  /** A placeholder: a match whose runs are both odd becomes half the opening braces (rounded
      down) and the rendering of the property its field name names; the closing braces are
      dropped. */
  lemma FormatField<V>(s: string, i: nat, a: nat, c: nat, e: nat, props: map<string, V>,
                       render: (V, string) -> string)
    requires MatchAt(s, i, a, c, e) && a % 2 == 1 && (e - c) % 2 == 1
    requires FieldName(s[i + a..c]) in props
    ensures FormatFrom(s, i, props, render) ==
      (var rest := FormatFrom(s, e, props, render);
       if rest.Success? then
         Success(Repeat('{', a / 2) + render(props[FieldName(s[i + a..c])], FormatSuffix(s[i + a..c])) + rest.value)
       else rest)
  {
    StepMatch(s, i, a, c, e, props, render);
  }

  /** Runs of different parity: any format whose first match is unbalanced throws
      ArgumentException on "format". */
  lemma FormatUnbalanced<V>(s: string, i: nat, a: nat, c: nat, e: nat, props: map<string, V>,
                            render: (V, string) -> string)
    requires MatchAt(s, i, a, c, e) && a % 2 != (e - c) % 2
    requires forall m :: 0 <= m < i ==> s[m] != '{'
    ensures Format(Some(s), Some(props), render) == Failure(Argument("format"))
  {
    StepMatch(s, i, a, c, e, props, render);
    FailurePropagates(s, 0, i, props, render);
  }

  /** A placeholder naming no property: any format whose first match is a placeholder the
      argument lacks throws ArgumentException on "arg". */
  lemma FormatMissingProperty<V>(s: string, i: nat, a: nat, c: nat, e: nat, props: map<string, V>,
                                 render: (V, string) -> string)
    requires MatchAt(s, i, a, c, e) && a % 2 == 1 && (e - c) % 2 == 1
    requires FieldName(s[i + a..c]) !in props
    requires forall m :: 0 <= m < i ==> s[m] != '{'
    ensures Format(Some(s), Some(props), render) == Failure(Argument("arg"))
  {
    StepMatch(s, i, a, c, e, props, render);
    FailurePropagates(s, 0, i, props, render);
  }

  /** "{{x}}" formats to "{x}". */
  lemma EscapedExample<V>(props: map<string, V>, render: (V, string) -> string)
    ensures Format(Some("{{x}}"), Some(props), render) == Success("{x}")
  {
    var s := "{{x}}";
    assert MatchAt(s, 0, 2, 3, 5);
    FormatEscapedBraces(s, 0, 2, 3, 5, props, render);
    assert Repeat('{', 1) == "{" && Repeat('}', 1) == "}";
    assert s[2..3] == "x";
    assert FormatFrom(s, 5, props, render) == Success("");
    assert "{" + "x" + "}" + "" == "{x}";
  }

  // ---------------------------------------------------------------------------------------
  // TrimLines
  // ---------------------------------------------------------------------------------------

  predicate IsLineBreak(c: char) { c == '\n' || c == '\r' }

  /** No line break in x. */
  predicate OneLine(x: string) { forall m :: 0 <= m < |x| ==> !IsLineBreak(x[m]) }

  /** x neither starts nor ends with white space. */
  predicate Unpadded(x: string) { x == [] || (!IsWhiteSpace(x[0]) && !IsWhiteSpace(x[|x| - 1])) }

  /** The line breaks of s, in order: the separators Split removes. */
  function Breaks(s: string): seq<char>
  {
    CollectionUtils.Where(s, IsLineBreak)
  }

  /** The pieces joined again, each separator put back between its two neighbours. */
  function Interleave(pieces: seq<string>, seps: seq<char>): string
    requires |pieces| == |seps| + 1
  {
    if seps == [] then pieces[0] else pieces[0] + [seps[0]] + Interleave(pieces[1..], seps[1..])
  }

  /** String.Split(new[] { '\n', '\r' }): the pieces between separators, empty ones included.
      Putting the removed line breaks back between the pieces gives s again. */
  function Split(s: string): (r: seq<string>)
    ensures |r| > 0
    ensures forall k :: 0 <= k < |r| ==> OneLine(r[k])
    ensures |r| == |Breaks(s)| + 1 && Interleave(r, Breaks(s)) == s
    decreases |s|
  {
    var k := CollectionUtils.FirstIndexFrom(s, (c, _) => IsLineBreak(c), 0);
    if k == |s| then
      NoBreaks(s);
      [s]
    else
      var rest := Split(s[k + 1..]);
      SplitJoin(s, k, rest);
      [s[..k]] + rest
  }

  lemma {:induction false} NoBreaks(t: string)
    requires OneLine(t)
    ensures Breaks(t) == []
  {
    if t != [] {
      NoBreaks(t[1..]);
    }
  }

  /** Cutting s at the break k and splitting the rest: the pieces join back to s. */
  lemma SplitJoin(s: string, k: nat, rest: seq<string>)
    requires k < |s| && IsLineBreak(s[k]) && OneLine(s[..k])
    requires |rest| == |Breaks(s[k + 1..])| + 1 && Interleave(rest, Breaks(s[k + 1..])) == s[k + 1..]
    ensures |[s[..k]] + rest| == |Breaks(s)| + 1 && Interleave([s[..k]] + rest, Breaks(s)) == s
  {
    SplitBreaks(s, k);
    var b := Breaks(s);
    var pieces := [s[..k]] + rest;
    assert pieces[0] == s[..k] && pieces[1..] == rest;
    assert b[0] == s[k] && b[1..] == Breaks(s[k + 1..]);
    assert Interleave(pieces, b) == s[..k] + [s[k]] + s[k + 1..];
    assert s == s[..k] + [s[k]] + s[k + 1..];
  }

  /** The breaks of s around the break at k. */
  lemma SplitBreaks(s: string, k: nat)
    requires k < |s| && IsLineBreak(s[k]) && OneLine(s[..k])
    ensures Breaks(s) == [s[k]] + Breaks(s[k + 1..])
  {
    assert s == s[..k] + ([s[k]] + s[k + 1..]);
    CollectionUtils.WhereAppend(s[..k], [s[k]] + s[k + 1..], IsLineBreak);
    CollectionUtils.WhereAppend([s[k]], s[k + 1..], IsLineBreak);
    NoBreaks(s[..k]);
    assert Breaks([s[k]]) == [s[k]] + Breaks([]);
  }

  function Concat(xs: seq<string>): string
  {
    if xs == [] then "" else xs[0] + Concat(xs[1..])
  }

  /** Select(l => l.Trim()) */
  function TrimAll(xs: seq<string>): (r: seq<string>)
    ensures |r| == |xs| && forall k :: 0 <= k < |xs| ==> r[k] == Trim(xs[k])
  {
    seq(|xs|, k requires 0 <= k < |xs| => Trim(xs[k]))
  }

  /** The non-empty pieces of Split (StringSplitOptions.RemoveEmptyEntries). */
  function Lines(s: string): (r: seq<string>)
    ensures forall k :: 0 <= k < |r| ==> OneLine(r[k]) && r[k] != []
  {
    var pieces := Split(s);
    var r := CollectionUtils.WhereNot(pieces, (l: string) => l == []);
    assert forall k :: 0 <= k < |r| ==> r[k] in pieces;
    r
  }

  /** TrimLines: splits at '\n' and '\r' dropping empty pieces, trims each piece and joins
      them. A null string throws ArgumentNullException. */
  function TrimLines(str: Option<string>): (r: Result<string>)
    ensures str.None? <==> r == Failure(ArgumentNull("str"))
  {
    if str.None? then Failure(ArgumentNull("str"))
    else Success(Concat(TrimAll(Lines(str.value))))
  }

  lemma JoinOneLine(a: string, b: string)
    requires OneLine(a) && OneLine(b)
    ensures OneLine(a + b)
  {
    forall m | 0 <= m < |a + b| ensures !IsLineBreak((a + b)[m]) {
      if m < |a| { assert (a + b)[m] == a[m]; } else { assert (a + b)[m] == b[m - |a|]; }
    }
  }

  lemma JoinUnpadded(a: string, b: string)
    requires Unpadded(a) && Unpadded(b)
    ensures Unpadded(a + b)
  {
    if a != [] {
      assert (a + b)[0] == a[0];
    }
    if b != [] {
      assert (a + b)[|a + b| - 1] == b[|b| - 1];
    }
  }

  /** Joined trimmed lines contain no line break and are not padded by white space. */
  lemma {:induction false} ConcatTrimmed(xs: seq<string>)
    requires forall k :: 0 <= k < |xs| ==> OneLine(xs[k]) && Unpadded(xs[k])
    ensures OneLine(Concat(xs)) && Unpadded(Concat(xs))
  {
    if xs != [] {
      ConcatTrimmed(xs[1..]);
      JoinOneLine(xs[0], Concat(xs[1..]));
      JoinUnpadded(xs[0], Concat(xs[1..]));
    }
  }

  lemma TrimIsInfix(s: string)
    ensures var n := |s| - |TrimStart(s)|; n + |Trim(s)| <= |s| && Trim(s) == s[n..n + |Trim(s)|]
  {
    var n := LeadingWhite(s);
    var t := s[n..];
    var e := TrailingStart(t);
    assert Trim(s) == t[..e];
    assert t[..e] == s[n..n + e];
  }

  lemma TrimmedLine(x: string)
    requires OneLine(x)
    ensures OneLine(Trim(x)) && Unpadded(Trim(x))
  {
    TrimEnds(x);
    TrimIsInfix(x);
    var n := |x| - |TrimStart(x)|;
    forall m | 0 <= m < |Trim(x)| ensures !IsLineBreak(Trim(x)[m]) {
      assert Trim(x)[m] == x[n + m];
    }
  }

  /** The output of TrimLines is one line: it contains no '\n' or '\r' and is not padded by
      white space, so applying TrimLines again changes nothing. */
  lemma TrimLinesIdempotent(s: string)
    ensures TrimLines(Some(s)).Success?
    ensures var r := TrimLines(Some(s)).value;
      OneLine(r) && TrimLines(Some(r)) == Success(r)
  {
    var lines := Lines(s);
    var trimmed := TrimAll(lines);
    forall k | 0 <= k < |trimmed| ensures OneLine(trimmed[k]) && Unpadded(trimmed[k]) {
      TrimmedLine(lines[k]);
    }
    ConcatTrimmed(trimmed);
    var r := Concat(trimmed);
    assert TrimLines(Some(s)) == Success(r);
    OneLineSplit(r);
    if r == [] {
      assert Lines(r) == [];
    } else {
      assert Lines(r) == [r];
      TrimNoOp(r);
      assert TrimAll([r]) == [r];
      assert Concat([r]) == r + Concat([]) == r;
      calc {
        TrimLines(Some(r));
        Success(Concat(TrimAll(Lines(r))));
        Success(Concat(TrimAll([r])));
        Success(Concat([r]));
      }
    }
  }

  lemma OneLineSplit(r: string)
    requires OneLine(r)
    ensures Split(r) == [r]
  {
    assert CollectionUtils.FirstIndexFrom(r, (c, _) => IsLineBreak(c), 0) == |r|;
  }

  // ---------------------------------------------------------------------------------------
  // ContainsCI
  // ---------------------------------------------------------------------------------------

  /** ContainsCI(s, t): s.ToLower().Contains(t.ToLower()). */
  predicate ContainsCI(s: string, t: string) {
    Contains(ToLower(s), ToLower(t))
  }

  /** ContainsCI holds exactly when t occurs in s up to letter case. */
  lemma ContainsCIIff(s: string, t: string)
    ensures ContainsCI(s, t) <==> exists i :: OccursAt(ToLower(s), ToLower(t), i)
  {
    ContainsIff(ToLower(s), ToLower(t));
  }

  /** Letter case of either argument does not matter, and every string contains itself. */
  lemma ContainsCICaseBlind(s: string, t: string)
    ensures ContainsCI(ToLower(s), t) == ContainsCI(s, t)
    ensures ContainsCI(s, ToLower(t)) == ContainsCI(s, t)
    ensures ContainsCI(s, s)
  {
    ToLowerIdempotent(s);
    ToLowerIdempotent(t);
    ContainsIff(ToLower(s), ToLower(s));
    assert OccursAt(ToLower(s), ToLower(s), 0);
  }
}
