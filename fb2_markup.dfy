/** The tag mapper of HtmlUtils.cs (and its line-for-line copy in Fb2Utils.cs): HTML chunks to
    FictionBook 2 markup. The output is described as a sequence of `Fragment`s, each one call
    that appends to the StringBuilder, and `Render` gives the text those calls append. */
module Fb2Markup {
  import opened Wrappers
  import opened Strings
  import opened Html

  // ---------------------------------------------------------------------------------------
  // Output fragments
  // ---------------------------------------------------------------------------------------

  datatype Fragment =
    | Chars(text: string)          // text appended as it is
    | StyleOpen(style: string)     // <style name="…">
    | BareStyleOpen                // <style>
    | StyleClose                   // </style>
    | ElemOpen(elem: string)       // <elem>
    | ElemClose(elem: string)      // </elem>
    | EmptyLine                    // <empty-line/>
    | Separator                    // <subtitle>* * *</subtitle>
    | Image(href: string)          // <image l:href="#…"/>

  function RenderFragment(f: Fragment): string
  {
    match f
    case Chars(t) => t
    case StyleOpen(n) => "<style name=\"" + n + "\">"
    case BareStyleOpen => "<style>"
    case StyleClose => "</style>"
    case ElemOpen(e) => "<" + e + ">"
    case ElemClose(e) => "</" + e + ">"
    case EmptyLine => "<empty-line/>"
    case Separator => "<subtitle>* * *</subtitle>"
    case Image(h) => "<image l:href=\"#" + h + "\"/>"
  }

  function Render(fs: seq<Fragment>): string
  {
    if fs == [] then "" else RenderFragment(fs[0]) + Render(fs[1..])
  }

  lemma {:induction false} RenderAppend(a: seq<Fragment>, b: seq<Fragment>)
    ensures Render(a + b) == Render(a) + Render(b)
    decreases |a|
  {
    if a == [] {
      assert a + b == b;
    } else {
      assert (a + b)[0] == a[0];
      assert (a + b)[1..] == a[1..] + b;
      RenderAppend(a[1..], b);
      calc {
        Render(a + b);
        RenderFragment(a[0]) + Render(a[1..] + b);
        RenderFragment(a[0]) + (Render(a[1..]) + Render(b));
        (RenderFragment(a[0]) + Render(a[1..])) + Render(b);
      }
    }
  }

  lemma RenderOne(f: Fragment)
    ensures Render([f]) == RenderFragment(f)
  {
    assert [f][1..] == [];
  }

  lemma RenderTwo(f: Fragment, g: Fragment)
    ensures Render([f, g]) == RenderFragment(f) + RenderFragment(g)
  {
    assert [f, g][1..] == [g];
    RenderOne(g);
  }

  // ---------------------------------------------------------------------------------------
  // HtmlColorToGray
  // ---------------------------------------------------------------------------------------

  type Byte = x: int | 0 <= x < 256

  /** A colour as ColorTranslator.FromHtml returns it (alpha is not used). */
  datatype Rgb = Rgb(r: Byte, g: Byte, b: Byte)

  /** The value of a hexadecimal digit, either case. */
  function HexValue(c: char): Option<nat>
  {
    if '0' <= c <= '9' then Some(c as int - '0' as int)
    else if 'a' <= c <= 'f' then Some(c as int - 'a' as int + 10)
    else if 'A' <= c <= 'F' then Some(c as int - 'A' as int + 10)
    else None
  }

  /** Convert.ToInt32(hi + lo, 16) for two characters. */
  function HexPair(hi: char, lo: char): (r: Option<Byte>)
  {
    var h := HexValue(hi);
    var l := HexValue(lo);
    if h.Some? && l.Some? && h.value < 16 && l.value < 16 then Some(h.value * 16 + l.value) else None
  }

  /** ColorTranslator.FromHtml: "#RRGGBB" and "#RGB" are read as hexadecimal (each digit of
      the short form is doubled); any other text is a colour name, resolved by `namedColor`.
      None stands for the exception FromHtml throws. */
  function FromHtml(htmlColor: string, namedColor: string -> Option<Rgb>): Option<Rgb>
  {
    if |htmlColor| == 7 && htmlColor[0] == '#' then
      var r := HexPair(htmlColor[1], htmlColor[2]);
      var g := HexPair(htmlColor[3], htmlColor[4]);
      var b := HexPair(htmlColor[5], htmlColor[6]);
      if r.Some? && g.Some? && b.Some? then Some(Rgb(r.value, g.value, b.value)) else None
    else if |htmlColor| == 4 && htmlColor[0] == '#' then
      var r := HexPair(htmlColor[1], htmlColor[1]);
      var g := HexPair(htmlColor[2], htmlColor[2]);
      var b := HexPair(htmlColor[3], htmlColor[3]);
      if r.Some? && g.Some? && b.Some? then Some(Rgb(r.value, g.value, b.value)) else None
    else namedColor(htmlColor)
  }

  /** Int32.ToString("X")[0] for a value below 16. */
  function HexDigitUpper(v: nat): (d: char)
    requires v < 16
    ensures ('0' <= d <= '9' || 'A' <= d <= 'F')
    ensures HexValue(d) == Some(v)
  {
    if v < 10 then ('0' as int + v) as char else ('A' as int + v - 10) as char
  }

  /** The luminance 0.3R + 0.59G + 0.11B, truncated, in integer arithmetic. */
  function Luminance(c: Rgb): (l: nat)
    ensures l <= 255
  {
    (30 * c.r + 59 * c.g + 11 * c.b) / 100
  }

  /** HtmlColorToGray: the grey level of the colour in sixteen steps, as one uppercase
      hexadecimal digit; '0' when the colour cannot be read. */
  function HtmlColorToGray(htmlColor: string, namedColor: string -> Option<Rgb>): (d: char)
    ensures '0' <= d <= '9' || 'A' <= d <= 'F'
    ensures FromHtml(htmlColor, namedColor).None? ==> d == '0'
    ensures FromHtml(htmlColor, namedColor).Some? ==>
      HexValue(d) == Some(Luminance(FromHtml(htmlColor, namedColor).value) / 16)
  {
    var c := FromHtml(htmlColor, namedColor);
    if c.None? then '0' else HexDigitUpper(Luminance(c.value) / 16)
  }

  /** Black is grey level '0', white is 'F', and the link colour #222222 is '2'; the short
      form "#RGB" gives the grey of "#RRGGBB". */
  lemma GrayLevels(namedColor: string -> Option<Rgb>)
    ensures HtmlColorToGray("#000000", namedColor) == '0'
    ensures HtmlColorToGray("#FFFFFF", namedColor) == 'F'
    ensures HtmlColorToGray("#ffffff", namedColor) == 'F'
    ensures HtmlColorToGray("#222222", namedColor) == '2'
    ensures HtmlColorToGray("#222", namedColor) == '2'
  {
  }

  lemma ShortFormGray(x: char, y: char, z: char, namedColor: string -> Option<Rgb>)
    ensures HtmlColorToGray(['#', x, y, z], namedColor) ==
            HtmlColorToGray(['#', x, x, y, y, z, z], namedColor)
  {
  }

  /** The grey level never falls when a channel grows. */
  lemma GrayMonotone(c: Rgb, d: Rgb)
    requires c.r <= d.r && c.g <= d.g && c.b <= d.b
    ensures Luminance(c) / 16 <= Luminance(d) / 16
  {
    var x := 30 * c.r + 59 * c.g + 11 * c.b;
    var y := 30 * d.r + 59 * d.g + 11 * d.b;
    assert x <= y;
    assert x / 100 <= y / 100;
  }

  // ---------------------------------------------------------------------------------------
  // The tag table
  // ---------------------------------------------------------------------------------------

  /** HtmlEncode and the colour-name lookup the mapper relies on. */
  datatype Runtime = Runtime(htmlEncode: string -> string, namedColor: string -> Option<Rgb>)

  const StyleTags: set<string> := {"strike", "s", "u", "b", "strong", "i", "em", "big"}
  const HeadingTags: set<string> := {"h1", "h2", "h3", "h4", "h5", "h6"}
  const CodeTags: set<string> := {"code", "pre", "tt"}
  const ListItemTags: set<string> := {"li", "dt", "dd"}
  const PassThroughTags: set<string> := {"sup", "sub", "p", "cite", "table", "tr", "th", "td"}
  const LineBreakTags: set<string> := {"br", "ol", "ul"}

  /** The style an opening tag of the style family selects. */
  function StyleOf(name: string): string
    requires name in StyleTags
  {
    if name == "strike" || name == "s" then "s"
    else if name == "u" then "u"
    else if name == "b" || name == "strong" then "b"
    else if name == "i" || name == "em" then "i"
    else "large"
  }

  /** The size style an opening heading selects before bold. */
  function HeadingSize(name: string): string
    requires name in HeadingTags
  {
    if name == "h1" then "xxlarge" else if name == "h2" || name == "h3" then "xlarge" else "large"
  }

  /** AppendColorStyle: the style "col" followed by the grey digit. */
  function ColorStyle(htmlColor: string, rt: Runtime): Fragment
  {
    StyleOpen("col" + [HtmlColorToGray(htmlColor, rt.namedColor)])
  }

  /** The style an Int32 font size selects; None for size 3. */
  function SizeStyle(size: int): Option<string>
  {
    if size < 3 then Some("small")
    else if size >= 7 then Some("xxlarge")
    else if size >= 5 then Some("xlarge")
    else if size > 3 then Some("large")
    else None
  }

  /** An opening `font`: its colour wins over its size; a size that is absent or is not an
      Int32 leaves a bare <style>. */
  function FontOpen(params: map<string, string>, rt: Runtime): seq<Fragment>
  {
    if "color" in params then [ColorStyle(params["color"], rt)]
    else if "size" in params && TryParseInt32(params["size"]).Some? then
      var style := SizeStyle(TryParseInt32(params["size"]).value);
      if style.Some? then [StyleOpen(style.value)] else []
    else [BareStyleOpen]
  }

  /** What the Open branch of AppendConvertedChunk appends. "hALL" is the label the heading
      cases jump to, so a tag with that literal name reaches it as well. */
  function OpenFragments(t: Token, rt: Runtime): seq<Fragment>
    requires t.Tag?
  {
    var n := t.name;
    if n in StyleTags then [StyleOpen(StyleOf(n))]
    else if n == "font" then FontOpen(t.params, rt)
    else if n == "a" then [StyleOpen("u"), ColorStyle("#222222", rt)]
    else if n in ListItemTags then [EmptyLine]
    else BlockOpenFragments(n)
  }

  /** The rest of the Open branch: headings, code and the pass-through elements. */
  function BlockOpenFragments(n: string): seq<Fragment>
  {
    if n in HeadingTags then [StyleOpen(HeadingSize(n)), StyleOpen("b")]
    else if n == "hALL" then [StyleOpen("b")]
    else if n in CodeTags then [ElemOpen("code"), StyleOpen("mono")]
    else if n in PassThroughTags then [ElemOpen(n)]
    else []
  }

  /** What the Close branch appends. */
  function CloseFragments(n: string): seq<Fragment>
  {
    if n in StyleTags || n == "font" then [StyleClose]
    else if n == "a" || n in HeadingTags then [StyleClose, StyleClose]
    else if n in CodeTags then [StyleClose, ElemClose("code")]
    else if n in PassThroughTags then [ElemClose(n)]
    else []
  }

  /** What the default branch appends; every tag kind reaches it. */
  function DefaultFragments(t: Token): seq<Fragment>
    requires t.Tag?
  {
    var n := t.name;
    if n == "img" then
      (if "src" in t.params && ImgSrcMatches(t.params["src"]) then [Image(t.params["src"])] else [])
    else if n == "hr" then [Separator]
    else if n in LineBreakTags then [EmptyLine]
    else []
  }

  /** The part of AppendConvertedChunk that depends on the tag kind. */
  function KindFragments(t: Token, rt: Runtime): seq<Fragment>
    requires t.Tag?
  {
    match t.kind
    case Open => OpenFragments(t, rt)
    case Close => CloseFragments(t.name)
    case SelfClose => []
  }

  /** AppendConvertedChunk: the kind's own part, then the default part. */
  function TagFragments(t: Token, rt: Runtime): seq<Fragment>
    requires t.Tag?
  {
    KindFragments(t, rt) + DefaultFragments(t)
  }

  /** One chunk: text is HTML-encoded, tags are converted, comments and scripts are dropped. */
  function ChunkFragments(t: Token, rt: Runtime): seq<Fragment>
  {
    match t
    case Text(s) => [Chars(rt.htmlEncode(s))]
    case Tag(_, _, _) => TagFragments(t, rt)
    case _ => []
  }

  /** The fragments of a chunk sequence, chunk by chunk in input order. */
  function Fragments(chunks: seq<Token>, rt: Runtime): seq<Fragment>
  {
    FlatMap(chunks, (t: Token) => ChunkFragments(t, rt))
  }

  /** SelectMany: f's results for the elements of s, concatenated in order. */
  function FlatMap<A, B>(s: seq<A>, f: A -> seq<B>): seq<B>
  {
    if s == [] then [] else FlatMap(s[..|s| - 1], f) + f(s[|s| - 1])
  }

  lemma {:induction false} FlatMapCons<A, B>(x: A, s: seq<A>, f: A -> seq<B>)
    ensures FlatMap([x] + s, f) == f(x) + FlatMap(s, f)
    decreases |s|
  {
    if s == [] {
      assert [x] + s == [x];
      assert [x][..0] == [];
    } else {
      var xs := [x] + s;
      var init := s[..|s| - 1];
      assert xs[..|xs| - 1] == [x] + init;
      assert xs[|xs| - 1] == s[|s| - 1];
      FlatMapCons(x, init, f);
    }
  }

  lemma FlatMapSnoc<A, B>(s: seq<A>, i: nat, f: A -> seq<B>)
    requires i < |s|
    ensures FlatMap(s[..i + 1], f) == FlatMap(s[..i], f) + f(s[i])
  {
    assert s[..i + 1][..i] == s[..i];
  }

  lemma FragmentsCons(t: Token, s: seq<Token>, rt: Runtime)
    ensures Fragments([t] + s, rt) == ChunkFragments(t, rt) + Fragments(s, rt)
  {
    FlatMapCons(t, s, (t: Token) => ChunkFragments(t, rt));
  }

  // ---------------------------------------------------------------------------------------
  // The StringBuilder code
  // ---------------------------------------------------------------------------------------

  method AppendStyle(sb: StringBuilder, styleName: string)
    modifies sb
    ensures sb.text == old(sb.text) + RenderFragment(StyleOpen(styleName))
  {
    sb.Append("<style name=\"" + styleName + "\">");
  }

  method AppendCloseStyle(sb: StringBuilder)
    modifies sb
    ensures sb.text == old(sb.text) + RenderFragment(StyleClose)
  {
    sb.Append("</style>");
  }

  method AppendColorStyle(sb: StringBuilder, htmlColor: string, rt: Runtime)
    modifies sb
    ensures sb.text == old(sb.text) + RenderFragment(ColorStyle(htmlColor, rt))
  {
    AppendStyle(sb, "col" + [HtmlColorToGray(htmlColor, rt.namedColor)]);
  }

  /** The opening `font` case. */
  method AppendFontOpen(sb: StringBuilder, p: map<string, string>, rt: Runtime)
    modifies sb
    ensures sb.text == old(sb.text) + Render(FontOpen(p, rt))
  {
    if "color" in p {
      AppendColorStyle(sb, p["color"], rt);
      RenderOne(ColorStyle(p["color"], rt));
    } else if "size" in p && TryParseInt32(p["size"]).Some? {
      var size := TryParseInt32(p["size"]).value;
      if size < 3 {
        AppendStyle(sb, "small");
      } else if size >= 7 {
        AppendStyle(sb, "xxlarge");
      } else if size >= 5 {
        AppendStyle(sb, "xlarge");
      } else if size > 3 {
        AppendStyle(sb, "large");
      }
      if SizeStyle(size).Some? {
        RenderOne(StyleOpen(SizeStyle(size).value));
      }
    } else {
      sb.Append("<style>");
      RenderOne(BareStyleOpen);
    }
  }

  /** The `case HtmlTagType.Open` switch. */
  method AppendOpen(sb: StringBuilder, chunk: Token, rt: Runtime)
    requires chunk.Tag?
    modifies sb
    ensures sb.text == old(sb.text) + Render(OpenFragments(chunk, rt))
  {
    var n := chunk.name;
    if n in StyleTags {
      AppendStyle(sb, StyleOf(n));
      RenderOne(StyleOpen(StyleOf(n)));
    } else if n == "font" {
      AppendFontOpen(sb, chunk.params, rt);
    } else if n == "a" {
      AppendStyle(sb, "u");
      AppendColorStyle(sb, "#222222", rt);
      RenderTwo(StyleOpen("u"), ColorStyle("#222222", rt));
    } else if n in ListItemTags {
      sb.Append("<empty-line/>");
      RenderOne(EmptyLine);
    } else {
      AppendBlockOpen(sb, n);
    }
  }

  /** The heading, code and pass-through cases of the Open switch. */
  method AppendBlockOpen(sb: StringBuilder, n: string)
    modifies sb
    ensures sb.text == old(sb.text) + Render(BlockOpenFragments(n))
  {
    if n in HeadingTags {
      assert BlockOpenFragments(n) == [StyleOpen(HeadingSize(n)), StyleOpen("b")];
      AppendStyle(sb, HeadingSize(n));
      AppendStyle(sb, "b");
      RenderTwo(StyleOpen(HeadingSize(n)), StyleOpen("b"));
    } else if n == "hALL" {
      assert BlockOpenFragments(n) == [StyleOpen("b")];
      AppendStyle(sb, "b");
      RenderOne(StyleOpen("b"));
    } else if n in CodeTags {
      assert BlockOpenFragments(n) == [ElemOpen("code"), StyleOpen("mono")];
      sb.Append("<code>");
      AppendStyle(sb, "mono");
      RenderTwo(ElemOpen("code"), StyleOpen("mono"));
    } else if n in PassThroughTags {
      assert BlockOpenFragments(n) == [ElemOpen(n)];
      sb.Append("<" + n + ">");
      RenderOne(ElemOpen(n));
    } else {
      assert BlockOpenFragments(n) == [];
    }
  }

  /** The `case HtmlTagType.Close` switch. */
  method AppendClose(sb: StringBuilder, n: string)
    modifies sb
    ensures sb.text == old(sb.text) + Render(CloseFragments(n))
  {
    if n in StyleTags || n == "font" {
      AppendCloseStyle(sb);
      RenderOne(StyleClose);
    } else if n == "a" || n in HeadingTags {
      AppendCloseStyle(sb);
      AppendCloseStyle(sb);
      RenderTwo(StyleClose, StyleClose);
    } else if n in CodeTags {
      AppendCloseStyle(sb);
      sb.Append("</code>");
      RenderTwo(StyleClose, ElemClose("code"));
    } else if n in PassThroughTags {
      sb.Append("</" + n + ">");
      RenderOne(ElemClose(n));
    }
  }

  /** The `default` switch, reached by every tag kind. */
  method AppendDefault(sb: StringBuilder, chunk: Token)
    requires chunk.Tag?
    modifies sb
    ensures sb.text == old(sb.text) + Render(DefaultFragments(chunk))
  {
    var n := chunk.name;
    if n == "img" {
      if "src" in chunk.params && ImgSrcMatches(chunk.params["src"]) {
        sb.Append("<image l:href=\"#" + chunk.params["src"] + "\"/>");
        RenderOne(Image(chunk.params["src"]));
      }
    } else if n == "hr" {
      sb.Append("<subtitle>* * *</subtitle>");
      RenderOne(Separator);
    } else if n in LineBreakTags {
      sb.Append("<empty-line/>");
      RenderOne(EmptyLine);
    }
  }

  /** The switch on the tag kind, before the default part. */
  method AppendKindPart(sb: StringBuilder, chunk: Token, rt: Runtime)
    requires chunk.Tag?
    modifies sb
    ensures sb.text == old(sb.text) + Render(KindFragments(chunk, rt))
  {
    match chunk.kind {
      case Open => AppendOpen(sb, chunk, rt);
      case Close => AppendClose(sb, chunk.name);
      case SelfClose =>
    }
  }

  lemma ConcatRender(before: string, k: seq<Fragment>, d: seq<Fragment>)
    ensures (before + Render(k)) + Render(d) == before + Render(k + d)
  {
    RenderAppend(k, d);
  }

  /** AppendConvertedChunk(sb, chunk) */
  method AppendConvertedChunk(sb: StringBuilder, chunk: Token, rt: Runtime)
    requires chunk.Tag?
    modifies sb
    ensures sb.text == old(sb.text) + Render(TagFragments(chunk, rt))
  {
    AppendKindPart(sb, chunk, rt);
    AppendDefault(sb, chunk);
    ConcatRender(old(sb.text), KindFragments(chunk, rt), DefaultFragments(chunk));
  }

  /** One iteration of the loop in CombineToFb2. */
  method AppendChunk(sb: StringBuilder, chunk: Token, rt: Runtime)
    modifies sb
    ensures sb.text == old(sb.text) + Render(ChunkFragments(chunk, rt))
  {
    if chunk.Text? {
      sb.Append(rt.htmlEncode(chunk.text));
      RenderOne(Chars(rt.htmlEncode(chunk.text)));
    } else if chunk.Tag? {
      AppendConvertedChunk(sb, chunk, rt);
    }
  }

  lemma RenderFragmentsStep(s: seq<Token>, i: nat, rt: Runtime)
    requires i < |s|
    ensures Render(Fragments(s[..i + 1], rt)) == Render(Fragments(s[..i], rt)) + Render(ChunkFragments(s[i], rt))
  {
    FlatMapSnoc(s, i, (t: Token) => ChunkFragments(t, rt));
    RenderAppend(Fragments(s[..i], rt), ChunkFragments(s[i], rt));
  }

  /** HtmlUtils.CombineToFb2 (Fb2Utils.Combine): a null sequence throws; otherwise the result
      is the rendering of every chunk's fragments, in input order. */
  method CombineToFb2(chunks: Option<seq<Token>>, rt: Runtime) returns (r: Result<string>)
    ensures chunks.None? ==> r == Failure(ArgumentNull("chunks"))
    ensures chunks.Some? ==> r == Success(Render(Fragments(chunks.value, rt)))
  {
    if chunks.None? {
      return Failure(ArgumentNull("chunks"));
    }
    var s := chunks.value;
    var result := new StringBuilder();
    var i := 0;
    while i < |s|
      invariant 0 <= i <= |s|
      invariant result.text == Render(Fragments(s[..i], rt))
    {
      AppendChunk(result, s[i], rt);
      RenderFragmentsStep(s, i, rt);
      i := i + 1;
    }
    assert s[..i] == s;
    return Success(result.text);
  }

  // ---------------------------------------------------------------------------------------
  // The table, tag by tag
  // ---------------------------------------------------------------------------------------

  /** Each style-family tag opens exactly one style and its closing tag closes exactly one. */
  lemma StyleFamily(n: string, p: map<string, string>, rt: Runtime)
    requires n in StyleTags
    ensures TagFragments(Tag(n, Open, p), rt) == [StyleOpen(StyleOf(n))]
    ensures TagFragments(Tag(n, Close, p), rt) == [StyleClose]
    ensures TagFragments(Tag(n, SelfClose, p), rt) == []
  {
  }

  /** A link opens underline plus the grey of #222222, and its closing tag closes both. */
  lemma LinkRule(p: map<string, string>, rt: Runtime)
    ensures TagFragments(Tag("a", Open, p), rt) == [StyleOpen("u"), StyleOpen("col2")]
    ensures TagFragments(Tag("a", Close, p), rt) == [StyleClose, StyleClose]
  {
    GrayLevels(rt.namedColor);
    assert "col" + ['2'] == "col2";
  }

  /** A heading opens its size (h1 xxlarge, h2-h3 xlarge, h4-h6 large) plus bold, and its
      closing tag closes both. */
  lemma HeadingRule(n: string, p: map<string, string>, rt: Runtime)
    requires n in HeadingTags
    ensures TagFragments(Tag(n, Open, p), rt) ==
      [StyleOpen(if n == "h1" then "xxlarge" else if n == "h2" || n == "h3" then "xlarge" else "large"),
       StyleOpen("b")]
    ensures TagFragments(Tag(n, Close, p), rt) == [StyleClose, StyleClose]
  {
    assert TagFragments(Tag(n, Close, p), rt) == [StyleClose, StyleClose];
  }

  /** code, pre and tt nest as <code><style name="mono"> … </style></code>. */
  lemma CodeNesting(n: string, p: map<string, string>, rt: Runtime)
    requires n in CodeTags
    ensures TagFragments(Tag(n, Open, p), rt) == [ElemOpen("code"), StyleOpen("mono")]
    ensures TagFragments(Tag(n, Close, p), rt) == [StyleClose, ElemClose("code")]
  {
  }

  /** img, hr, br, ol and ul produce output whatever the tag kind: an image only for a source
      passing ^\d+.jpe?g$, and a closing </br> breaks the line just as <br> does. */
  lemma DefaultForEveryKind(n: string, k: TagKind, p: map<string, string>, rt: Runtime)
    requires n == "img" || n == "hr" || n in LineBreakTags
    ensures n == "img" && "src" in p && ImgSrcMatches(p["src"]) ==>
      TagFragments(Tag(n, k, p), rt) == [Image(p["src"])]
    ensures n == "img" && !("src" in p && ImgSrcMatches(p["src"])) ==> TagFragments(Tag(n, k, p), rt) == []
    ensures n == "hr" ==> TagFragments(Tag(n, k, p), rt) == [Separator]
    ensures n in LineBreakTags ==> TagFragments(Tag(n, k, p), rt) == [EmptyLine]
  {
  }

  // ---------------------------------------------------------------------------------------
  // Balance of the output
  // ---------------------------------------------------------------------------------------

  /** An open marker on the output: a style or an element. */
  datatype Mark = StyleMark | ElemMark(elem: string)

  /** What one fragment does to the stack of open markers; None when it closes a marker that
      is not the innermost open one. */
  function Step(stack: seq<Mark>, f: Fragment): Option<seq<Mark>>
  {
    match f
    case StyleOpen(_) => Some(stack + [StyleMark])
    case BareStyleOpen => Some(stack + [StyleMark])
    case ElemOpen(e) => Some(stack + [ElemMark(e)])
    case StyleClose =>
      if stack != [] && stack[|stack| - 1] == StyleMark then Some(stack[..|stack| - 1]) else None
    case ElemClose(e) =>
      if stack != [] && stack[|stack| - 1] == ElemMark(e) then Some(stack[..|stack| - 1]) else None
    case _ => Some(stack)
  }

  /** Checks the output fragments as an XML parser would: every </style> or </elem> must
      close the innermost open marker. */
  function Run(stack: seq<Mark>, fs: seq<Fragment>): Option<seq<Mark>>
    decreases |fs|
  {
    if fs == [] then Some(stack)
    else
      var next := Step(stack, fs[0]);
      if next.None? then None else Run(next.value, fs[1..])
  }

  /** Every marker the fragments open is closed by them, innermost first. */
  predicate Balanced(fs: seq<Fragment>)
  {
    Run([], fs) == Some([])
  }

  lemma {:induction false} RunAppend(stack: seq<Mark>, a: seq<Fragment>, b: seq<Fragment>)
    ensures Run(stack, a + b) == if Run(stack, a).None? then None else Run(Run(stack, a).value, b)
    decreases |a|
  {
    if a == [] {
      assert a + b == b;
    } else {
      assert (a + b)[0] == a[0];
      assert (a + b)[1..] == a[1..] + b;
      var next := Step(stack, a[0]);
      if next.Some? {
        RunAppend(next.value, a[1..], b);
      }
    }
  }

  lemma RunOne(stack: seq<Mark>, f: Fragment)
    ensures Run(stack, [f]) == Step(stack, f)
  {
    assert [f][1..] == [];
  }

  lemma RunTwo(stack: seq<Mark>, f: Fragment, g: Fragment)
    ensures Run(stack, [f, g]) == if Step(stack, f).None? then None else Step(Step(stack, f).value, g)
  {
    assert [f, g][1..] == [g];
    if Step(stack, f).Some? {
      RunOne(Step(stack, f).value, g);
    }
  }

  /** The default part opens and closes nothing. */
  lemma DefaultNeutral(t: Token, stack: seq<Mark>)
    requires t.Tag?
    ensures Run(stack, DefaultFragments(t)) == Some(stack)
  {
    var d := DefaultFragments(t);
    if d != [] {
      RunOne(stack, d[0]);
    }
  }

  /** What one input chunk does to the stack of open tags: an opening tag is pushed, a closing
      tag must match the innermost open one and pops it; everything else leaves the stack. */
  function NestStep(open: seq<Token>, t: Token): Option<seq<Token>>
  {
    if t.Tag? && t.kind == Open then Some(open + [t])
    else if t.Tag? && t.kind == Close then
      if open != [] && open[|open| - 1].Tag? && open[|open| - 1].name == t.name then Some(open[..|open| - 1]) else None
    else Some(open)
  }

  /** The nesting of the input, chunk by chunk. */
  function Nest(open: seq<Token>, toks: seq<Token>): Option<seq<Token>>
    decreases |toks|
  {
    if toks == [] then Some(open)
    else
      var next := NestStep(open, toks[0]);
      if next.None? then None else Nest(next.value, toks[1..])
  }

  predicate WellNested(toks: seq<Token>)
  {
    Nest([], toks) == Some([])
  }

  /** The two openers the mapper cannot close again: `font size=3` opens nothing though
      </font> closes a style, and a literal `hALL` tag opens bold that nothing closes. */
  predicate Unbalancing(t: Token)
  {
    t.Tag? && t.kind == Open &&
    ((t.name == "font" && "color" !in t.params && "size" in t.params &&
      TryParseInt32(t.params["size"]) == Some(3)) ||
     t.name == "hALL")
  }

  /** The markers an opening tag leaves open. */
  function Opened(t: Token): seq<Mark>
  {
    if !(t.Tag? && t.kind == Open) then []
    else
      var n := t.name;
      if n in StyleTags || n == "font" || n == "hALL" then [StyleMark]
      else if n == "a" || n in HeadingTags then [StyleMark, StyleMark]
      else if n in CodeTags then [ElemMark("code"), StyleMark]
      else if n in PassThroughTags then [ElemMark(n)]
      else []
  }

  /** The markers left open by a stack of open tags. */
  function OpenMarks(open: seq<Token>): seq<Mark>
  {
    if open == [] then [] else OpenMarks(open[..|open| - 1]) + Opened(open[|open| - 1])
  }

  /** An opening tag that is not unbalancing pushes exactly the markers `Opened` names. */
  lemma OpenPart(t: Token, stack: seq<Mark>, rt: Runtime)
    requires t.Tag? && t.kind == Open && !Unbalancing(t)
    ensures Run(stack, OpenFragments(t, rt)) == Some(stack + Opened(t))
  {
    var n := t.name;
    var fs := OpenFragments(t, rt);
    if n in StyleTags || n == "font" || n == "hALL" {
      assert |fs| == 1 && (fs[0].StyleOpen? || fs[0].BareStyleOpen?);
      assert fs == [fs[0]];
      RunOne(stack, fs[0]);
      assert Opened(t) == [StyleMark];
    } else if n == "a" || n in HeadingTags {
      assert |fs| == 2 && fs[0].StyleOpen? && fs[1].StyleOpen?;
      assert fs == [fs[0], fs[1]];
      RunTwo(stack, fs[0], fs[1]);
      assert Opened(t) == [StyleMark, StyleMark];
      assert (stack + [StyleMark]) + [StyleMark] == stack + [StyleMark, StyleMark];
    } else if n in CodeTags {
      assert fs == [ElemOpen("code"), StyleOpen("mono")];
      RunTwo(stack, ElemOpen("code"), StyleOpen("mono"));
      assert Opened(t) == [ElemMark("code"), StyleMark];
      assert (stack + [ElemMark("code")]) + [StyleMark] == stack + [ElemMark("code"), StyleMark];
    } else if n in PassThroughTags {
      assert fs == [ElemOpen(n)];
      RunOne(stack, ElemOpen(n));
    } else if n in ListItemTags {
      assert fs == [EmptyLine];
      RunOne(stack, EmptyLine);
      assert Opened(t) == [];
      assert stack + [] == stack;
    } else {
      assert fs == [];
      assert Opened(t) == [];
      assert stack + [] == stack;
    }
  }

  lemma OpenStep(t: Token, stack: seq<Mark>, rt: Runtime)
    requires t.Tag? && t.kind == Open && !Unbalancing(t)
    ensures Run(stack, TagFragments(t, rt)) == Some(stack + Opened(t))
  {
    OpenPart(t, stack, rt);
    DefaultNeutral(t, stack + Opened(t));
    RunAppend(stack, OpenFragments(t, rt), DefaultFragments(t));
  }

  /** The closing tag of a balanced opener pops exactly the markers the opener pushed. */
  lemma ClosePart(u: Token, n: string, stack: seq<Mark>)
    requires u.Tag? && u.kind == Open && !Unbalancing(u) && u.name == n
    ensures Run(stack + Opened(u), CloseFragments(n)) == Some(stack)
  {
    if n in StyleTags || n == "font" {
      assert Opened(u) == [StyleMark] && CloseFragments(n) == [StyleClose];
      PopStyle(stack);
    } else if n == "a" || n in HeadingTags {
      assert Opened(u) == [StyleMark, StyleMark] && CloseFragments(n) == [StyleClose, StyleClose];
      PopTwoStyles(stack);
    } else if n in CodeTags {
      assert Opened(u) == [ElemMark("code"), StyleMark] && CloseFragments(n) == [StyleClose, ElemClose("code")];
      PopCode(stack);
    } else if n in PassThroughTags {
      assert Opened(u) == [ElemMark(n)] && CloseFragments(n) == [ElemClose(n)];
      PopElement(stack, n);
    } else {
      assert n != "hALL";
      assert Opened(u) == [];
      assert stack + Opened(u) == stack;
      assert CloseFragments(n) == [];
    }
  }

  lemma PopStyle(stack: seq<Mark>)
    ensures Run(stack + [StyleMark], [StyleClose]) == Some(stack)
  {
    var top := stack + [StyleMark];
    RunOne(top, StyleClose);
    assert top[..|top| - 1] == stack;
  }

  lemma PopTwoStyles(stack: seq<Mark>)
    ensures Run(stack + [StyleMark, StyleMark], [StyleClose, StyleClose]) == Some(stack)
  {
    var top := stack + [StyleMark, StyleMark];
    RunTwo(top, StyleClose, StyleClose);
    assert top[..|top| - 1][..|top| - 2] == stack;
  }

  lemma PopCode(stack: seq<Mark>)
    ensures Run(stack + [ElemMark("code"), StyleMark], [StyleClose, ElemClose("code")]) == Some(stack)
  {
    var top := stack + [ElemMark("code"), StyleMark];
    RunTwo(top, StyleClose, ElemClose("code"));
    assert top[..|top| - 1][..|top| - 2] == stack;
  }

  lemma PopElement(stack: seq<Mark>, n: string)
    ensures Run(stack + [ElemMark(n)], [ElemClose(n)]) == Some(stack)
  {
    var top := stack + [ElemMark(n)];
    RunOne(top, ElemClose(n));
    assert top[..|top| - 1] == stack;
  }

  lemma CloseStep(u: Token, t: Token, stack: seq<Mark>, rt: Runtime)
    requires u.Tag? && u.kind == Open && !Unbalancing(u)
    requires t.Tag? && t.kind == Close && t.name == u.name
    ensures Run(stack + Opened(u), TagFragments(t, rt)) == Some(stack)
  {
    ClosePart(u, t.name, stack);
    DefaultNeutral(t, stack);
    RunAppend(stack + Opened(u), CloseFragments(t.name), DefaultFragments(t));
  }

  /** A stack of tags that were opened without unbalancing. */
  predicate OpenStack(open: seq<Token>)
  {
    forall k :: 0 <= k < |open| ==> open[k].Tag? && open[k].kind == Open && !Unbalancing(open[k])
  }

  /** Converting one chunk turns the markers of the tags open before it into the markers of
      the tags open after it. */
  lemma ChunkStep(open: seq<Token>, t: Token, rt: Runtime)
    requires OpenStack(open) && !Unbalancing(t) && NestStep(open, t).Some?
    ensures OpenStack(NestStep(open, t).value)
    ensures Run(OpenMarks(open), ChunkFragments(t, rt)) == Some(OpenMarks(NestStep(open, t).value))
  {
    if t.Tag? && t.kind == Open {
      OpenStep(t, OpenMarks(open), rt);
      assert (open + [t])[..|open|] == open;
    } else if t.Tag? && t.kind == Close {
      var rest := open[..|open| - 1];
      var u := open[|open| - 1];
      assert open == rest + [u];
      CloseStep(u, t, OpenMarks(rest), rt);
    } else if t.Tag? {
      DefaultNeutral(t, OpenMarks(open));
      assert t.kind == SelfClose;
      assert ChunkFragments(t, rt) == DefaultFragments(t);
    } else {
      assert ChunkFragments(t, rt) == [] || ChunkFragments(t, rt) == [Chars(rt.htmlEncode(t.text))];
      if t.Text? {
        RunOne(OpenMarks(open), Chars(rt.htmlEncode(t.text)));
      }
    }
  }

  /** Converting a stretch of input turns the markers of the tags open before it into the
      markers of the tags open after it. */
  lemma {:induction false} NestRun(open: seq<Token>, toks: seq<Token>, rt: Runtime)
    requires OpenStack(open)
    requires forall k :: 0 <= k < |toks| ==> !Unbalancing(toks[k])
    requires Nest(open, toks).Some?
    ensures Run(OpenMarks(open), Fragments(toks, rt)) == Some(OpenMarks(Nest(open, toks).value))
    decreases |toks|
  {
    if toks != [] {
      var t := toks[0];
      var next := NestStep(open, t).value;
      FragmentsCons(t, toks[1..], rt);
      assert toks == [t] + toks[1..];
      ChunkStep(open, t, rt);
      NestRun(next, toks[1..], rt);
      RunAppend(OpenMarks(open), ChunkFragments(t, rt), Fragments(toks[1..], rt));
    }
  }

  /** Well-nested input without an unbalancing opener converts to balanced output: every
      <style> and <code>/<p>/… the mapper writes is closed, innermost first. */
  lemma BalancedOutput(toks: seq<Token>, rt: Runtime)
    requires WellNested(toks)
    requires forall k :: 0 <= k < |toks| ==> !Unbalancing(toks[k])
    ensures Balanced(Fragments(toks, rt))
  {
    NestRun([], toks, rt);
  }

  /** `<font size="3">…</font>` is well nested, yet its output closes a style never opened. */
  lemma FontSizeThreeUnbalanced(rt: Runtime)
    ensures var toks := [Tag("font", Open, map["size" := "3"]), Tag("font", Close, map[])];
      WellNested(toks) && Fragments(toks, rt) == [StyleClose] && !Balanced(Fragments(toks, rt))
  {
    var p: map<string, string> := map["size" := "3"];
    FontSizeThreeOpensNothing(p, rt);
    FontPair(p, rt);
    RunOne([], StyleClose);
  }

  /** `size="3"` selects no size, so the opener yields nothing. */
  lemma FontSizeThreeOpensNothing(p: map<string, string>, rt: Runtime)
    requires p == map["size" := "3"]
    ensures ChunkFragments(Tag("font", Open, p), rt) == []
  {
    assert TryParseInt32("3") == Some(3) by {
      assert NatToString(3) == "3";
      TryParseNatToString(3);
    }
  }

  /** A font opener and closer: nested, and their fragments are those of each in turn. */
  lemma FontPair(p: map<string, string>, rt: Runtime)
    ensures var toks := [Tag("font", Open, p), Tag("font", Close, map[])];
      WellNested(toks) && Fragments(toks, rt) == ChunkFragments(toks[0], rt) + [StyleClose]
  {
    var toks := [Tag("font", Open, p), Tag("font", Close, map[])];
    FragmentsCons(toks[1], [], rt);
    FragmentsCons(toks[0], [toks[1]], rt);
    assert [toks[0]] + [toks[1]] == toks;
    assert [toks[1]] + [] == [toks[1]];
    assert ChunkFragments(toks[1], rt) == [StyleClose];
    var o, c := toks[0], toks[1];
    assert [] + [o] == [o];
    assert NestStep([], o) == Some([o]);
    assert [o][..0] == [];
    assert NestStep([o], c) == Some([]);
    assert toks[1..] == [c] && [c][1..] == [];
    assert Nest([o], [c]) == Nest([], []);
  }
}
