/** The tag mapper of the older revision (ContentProcess.CombineToFb2 in the root-level
    ContentProcess.cs). It writes FB2 elements rather than styles: <strikethrough>, <emphasis>,
    <strong>, <subtitle>, <code> and the pass-through elements. Its output is described with
    the same `Fragment`s as the newer mapper. An OpenTag or CloseTag chunk with bEndClosure set
    is a `SelfClose` token. */
module LegacyMarkup {
  import opened Wrappers
  import opened Strings
  import opened Html
  import opened Fb2Markup

  /** The element the second switch writes for a tag name; None for the names it ignores. */
  function LegacyElem(n: string): Option<string>
  {
    if n == "strike" || n == "s" then Some("strikethrough")
    else if n == "u" then Some("emphasis")
    else if n == "b" || n == "strong" then Some("strong")
    else if n in HeadingTags then Some("subtitle")
    else if n == "i" || n == "em" then Some("emphasis")
    else if n in CodeTags then Some("code")
    else if n in PassThroughTags then Some(n)
    else None
  }

  /** The encoded text, followed by one space when the encoded text has none. */
  function TextFragments(text: string, rt: Runtime): seq<Fragment>
  {
    var encoded := rt.htmlEncode(text);
    [Chars(encoded)] + (if ' ' in encoded then [] else [Chars(" ")])
  }

  /** The first switch, taken by every tag kind. An img without "src" makes the dictionary
      indexer throw. */
  function AnyKindFragments(t: Token): Result<seq<Fragment>>
    requires t.Tag?
  {
    if t.name == "img" then
      if "src" in t.params then Success([Image(t.params["src"])]) else Failure(KeyNotFound)
    else if t.name == "hr" then Success([Separator])
    else if t.name == "br" then Success([EmptyLine])
    else Success([])
  }

  /** The second switch, skipped for a self-closing tag: <X> on open, </X> on close. */
  function PairedFragments(t: Token): seq<Fragment>
    requires t.Tag?
  {
    var e := LegacyElem(t.name);
    if t.kind == SelfClose || e.None? then []
    else if t.kind == Open then [ElemOpen(e.value)]
    else [ElemClose(e.value)]
  }

  /** What one chunk appends; comments and scripts append nothing. */
  function ChunkResult(t: Token, rt: Runtime): Result<seq<Fragment>>
  {
    match t
    case Text(s) => Success(TextFragments(s, rt))
    case Tag(_, _, _) =>
      var first :- AnyKindFragments(t);
      Success(first + PairedFragments(t))
    case _ => Success([])
  }

  /** The fragments of a chunk sequence in input order; the first failing chunk aborts. */
  function LegacyFragments(chunks: seq<Token>, rt: Runtime): Result<seq<Fragment>>
  {
    if chunks == [] then Success([])
    else
      var head :- ChunkResult(chunks[0], rt);
      var tail :- LegacyFragments(chunks[1..], rt);
      Success(head + tail)
  }

  /** An img chunk the first switch cannot handle. */
  predicate MissingSrc(t: Token)
  {
    t.Tag? && t.name == "img" && "src" !in t.params
  }

  /** The conversion fails exactly when some img chunk has no "src", and then with
      KeyNotFoundException. */
  lemma {:induction false} LegacyFailureIff(chunks: seq<Token>, rt: Runtime)
    ensures LegacyFragments(chunks, rt).Failure? <==> exists k :: 0 <= k < |chunks| && MissingSrc(chunks[k])
    ensures LegacyFragments(chunks, rt).Failure? ==> LegacyFragments(chunks, rt).error == KeyNotFound
  {
    if chunks != [] {
      LegacyFailureIff(chunks[1..], rt);
      assert ChunkResult(chunks[0], rt).Failure? <==> MissingSrc(chunks[0]);
      if exists k :: 0 <= k < |chunks[1..]| && MissingSrc(chunks[1..][k]) {
        var k :| 0 <= k < |chunks[1..]| && MissingSrc(chunks[1..][k]);
        assert MissingSrc(chunks[k + 1]);
      }
      if exists k :: 0 <= k < |chunks| && MissingSrc(chunks[k]) {
        var k :| 0 <= k < |chunks| && MissingSrc(chunks[k]);
        if k > 0 {
          assert chunks[1..][k - 1] == chunks[k];
        }
      }
    }
  }

  // ---------------------------------------------------------------------------------------
  // The string-concatenating loop
  // ---------------------------------------------------------------------------------------

  /** `case HTMLchunkType.Text` */
  method AppendText(result: string, text: string, rt: Runtime) returns (r: string)
    ensures r == result + Render(TextFragments(text, rt))
  {
    var encoded := rt.htmlEncode(text);
    r := result + encoded;
    if !(' ' in encoded) {
      r := r + " ";
      RenderTwo(Chars(encoded), Chars(" "));
    } else {
      RenderOne(Chars(encoded));
      assert TextFragments(text, rt) == [Chars(encoded)];
    }
  }

  /** The switch on the tag name that ignores bEndClosure. */
  method AppendAnyKind(result: string, chunk: Token) returns (r: Result<string>)
    requires chunk.Tag?
    ensures AnyKindFragments(chunk).Failure? ==> r == Failure(KeyNotFound)
    ensures AnyKindFragments(chunk).Success? ==> r == Success(result + Render(AnyKindFragments(chunk).value))
  {
    if chunk.name == "img" {
      if "src" !in chunk.params {
        return Failure(KeyNotFound);
      }
      RenderOne(Image(chunk.params["src"]));
      return Success(result + ("<image l:href=\"#" + chunk.params["src"] + "\"/>"));
    } else if chunk.name == "hr" {
      RenderOne(Separator);
      return Success(result + "<subtitle>* * *</subtitle>");
    } else if chunk.name == "br" {
      RenderOne(EmptyLine);
      return Success(result + "<empty-line/>");
    }
    assert AnyKindFragments(chunk).value == [];
    assert result + Render([]) == result;
    return Success(result);
  }

  /** The switch guarded by !bEndClosure; slashIfClose is "/" for a closing tag. */
  method AppendPaired(result: string, chunk: Token) returns (r: string)
    requires chunk.Tag?
    ensures r == result + Render(PairedFragments(chunk))
  {
    r := result;
    if chunk.kind != SelfClose {
      var slashIfClose := if chunk.kind == Close then "/" else "";
      var n := chunk.name;
      if n == "strike" || n == "s" {
        r := r + ("<" + slashIfClose + "strikethrough>");
      } else if n == "u" {
        r := r + ("<" + slashIfClose + "emphasis>");
      } else if n == "b" || n == "strong" {
        r := r + ("<" + slashIfClose + "strong>");
      } else if n in HeadingTags {
        r := r + ("<" + slashIfClose + "subtitle>");
      } else if n == "i" || n == "em" {
        r := r + ("<" + slashIfClose + "emphasis>");
      } else if n in CodeTags {
        r := r + ("<" + slashIfClose + "code>");
      } else if n in PassThroughTags {
        r := r + ("<" + slashIfClose + n + ">");
      }
      PairedRender(chunk, slashIfClose);
    }
  }

  /** The one fragment of the second switch renders as "<" + slashIfClose + element + ">". */
  lemma PairedRender(chunk: Token, slashIfClose: string)
    requires chunk.Tag? && chunk.kind != SelfClose
    requires slashIfClose == if chunk.kind == Close then "/" else ""
    ensures LegacyElem(chunk.name).None? ==> Render(PairedFragments(chunk)) == ""
    ensures LegacyElem(chunk.name).Some? ==>
      Render(PairedFragments(chunk)) == "<" + slashIfClose + LegacyElem(chunk.name).value + ">"
  {
    var e := LegacyElem(chunk.name);
    if e.Some? {
      if chunk.kind == Open {
        RenderOne(ElemOpen(e.value));
      } else {
        RenderOne(ElemClose(e.value));
      }
    }
  }

  /** `case HTMLchunkType.OpenTag: case HTMLchunkType.CloseTag:` */
  method AppendTag(result: string, chunk: Token) returns (r: Result<string>)
    requires chunk.Tag?
    ensures AnyKindFragments(chunk).Failure? ==> r == Failure(KeyNotFound)
    ensures AnyKindFragments(chunk).Success? ==>
      r == Success(result + Render(AnyKindFragments(chunk).value + PairedFragments(chunk)))
  {
    var first := AppendAnyKind(result, chunk);
    if first.Failure? {
      return first;
    }
    var s := AppendPaired(first.value, chunk);
    ConcatRender(result, AnyKindFragments(chunk).value, PairedFragments(chunk));
    return Success(s);
  }

  /** One iteration of the loop: the switch on the chunk type. */
  method AppendChunk(result: string, chunk: Token, rt: Runtime) returns (r: Result<string>)
    ensures ChunkResult(chunk, rt).Failure? ==> r == Failure(KeyNotFound)
    ensures ChunkResult(chunk, rt).Success? ==> r == Success(result + Render(ChunkResult(chunk, rt).value))
  {
    match chunk {
      case Text(text) =>
        var next := AppendText(result, text, rt);
        return Success(next);
      case Tag(_, _, _) =>
        r := AppendTag(result, chunk);
      case _ =>
        assert result + Render([]) == result;
        return Success(result);
    }
  }

  /** ContentProcess.CombineToFb2 (older revision): the rendering of every chunk's fragments in
      input order; an img chunk without "src" throws KeyNotFoundException. */
  method CombineToFb2(chunks: seq<Token>, rt: Runtime) returns (r: Result<string>)
    ensures LegacyFragments(chunks, rt).Failure? ==> r == Failure(KeyNotFound)
    ensures LegacyFragments(chunks, rt).Success? ==> r == Success(Render(LegacyFragments(chunks, rt).value))
  {
    var result := "";
    ghost var done: seq<Fragment> := [];
    var i := 0;
    assert chunks[0..] == chunks;
    PrefixedEmpty(LegacyFragments(chunks, rt));
    while i < |chunks|
      invariant 0 <= i <= |chunks|
      invariant result == Render(done)
      invariant LegacyFragments(chunks, rt) == Prefixed(done, LegacyFragments(chunks[i..], rt))
    {
      LegacyStep(chunks, i, done, rt);
      var next := AppendChunk(result, chunks[i], rt);
      if next.Failure? {
        return next;
      }
      RenderAppend(done, ChunkResult(chunks[i], rt).value);
      done := done + ChunkResult(chunks[i], rt).value;
      result := next.value;
      i := i + 1;
    }
    assert chunks[i..] == [];
    assert done + [] == done;
    return Success(result);
  }

  /** The fragments already written, followed by those of the rest, if the rest succeeds. */
  function Prefixed(done: seq<Fragment>, rest: Result<seq<Fragment>>): (r: Result<seq<Fragment>>)
    ensures r.Success? <==> rest.Success?
    ensures r.Success? ==> |r.value| == |done| + |rest.value| && r.value[..|done|] == done
  {
    if rest.Success? then
      assert (done + rest.value)[..|done|] == done;
      Success(done + rest.value)
    else Failure(rest.error)
  }

  lemma PrefixedEmpty(rest: Result<seq<Fragment>>)
    ensures Prefixed([], rest) == rest
  {
    if rest.Success? {
      assert [] + rest.value == rest.value;
    }
  }

  /** One step of the loop: a chunk that converts moves its fragments from the rest to what
      is already written; one that fails makes the whole conversion fail. */
  lemma LegacyStep(chunks: seq<Token>, i: nat, done: seq<Fragment>, rt: Runtime)
    requires i < |chunks|
    ensures ChunkResult(chunks[i], rt).Failure? ==>
      Prefixed(done, LegacyFragments(chunks[i..], rt)) == Failure(ChunkResult(chunks[i], rt).error)
    ensures ChunkResult(chunks[i], rt).Success? ==>
      Prefixed(done, LegacyFragments(chunks[i..], rt)) ==
      Prefixed(done + ChunkResult(chunks[i], rt).value, LegacyFragments(chunks[i + 1..], rt))
  {
    assert chunks[i..][0] == chunks[i];
    assert chunks[i..][1..] == chunks[i + 1..];
    var head := ChunkResult(chunks[i], rt);
    var tail := LegacyFragments(chunks[i + 1..], rt);
    if head.Success? && tail.Success? {
      assert done + (head.value + tail.value) == (done + head.value) + tail.value;
    }
  }

  // ---------------------------------------------------------------------------------------
  // Balance of the output
  // ---------------------------------------------------------------------------------------

  /** The marker an opening tag leaves open. */
  function LegacyOpened(t: Token): seq<Mark>
  {
    if t.Tag? && t.kind == Open && LegacyElem(t.name).Some? then [ElemMark(LegacyElem(t.name).value)] else []
  }

  function LegacyOpenMarks(open: seq<Token>): seq<Mark>
  {
    if open == [] then [] else LegacyOpenMarks(open[..|open| - 1]) + LegacyOpened(open[|open| - 1])
  }

  predicate OpenTags(open: seq<Token>)
  {
    forall k :: 0 <= k < |open| ==> open[k].Tag? && open[k].kind == Open
  }

  /** The first switch opens and closes nothing. */
  lemma AnyKindNeutral(t: Token, stack: seq<Mark>)
    requires t.Tag? && AnyKindFragments(t).Success?
    ensures Run(stack, AnyKindFragments(t).value) == Some(stack)
  {
    var fs := AnyKindFragments(t).value;
    if fs != [] {
      RunOne(stack, fs[0]);
    }
  }

  /** An opening tag pushes its element's marker, if the second switch writes one. */
  lemma LegacyOpenStep(open: seq<Token>, t: Token, rt: Runtime)
    requires OpenTags(open) && t.Tag? && t.kind == Open && ChunkResult(t, rt).Success?
    ensures Run(LegacyOpenMarks(open), ChunkResult(t, rt).value) == Some(LegacyOpenMarks(open + [t]))
  {
    var stack := LegacyOpenMarks(open);
    var e := LegacyElem(t.name);
    AnyKindNeutral(t, stack);
    RunAppend(stack, AnyKindFragments(t).value, PairedFragments(t));
    assert (open + [t])[..|open|] == open;
    if e.Some? {
      RunOne(stack, ElemOpen(e.value));
    } else {
      assert stack + [] == stack;
    }
  }

  /** A closing tag pops the marker its opener pushed. */
  lemma LegacyCloseStep(rest: seq<Token>, u: Token, t: Token, rt: Runtime)
    requires OpenTags(rest + [u])
    requires u.Tag? && t.Tag? && t.kind == Close && u.name == t.name
    requires ChunkResult(t, rt).Success?
    ensures Run(LegacyOpenMarks(rest + [u]), ChunkResult(t, rt).value) == Some(LegacyOpenMarks(rest))
  {
    var open := rest + [u];
    assert open[..|open| - 1] == rest;
    assert open[|open| - 1] == u;
    var stack := LegacyOpenMarks(open);
    assert stack == LegacyOpenMarks(rest) + LegacyOpened(u);
    assert ChunkResult(t, rt).value == AnyKindFragments(t).value + PairedFragments(t);
    AnyKindNeutral(t, stack);
    RunAppend(stack, AnyKindFragments(t).value, PairedFragments(t));
    ClosePops(LegacyOpenMarks(rest), u, t);
  }

  /** The second switch's closing element pops the marker of the matching opener. */
  lemma ClosePops(below: seq<Mark>, u: Token, t: Token)
    requires u.Tag? && u.kind == Open && t.Tag? && t.kind == Close && u.name == t.name
    ensures Run(below + LegacyOpened(u), PairedFragments(t)) == Some(below)
  {
    var e := LegacyElem(t.name);
    if e.Some? {
      var stack := below + [ElemMark(e.value)];
      RunOne(stack, ElemClose(e.value));
      assert stack[..|stack| - 1] == below;
    } else {
      assert below + [] == below;
    }
  }

  /** Text, comments, scripts and self-closing tags leave the markers alone. */
  lemma LegacyNeutralStep(stack: seq<Mark>, t: Token, rt: Runtime)
    requires !(t.Tag? && t.kind != SelfClose) && ChunkResult(t, rt).Success?
    ensures Run(stack, ChunkResult(t, rt).value) == Some(stack)
  {
    if t.Tag? {
      AnyKindNeutral(t, stack);
      assert PairedFragments(t) == [];
      assert AnyKindFragments(t).value + [] == AnyKindFragments(t).value;
    } else if t.Text? {
      var encoded := rt.htmlEncode(t.text);
      if ' ' in encoded {
        assert TextFragments(t.text, rt) == [Chars(encoded)];
        RunOne(stack, Chars(encoded));
      } else {
        RunTwo(stack, Chars(encoded), Chars(" "));
      }
    }
  }

  /** One chunk turns the markers of the tags open before it into those open after it. */
  lemma LegacyChunkStep(open: seq<Token>, t: Token, rt: Runtime)
    requires OpenTags(open) && NestStep(open, t).Some? && ChunkResult(t, rt).Success?
    ensures OpenTags(NestStep(open, t).value)
    ensures Run(LegacyOpenMarks(open), ChunkResult(t, rt).value) == Some(LegacyOpenMarks(NestStep(open, t).value))
  {
    if t.Tag? && t.kind == Open {
      LegacyOpenStep(open, t, rt);
    } else if t.Tag? && t.kind == Close {
      var rest := open[..|open| - 1];
      assert open == rest + [open[|open| - 1]];
      LegacyCloseStep(rest, open[|open| - 1], t, rt);
    } else {
      LegacyNeutralStep(LegacyOpenMarks(open), t, rt);
    }
  }

  lemma {:induction false} LegacyNestRun(open: seq<Token>, toks: seq<Token>, rt: Runtime)
    requires OpenTags(open) && Nest(open, toks).Some? && LegacyFragments(toks, rt).Success?
    ensures Run(LegacyOpenMarks(open), LegacyFragments(toks, rt).value) == Some(LegacyOpenMarks(Nest(open, toks).value))
    decreases |toks|
  {
    if toks != [] {
      var t := toks[0];
      var next := NestStep(open, t).value;
      LegacyChunkStep(open, t, rt);
      LegacyNestRun(next, toks[1..], rt);
      RunAppend(LegacyOpenMarks(open), ChunkResult(t, rt).value, LegacyFragments(toks[1..], rt).value);
    }
  }

  /** Unlike the newer mapper, the older one has no unbalancing tag: whenever it converts
      well-nested input, every element it opens is closed, innermost first. */
  lemma LegacyBalancedOutput(toks: seq<Token>, rt: Runtime)
    requires WellNested(toks)
    requires LegacyFragments(toks, rt).Success?
    ensures Balanced(LegacyFragments(toks, rt).value)
  {
    LegacyNestRun([], toks, rt);
  }

  /** A text chunk is followed by a space exactly when its encoding has none. */
  lemma TextSpace(text: string, rt: Runtime)
    ensures Render(TextFragments(text, rt)) ==
      rt.htmlEncode(text) + (if ' ' in rt.htmlEncode(text) then "" else " ")
    ensures ' ' in Render(TextFragments(text, rt))
  {
    var encoded := rt.htmlEncode(text);
    if ' ' in encoded {
      RenderOne(Chars(encoded));
      assert TextFragments(text, rt) == [Chars(encoded)];
    } else {
      RenderTwo(Chars(encoded), Chars(" "));
      assert (encoded + " ")[|encoded|] == ' ';
    }
  }

  /** A single chunk's fragments are the chunk's own. */
  lemma LegacySingle(t: Token, rt: Runtime)
    ensures LegacyFragments([t], rt) == (var c := ChunkResult(t, rt); if c.Success? then Success(c.value) else Failure(c.error))
  {
    assert [t][0] == t;
    assert [t][1..] == [];
    if ChunkResult(t, rt).Success? {
      assert ChunkResult(t, rt).value + [] == ChunkResult(t, rt).value;
    }
  }

  /** A style-like tag writes <X> when opened and </X> with the same X when closed, and
      nothing at all when self-closing. */
  lemma PairedTagRule(n: string, p: map<string, string>, rt: Runtime)
    requires LegacyElem(n).Some?
    ensures LegacyFragments([Tag(n, Open, p)], rt) == Success([ElemOpen(LegacyElem(n).value)])
    ensures LegacyFragments([Tag(n, Close, p)], rt) == Success([ElemClose(LegacyElem(n).value)])
    ensures LegacyFragments([Tag(n, SelfClose, p)], rt) == Success([])
  {
    assert n != "img" && n != "hr" && n != "br";
    assert [] + [ElemOpen(LegacyElem(n).value)] == [ElemOpen(LegacyElem(n).value)];
    assert [] + [ElemClose(LegacyElem(n).value)] == [ElemClose(LegacyElem(n).value)];
    var none: seq<Fragment> := [];
    assert PairedFragments(Tag(n, SelfClose, p)) == none && none + none == none;
    LegacySingle(Tag(n, Open, p), rt);
    LegacySingle(Tag(n, Close, p), rt);
    LegacySingle(Tag(n, SelfClose, p), rt);
  }

  /** img, hr and br write their output for every tag kind, a self-closing one included. */
  lemma AnyKindRule(n: string, k: TagKind, p: map<string, string>, rt: Runtime)
    requires n == "img" || n == "hr" || n == "br"
    ensures n == "img" && "src" in p ==> LegacyFragments([Tag(n, k, p)], rt) == Success([Image(p["src"])])
    ensures n == "img" && "src" !in p ==> LegacyFragments([Tag(n, k, p)], rt) == Failure(KeyNotFound)
    ensures n == "hr" ==> LegacyFragments([Tag(n, k, p)], rt) == Success([Separator])
    ensures n == "br" ==> LegacyFragments([Tag(n, k, p)], rt) == Success([EmptyLine])
  {
    var t := Tag(n, k, p);
    LegacySingle(t, rt);
    assert LegacyElem(n).None?;
    assert PairedFragments(t) == [];
    if AnyKindFragments(t).Success? {
      assert AnyKindFragments(t).value + [] == AnyKindFragments(t).value;
    }
  }

  // ---------------------------------------------------------------------------------------
  // CombineToHtml
  // ---------------------------------------------------------------------------------------

  /** What ContentProcess.CombineToHtml (older revision) writes for one chunk: the encoded text
      of a text chunk, the generated markup of a tag (GenerateHTML, a parameter here), nothing
      for comments and scripts. */
  function ChunkHtml(t: Token, rt: Runtime, generate: Token -> string): string
  {
    match t
    case Text(text) => rt.htmlEncode(text)
    case Tag(_, _, _) => generate(t)
    case _ => ""
  }

  /** The HTML of all chunks, in input order. */
  function LegacyHtml(chunks: seq<Token>, rt: Runtime, generate: Token -> string): string
  {
    if chunks == [] then ""
    else LegacyHtml(chunks[..|chunks| - 1], rt, generate) + ChunkHtml(chunks[|chunks| - 1], rt, generate)
  }

  /** The HTML of two runs of chunks is the HTML of the first followed by that of the second. */
  lemma {:induction false} LegacyHtmlAppend(a: seq<Token>, b: seq<Token>, rt: Runtime, generate: Token -> string)
    ensures LegacyHtml(a + b, rt, generate) == LegacyHtml(a, rt, generate) + LegacyHtml(b, rt, generate)
    decreases |b|
  {
    if b == [] {
      assert a + b == a;
    } else {
      var c := b[..|b| - 1];
      assert (a + b)[..|a + b| - 1] == a + c;
      assert (a + b)[|a + b| - 1] == b[|b| - 1];
      LegacyHtmlAppend(a, c, rt, generate);
    }
  }

  /** Comments and scripts leave no trace: removing one changes nothing in the output. */
  lemma LegacyHtmlSkipsHidden(a: seq<Token>, t: Token, b: seq<Token>, rt: Runtime, generate: Token -> string)
    requires t.Comment? || t.Script?
    ensures LegacyHtml(a + [t] + b, rt, generate) == LegacyHtml(a + b, rt, generate)
  {
    LegacyHtmlAppend(a + [t], b, rt, generate);
    LegacyHtmlAppend(a, [t], rt, generate);
    LegacyHtmlAppend(a, b, rt, generate);
    assert [t][..0] == [];
  }

  /** ContentProcess.CombineToHtml (older revision): appends every chunk's HTML to the result. */
  method CombineToHtml(chunks: seq<Token>, rt: Runtime, generate: Token -> string) returns (res: string)
    ensures res == LegacyHtml(chunks, rt, generate)
  {
    res := "";
    var i := 0;
    while i < |chunks|
      invariant 0 <= i <= |chunks|
      invariant res == LegacyHtml(chunks[..i], rt, generate)
    {
      var chunk := chunks[i];
      match chunk {
        case Text(text) =>
          res := res + rt.htmlEncode(text);
        case Tag(_, _, _) =>
          res := res + generate(chunk);
        case Comment(_) =>
        case Script(_) =>
      }
      assert chunks[..i + 1][..i] == chunks[..i];
      i := i + 1;
    }
    assert chunks[..i] == chunks;
  }
}
