/** The HTML token stream both revisions work on, and the helpers of HtmlUtils.cs that inspect
    it: `IsOpenTag`, `TagContent` and the `^\d+.jpe?g$` test applied to image sources. */
module Html {
  import opened Wrappers
  import opened Strings
  import CollectionUtils

  /** The kind of a tag chunk. The older revision's OpenTag/CloseTag with bEndClosure set is a
      `SelfClose`. */
  datatype TagKind = Open | Close | SelfClose

  /** One chunk of parsed HTML (an HtmlChunk / HTMLchunk of the Majestic-12 parser). */
  datatype Token =
    | Text(text: string)
    | Tag(name: string, kind: TagKind, params: map<string, string>)
    | Comment(body: string)
    | Script(body: string)

  /** chunk.ParameterMatches(name, value): the parameter is present with exactly this value. */
  predicate ParameterMatches(t: Token, name: string, value: string)
    requires t.Tag?
  {
    name in t.params && t.params[name] == value
  }

  /** IsOpenTag(chunk, tagName, parameters) */
  predicate IsOpenTag(t: Token, tagName: string, parameters: seq<(string, string)>)
  {
    t.Tag? && t.kind == Open && t.name == tagName &&
    forall k :: 0 <= k < |parameters| ==> ParameterMatches(t, parameters[k].0, parameters[k].1)
  }

  /** Listed parameters are tested one by one: a list of pairs accepts exactly what both of
      its parts accept, so listing more pairs only narrows the match; with no pairs, every
      opening tag of the name is accepted. */
  lemma {:induction false} IsOpenTagConjoins(t: Token, tagName: string, ps: seq<(string, string)>,
                                             qs: seq<(string, string)>)
    ensures IsOpenTag(t, tagName, ps + qs) <==> IsOpenTag(t, tagName, ps) && IsOpenTag(t, tagName, qs)
    ensures IsOpenTag(t, tagName, []) <==> t.Tag? && t.kind == Open && t.name == tagName
  {
    if IsOpenTag(t, tagName, ps) && IsOpenTag(t, tagName, qs) {
      forall k | 0 <= k < |ps + qs|
        ensures ParameterMatches(t, (ps + qs)[k].0, (ps + qs)[k].1)
      {
        if k < |ps| {
          assert (ps + qs)[k] == ps[k];
        } else {
          assert (ps + qs)[k] == qs[k - |ps|];
        }
      }
    }
    if IsOpenTag(t, tagName, ps + qs) {
      forall k | 0 <= k < |qs|
        ensures ParameterMatches(t, qs[k].0, qs[k].1)
      {
        assert (ps + qs)[|ps| + k] == qs[k];
      }
      forall k | 0 <= k < |ps|
        ensures ParameterMatches(t, ps[k].0, ps[k].1)
      {
        assert (ps + qs)[k] == ps[k];
      }
    }
  }

  /** Parameters IsOpenTag is not asked about do not matter: a chunk that carries one more
      parameter, under a name none of the listed pairs uses, is accepted just the same. */
  lemma IsOpenTagExtraParameter(t: Token, tagName: string, parameters: seq<(string, string)>,
                                name: string, value: string)
    requires t.Tag? && forall k :: 0 <= k < |parameters| ==> parameters[k].0 != name
    ensures IsOpenTag(t.(params := t.params[name := value]), tagName, parameters) <==>
      IsOpenTag(t, tagName, parameters)
  {
  }

  // ---------------------------------------------------------------------------------------
  // TagContent
  // ---------------------------------------------------------------------------------------

  /** The predicate `c => IsOpenTag(c, tagName, parameters)` TagContent skips with. */
  function OpenerTest(tagName: string, parameters: seq<(string, string)>): Token -> bool
  {
    c => IsOpenTag(c, tagName, parameters)
  }

  /** How a chunk moves the balance of tags named `name`. */
  function Delta(t: Token, name: string): int
  {
    if t.Tag? && t.name == name then (match t.kind case Open => 1 case Close => -1 case SelfClose => 0)
    else 0
  }

  /** The balance after the chunks of s, starting from `start`. */
  function Level(s: seq<Token>, name: string, start: int): int
  {
    if s == [] then start else Level(s[..|s| - 1], name, start) + Delta(s[|s| - 1], name)
  }

  /** The chunks up to (excluding) the one that brings the balance, starting at `balance`,
      down to zero. Only chunks named `name` are looked at, as in the source. */
  function UntilClosed(body: seq<Token>, name: string, balance: int): seq<Token>
  {
    if body == [] then []
    else
      var t := body[0];
      if t.Tag? && t.name == name && balance + Delta(t, name) == 0 then []
      else [t] + UntilClosed(body[1..], name, balance + Delta(t, name))
  }

  /** The value TagContent yields: what follows the first matching opener, up to its
      balance-matched closer. */
  function Enclosed(chunks: seq<Token>, tagName: string, parameters: seq<(string, string)>): seq<Token>
  {
    var rest := CollectionUtils.SkipUntil(chunks, OpenerTest(tagName, parameters));
    if rest == [] then [] else UntilClosed(rest[1..], tagName, 1)
  }

  /** The index of the first chunk IsOpenTag accepts, or |chunks|. */
  function FirstOpener(chunks: seq<Token>, tagName: string, parameters: seq<(string, string)>): (k: nat)
    ensures k <= |chunks|
    ensures forall m :: 0 <= m < k ==> !IsOpenTag(chunks[m], tagName, parameters)
    ensures k < |chunks| ==> IsOpenTag(chunks[k], tagName, parameters)
  {
    |chunks| - |CollectionUtils.SkipUntil(chunks, OpenerTest(tagName, parameters))|
  }

  /** TagContent(chunks, tagName, parameters): skips to the first opener IsOpenTag accepts,
      skips it, then yields chunks while the balance of same-name tags (starting at 1) has not
      dropped to 0. */
  method TagContent(chunks: seq<Token>, tagName: string, parameters: seq<(string, string)>)
    returns (r: seq<Token>)
    ensures r == Enclosed(chunks, tagName, parameters)
  {
    var rest := CollectionUtils.SkipUntil(chunks, OpenerTest(tagName, parameters));
    if rest == [] {
      return [];
    }
    r := YieldUntilClosed(rest[1..], tagName);
  }

  /** The loop of TagContent over the chunks after the opener. */
  method YieldUntilClosed(body: seq<Token>, tagName: string) returns (r: seq<Token>)
    ensures r == UntilClosed(body, tagName, 1)
  {
    var balance := 1;
    r := [];
    var i := 0;
    while i < |body|
      invariant 0 <= i <= |body|
      invariant UntilClosed(body, tagName, 1) == r + UntilClosed(body[i..], tagName, balance)
    {
      var chunk := body[i];
      ghost var before := balance;
      if chunk.Tag? && chunk.name == tagName {
        match chunk.kind {
          case Open => balance := balance + 1;
          case Close => balance := balance - 1;
          case SelfClose =>
        }
        if balance == 0 {
          UntilClosedStop(body, i, tagName, before, r);
          return;
        }
      }
      UntilClosedAdvance(body, i, tagName, before, r);
      r := r + [chunk];
      i := i + 1;
    }
    assert body[i..] == [];
  }

  /** The loop stops at a same-name chunk that takes the balance to 0 ... */
  lemma UntilClosedStop(body: seq<Token>, i: nat, name: string, balance: int, r: seq<Token>)
    requires i < |body| && body[i].Tag? && body[i].name == name && balance + Delta(body[i], name) == 0
    requires UntilClosed(body, name, 1) == r + UntilClosed(body[i..], name, balance)
    ensures UntilClosed(body, name, 1) == r
  {
    UntilClosedStep(body[i..], name, balance);
    assert r + [] == r;
  }

  /** ... and otherwise yields the chunk and moves on. */
  lemma UntilClosedAdvance(body: seq<Token>, i: nat, name: string, balance: int, r: seq<Token>)
    requires i < |body| && !(body[i].Tag? && body[i].name == name && balance + Delta(body[i], name) == 0)
    requires UntilClosed(body, name, 1) == r + UntilClosed(body[i..], name, balance)
    ensures UntilClosed(body, name, 1) ==
      (r + [body[i]]) + UntilClosed(body[i + 1..], name, balance + Delta(body[i], name))
  {
    UntilClosedStep(body[i..], name, balance);
    assert body[i..][1..] == body[i + 1..];
  }

  lemma UntilClosedStep(body: seq<Token>, name: string, balance: int)
    requires body != []
    ensures var t := body[0];
      var b := balance + Delta(t, name);
      UntilClosed(body, name, balance) ==
        if t.Tag? && t.name == name && b == 0 then [] else [t] + UntilClosed(body[1..], name, b)
  {
  }

  /** The content stays strictly inside its opener: the balance never reaches 0 within it, and
      it ends either at the end of the input or right before a same-name closing tag that takes
      the balance to 0. */
  lemma UntilClosedSpec(body: seq<Token>, name: string, balance: int)
    requires balance > 0
    ensures var r := UntilClosed(body, name, balance);
      |r| <= |body| && r == body[..|r|] &&
      (forall k :: 0 <= k <= |r| ==> Level(r[..k], name, balance) > 0) &&
      (|r| < |body| ==>
        body[|r|].Tag? && body[|r|].name == name && body[|r|].kind == Close &&
        Level(r, name, balance) == 1)
  {
    UntilClosedPrefix(body, name, balance);
    UntilClosedLevels(body, name, balance);
  }

  /** The content is a prefix of the input; when it stops early, it stops right before a
      same-name closing tag. */
  lemma {:induction false} UntilClosedPrefix(body: seq<Token>, name: string, balance: int)
    requires balance > 0
    ensures var r := UntilClosed(body, name, balance);
      |r| <= |body| && r == body[..|r|]
    decreases |body|
  {
    if body != [] {
      var t := body[0];
      var b := balance + Delta(t, name);
      if !(t.Tag? && t.name == name && b == 0) {
        PositiveAfterStep(t, name, balance);
        UntilClosedPrefix(body[1..], name, b);
        var tail := UntilClosed(body[1..], name, b);
        var r := UntilClosed(body, name, balance);
        assert r == [t] + tail;
        assert body[..|r|] == [t] + body[1..][..|tail|];
      }
    }
  }

  /** A step that does not close the region leaves the balance positive. */
  lemma PositiveAfterStep(t: Token, name: string, balance: int)
    requires balance > 0
    requires !(t.Tag? && t.name == name && balance + Delta(t, name) == 0)
    ensures balance + Delta(t, name) > 0
  {
    if !(t.Tag? && t.name == name) {
      assert Delta(t, name) == 0;
    }
  }

  /** Inside the content the balance stays positive; an early stop is a same-name closing tag
      met at balance 1. */
  lemma {:induction false} UntilClosedLevels(body: seq<Token>, name: string, balance: int)
    requires balance > 0
    ensures var r := UntilClosed(body, name, balance);
      (forall k :: 0 <= k <= |r| ==> Level(r[..k], name, balance) > 0) &&
      (|r| < |body| ==>
        body[|r|].Tag? && body[|r|].name == name && body[|r|].kind == Close &&
        Level(r, name, balance) == 1)
    decreases |body|
  {
    UntilClosedPrefix(body, name, balance);
    if body != [] {
      var t := body[0];
      var b := balance + Delta(t, name);
      if !(t.Tag? && t.name == name && b == 0) {
        PositiveAfterStep(t, name, balance);
        UntilClosedLevels(body[1..], name, b);
        var tail := UntilClosed(body[1..], name, b);
        var r := UntilClosed(body, name, balance);
        assert r == [t] + tail;
        if |r| < |body| {
          assert body[|r|] == body[1..][|tail|];
        }
        LevelsCons(t, tail, name, balance);
      } else {
        assert UntilClosed(body, name, balance) == [];
        assert Level([], name, balance) == balance;
      }
    }
  }

  /** Prepending a chunk that keeps the balance positive keeps every prefix positive. */
  lemma LevelsCons(t: Token, tail: seq<Token>, name: string, balance: int)
    requires balance > 0 && balance + Delta(t, name) > 0
    requires forall k :: 0 <= k <= |tail| ==> Level(tail[..k], name, balance + Delta(t, name)) > 0
    ensures forall k :: 0 <= k <= |tail| + 1 ==> Level(([t] + tail)[..k], name, balance) > 0
    ensures Level([t] + tail, name, balance) == Level(tail, name, balance + Delta(t, name))
  {
    var r := [t] + tail;
    forall k | 0 <= k <= |tail| + 1 ensures Level(r[..k], name, balance) > 0 {
      if k > 0 {
        LevelCons(t, tail[..k - 1], name, balance);
        assert r[..k] == [t] + tail[..k - 1];
      }
    }
    LevelCons(t, tail, name, balance);
    assert tail[..|tail|] == tail;
  }

  /** The balance after t followed by s. */
  lemma {:induction false} LevelCons(t: Token, s: seq<Token>, name: string, balance: int)
    ensures Level([t] + s, name, balance) == Level(s, name, balance + Delta(t, name))
    decreases |s|
  {
    if s != [] {
      var last := s[|s| - 1];
      assert ([t] + s)[..|s|] == [t] + s[..|s| - 1];
      LevelCons(t, s[..|s| - 1], name, balance);
    }
  }

  /** TagContent yields nothing when no chunk is an accepted opener; otherwise it yields the
      chunks right after the first accepted opener, balanced as UntilClosedSpec says: up to
      the matching close, or to the end of the input when the opener is never closed. */
  lemma EnclosedSpec(chunks: seq<Token>, tagName: string, parameters: seq<(string, string)>)
    ensures var k := FirstOpener(chunks, tagName, parameters);
      var r := Enclosed(chunks, tagName, parameters);
      (k == |chunks| ==> r == []) &&
      (k < |chunks| ==>
        k + 1 + |r| <= |chunks| && r == chunks[k + 1..k + 1 + |r|] &&
        (forall m :: 0 <= m <= |r| ==> Level(r[..m], tagName, 1) > 0) &&
        (k + 1 + |r| == |chunks| ||
          (chunks[k + 1 + |r|].Tag? && chunks[k + 1 + |r|].name == tagName &&
           chunks[k + 1 + |r|].kind == Close && Level(r, tagName, 1) == 1)))
  {
    var k := FirstOpener(chunks, tagName, parameters);
    if k < |chunks| {
      var rest := CollectionUtils.SkipUntil(chunks, OpenerTest(tagName, parameters));
      assert rest[1..] == chunks[k + 1..];
      UntilClosedSpec(chunks[k + 1..], tagName, 1);
    }
  }

  /** Where the enclosure lies: right after the first opener, inside the chunks; empty when
      there is no opener. */
  lemma EnclosedRange(chunks: seq<Token>, tagName: string, parameters: seq<(string, string)>)
    ensures var k := FirstOpener(chunks, tagName, parameters);
      var r := Enclosed(chunks, tagName, parameters);
      (k == |chunks| ==> r == []) &&
      (k < |chunks| ==> k + 1 + |r| <= |chunks| && r == chunks[k + 1..k + 1 + |r|])
  {
    EnclosedSpec(chunks, tagName, parameters);
  }

  /** The enclosure is what follows the first opener up to its closer. */
  lemma EnclosedAt(chunks: seq<Token>, tagName: string, parameters: seq<(string, string)>)
    requires FirstOpener(chunks, tagName, parameters) < |chunks|
    ensures Enclosed(chunks, tagName, parameters) ==
      UntilClosed(chunks[FirstOpener(chunks, tagName, parameters) + 1..], tagName, 1)
  {
    var rest := CollectionUtils.SkipUntil(chunks, OpenerTest(tagName, parameters));
    assert rest[1..] == chunks[FirstOpener(chunks, tagName, parameters) + 1..];
  }

  /** The balance walk over one more chunk that does not close it. */
  lemma UntilClosedKeep(t: Token, rest: seq<Token>, name: string, balance: int)
    requires !(t.Tag? && t.name == name && balance + Delta(t, name) == 0)
    ensures UntilClosed([t] + rest, name, balance) == [t] + UntilClosed(rest, name, balance + Delta(t, name))
  {
    assert ([t] + rest)[1..] == rest;
  }

  /** The content when the first opener is at k: the balance walk from the chunk after it. */
  lemma EnclosedFrom(chunks: seq<Token>, tagName: string, parameters: seq<(string, string)>, k: nat)
    requires k < |chunks| && IsOpenTag(chunks[k], tagName, parameters)
    requires forall m :: 0 <= m < k ==> !IsOpenTag(chunks[m], tagName, parameters)
    ensures Enclosed(chunks, tagName, parameters) == UntilClosed(chunks[k + 1..], tagName, 1)
  {
    assert FirstOpener(chunks, tagName, parameters) == k;
    EnclosedAt(chunks, tagName, parameters);
  }

  /** Two chunk sequences that agree on the first j chunks have the same first opener, when
      one of them has it there. */
  lemma FirstOpenerAgree(x: seq<Token>, y: seq<Token>, tagName: string, parameters: seq<(string, string)>, j: nat)
    requires j <= |x| && j <= |y| && x[..j] == y[..j]
    requires FirstOpener(x, tagName, parameters) < j
    ensures FirstOpener(y, tagName, parameters) == FirstOpener(x, tagName, parameters)
  {
    var a, b := FirstOpener(x, tagName, parameters), FirstOpener(y, tagName, parameters);
    assert x[a] == x[..j][a] == y[..j][a] == y[a];
  }

  /** The region up to a closer found among the first j chunks depends on those chunks
      only. */
  lemma {:induction false} UntilClosedAgree(x: seq<Token>, y: seq<Token>, name: string, balance: int, j: nat)
    requires j <= |x| && j <= |y| && x[..j] == y[..j]
    requires |UntilClosed(x, name, balance)| < j
    ensures UntilClosed(y, name, balance) == UntilClosed(x, name, balance)
    decreases j
  {
    assert x[0] == x[..j][0] == y[..j][0] == y[0];
    var t := x[0];
    if !(t.Tag? && t.name == name && balance + Delta(t, name) == 0) {
      assert x[1..][..j - 1] == x[..j][1..] == y[..j][1..] == y[1..][..j - 1];
      UntilClosedAgree(x[1..], y[1..], name, balance + Delta(t, name), j - 1);
    }
  }

  /** An enclosure whose closer lies among the first j chunks is the same in any chunk
      sequence that agrees with this one on those chunks. */
  lemma EnclosedAgree(x: seq<Token>, y: seq<Token>, tagName: string, parameters: seq<(string, string)>, j: nat)
    requires j <= |x| && j <= |y| && x[..j] == y[..j]
    requires FirstOpener(x, tagName, parameters) + 1 + |Enclosed(x, tagName, parameters)| < j
    ensures Enclosed(y, tagName, parameters) == Enclosed(x, tagName, parameters)
  {
    var a := FirstOpener(x, tagName, parameters);
    FirstOpenerAgree(x, y, tagName, parameters, j);
    EnclosedAt(x, tagName, parameters);
    EnclosedAt(y, tagName, parameters);
    var xs, ys := x[a + 1..], y[a + 1..];
    var i := j - (a + 1);
    SuffixAgree(x, y, j, a + 1);
    assert Enclosed(x, tagName, parameters) == UntilClosed(xs, tagName, 1);
    assert Enclosed(y, tagName, parameters) == UntilClosed(ys, tagName, 1);
    assert xs[..i] == ys[..i] && |UntilClosed(xs, tagName, 1)| < i <= |xs|;
    UntilClosedAgree(xs, ys, tagName, 1, i);
  }

  lemma SuffixAgree(x: seq<Token>, y: seq<Token>, j: nat, i: nat)
    requires i <= j <= |x| && j <= |y| && x[..j] == y[..j]
    ensures x[i..][..j - i] == y[i..][..j - i]
  {
    assert x[i..][..j - i] == x[..j][i..];
    assert y[i..][..j - i] == y[..j][i..];
  }

  /** With every same-name tag opened and closed in pairs, the whole region after the opener up
      to its closer comes back: e.g. div, [div, /div], text, /div yields the inner three. */
  lemma EnclosedExample(p: map<string, string>)
    ensures var open := Tag("div", Open, p);
      var close := Tag("div", Close, map[]);
      Enclosed([Text("a"), open, open, close, Text("b"), close, Text("c")], "div", []) ==
        [open, close, Text("b")]
  {
    var open := Tag("div", Open, p);
    var close := Tag("div", Close, map[]);
    var s := [Text("a"), open, open, close, Text("b"), close, Text("c")];
    assert !IsOpenTag(s[0], "div", []);
    assert IsOpenTag(s[1], "div", []);
    assert CollectionUtils.SkipUntil(s, OpenerTest("div", [])) == s[1..];
    assert s[1..][1..] == [open, close, Text("b"), close, Text("c")];
    UntilClosedExample(p);
  }

  lemma UntilClosedExample(p: map<string, string>)
    ensures var open := Tag("div", Open, p);
      var close := Tag("div", Close, map[]);
      UntilClosed([open, close, Text("b"), close, Text("c")], "div", 1) == [open, close, Text("b")]
  {
    var open := Tag("div", Open, p);
    var close := Tag("div", Close, map[]);
    var body := [open, close, Text("b"), close, Text("c")];
    assert body[1..] == [close, Text("b"), close, Text("c")];
    assert body[1..][1..] == [Text("b"), close, Text("c")];
    assert body[1..][1..][1..] == [close, Text("c")];
    assert UntilClosed([close, Text("c")], "div", 1) == [];
    assert UntilClosed([Text("b"), close, Text("c")], "div", 1) == [Text("b")];
    assert UntilClosed([close, Text("b"), close, Text("c")], "div", 2) == [close, Text("b")];
  }

  // ---------------------------------------------------------------------------------------
  // The image source pattern ^\d+.jpe?g$
  // ---------------------------------------------------------------------------------------

  /** The pattern without its `$` for one spelling of the extension: at least one digit, then
      any character but '\n' (the dot is not escaped), then the extension, filling t. */
  predicate ImgNameWith(t: string, extension: string)
  {
    EndsWith(t, extension) && |t| - |extension| >= 2 &&
    AllDigits(t[..|t| - |extension| - 1]) && t[|t| - |extension| - 1] != '\n'
  }

  /** `jpe?g`: the extension is "jpg" or "jpeg". */
  predicate ImgNameCore(t: string)
  {
    ImgNameWith(t, "jpg") || ImgNameWith(t, "jpeg")
  }

  /** Regex.IsMatch(src, @"^\d+.jpe?g$"): `$` also matches before a final '\n'. */
  predicate ImgSrcMatches(src: string)
  {
    ImgNameCore(src) || (|src| > 0 && src[|src| - 1] == '\n' && ImgNameCore(src[..|src| - 1]))
  }

  /** Every name "{n}.jpg" given to a downloaded image passes the test. */
  lemma GeneratedNameMatches(n: nat)
    ensures ImgSrcMatches(NatToString(n) + ".jpg")
  {
    var t := NatToString(n) + ".jpg";
    assert EndsWith(t, "jpg");
    assert t[..|t| - 3 - 1] == NatToString(n);
  }

  /** Because the dot is unescaped, a name without a dot passes too, and a final '\n' is
      tolerated. */
  lemma ImgSrcLoose()
    ensures ImgSrcMatches("1234jpg")
    ensures ImgSrcMatches("7xjpeg")
    ensures ImgSrcMatches("1.jpg\n")
  {
    assert ImgNameWith("1234jpg", "jpg") by {
      assert EndsWith("1234jpg", "jpg");
      assert "1234jpg"[..3] == "123";
    }
    assert ImgNameWith("7xjpeg", "jpeg") by {
      assert EndsWith("7xjpeg", "jpeg");
      assert "7xjpeg"[..1] == "7";
    }
    assert ImgNameWith("1.jpg", "jpg") by {
      assert EndsWith("1.jpg", "jpg");
      assert "1.jpg"[..1] == "1";
    }
    assert "1.jpg\n"[..5] == "1.jpg";
  }

  /** A source with anything but digits before the name character, or with no digit, fails. */
  lemma ImgSrcStrict()
    ensures !ImgSrcMatches(".jpg")
    ensures !ImgSrcMatches("a1.jpg")
    ensures !ImgSrcMatches("http://x/1.jpg")
  {
    assert "a1.jpg"[..2][0] == 'a';
    assert "a1.jpg"[..1][0] == 'a';
    assert "http://x/1.jpg"[..10][0] == 'h';
    assert "http://x/1.jpg"[..9][0] == 'h';
  }
}
