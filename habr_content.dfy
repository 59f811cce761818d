/** HabrContent.ProcessContent (newer revision): the article inside <div class="txt">, one <hr>
    separator and the comments inside <div class="cmts">, each comment header reformatted by an
    in-place loop over the comment chunks. */
module HabrContent {
  import opened Wrappers
  import opened Html

  /** An opening <div class="m">: the header of one comment. */
  predicate IsCommentHead(t: Token)
  {
    IsOpenTag(t, "div", [("class", "m")])
  }

  /** `chunk.sTag = "i"`: a tag chunk is renamed, keeping its kind and parameters; the tag name
      of any other chunk does not show in its HTML. */
  function Italic(t: Token): (r: Token)
    ensures r.Tag? <==> t.Tag?
    ensures r.Tag? ==> r.name == "i" && r.kind == t.kind && r.params == t.params
    ensures !r.Tag? ==> r == t
  {
    if t.Tag? then t.(name := "i") else t
  }

  /** `chunk.oHTML = "-> " + chunk.oHTML.GetBefore(",") + "<br/>"`: the text of a text chunk is
      replaced by the author line; the HTML of a tag is generated from its name and parameters,
      so the assignment does not show there. GetBefore is a parameter. */
  function Byline(t: Token, before: (string, string) -> string): (r: Token)
    ensures t.Text? ==> r == Text("-> " + before(t.text, ",") + "<br/>")
    ensures !t.Text? ==> r == t
  {
    if t.Text? then Text("-> " + before(t.text, ",") + "<br/>") else t
  }

  /** `new HTMLchunk()`: a text chunk without text. */
  const EmptyChunk: Token := Text("")

  /** The number of comment headers in s. */
  function Heads(s: seq<Token>): nat
  {
    if s == [] then 0 else (if IsCommentHead(s[0]) then 1 else 0) + Heads(s[1..])
  }

  /** The chunks the loop leaves behind a header at the front of s: the renamed and rewritten
      neighbours and the inserted empty chunk. */
  function AfterHead(s: seq<Token>, before: (string, string) -> string): seq<Token>
    requires |s| > 3
  {
    [Byline(s[1], before), EmptyChunk, Italic(s[2])] + s[3..]
  }

  lemma HeadsCons(t: Token, s: seq<Token>)
    ensures Heads([t] + s) == (if IsCommentHead(t) then 1 else 0) + Heads(s)
  {
    assert ([t] + s)[1..] == s;
  }

  /** Rewriting a header leaves one header fewer behind it: the byline is a header only when
      its chunk was one, the renamed chunk never is. */
  lemma AfterHeadHeads(s: seq<Token>, before: (string, string) -> string)
    requires |s| > 3 && IsCommentHead(s[0])
    ensures Heads(AfterHead(s, before)) < Heads(s)
  {
    var rest := s[3..];
    assert AfterHead(s, before) == [Byline(s[1], before)] + ([EmptyChunk] + ([Italic(s[2])] + rest));
    HeadsCons(Italic(s[2]), rest);
    HeadsCons(EmptyChunk, [Italic(s[2])] + rest);
    HeadsCons(Byline(s[1], before), [EmptyChunk] + ([Italic(s[2])] + rest));
    assert s == [s[0]] + ([s[1]] + ([s[2]] + rest));
    HeadsCons(s[2], rest);
    HeadsCons(s[1], [s[2]] + rest);
    HeadsCons(s[0], [s[1]] + ([s[2]] + rest));
  }

  /** What the comment loop makes of the chunks from one index on: at a header with more than
      three chunks from it on, the header and the chunk two further become <i>, the chunk
      between them gets the author line and an empty chunk is inserted after it; the loop then
      goes on with the next chunk, the rewritten author line. */
  function CommentsRewritten(s: seq<Token>, before: (string, string) -> string): seq<Token>
    decreases |s| + Heads(s)
  {
    if s == [] then []
    else if |s| > 3 && IsCommentHead(s[0]) then
      AfterHeadHeads(s, before);
      [Italic(s[0])] + CommentsRewritten(AfterHead(s, before), before)
    else [s[0]] + CommentsRewritten(s[1..], before)
  }

  // ---------------------------------------------------------------------------------------
  // The chunk objects the loop edits
  // ---------------------------------------------------------------------------------------

  /** An entry of `commentsChunks`: the chunk object it refers to, as that object now reads,
      and whether the object is one of the page's own chunks (ToList copies references to
      them) rather than one the loop inserted. */
  datatype Slot = Slot(chunk: Token, shared: bool)

  /** What the entries read. */
  function Chunks(s: seq<Slot>): (r: seq<Token>)
    ensures |r| == |s| && forall k :: 0 <= k < |s| ==> r[k] == s[k].chunk
  {
    seq(|s|, k requires 0 <= k < |s| => s[k].chunk)
  }

  /** `ToList()` over chunks of the page: references to the page's own objects. */
  function AllShared(t: seq<Token>): (r: seq<Slot>)
    ensures Chunks(r) == t && forall k :: 0 <= k < |r| ==> r[k].shared
  {
    seq(|t|, k requires 0 <= k < |t| => Slot(t[k], true))
  }

  /** The page's own objects among the entries, in order, as they now read. */
  function SharedChunks(s: seq<Slot>): seq<Token>
  {
    if s == [] then [] else (if s[0].shared then [s[0].chunk] else []) + SharedChunks(s[1..])
  }

  /** The entries the loop leaves behind a header at the front of s: the neighbours edited in
      place and the inserted chunk, which is not the page's. */
  function AfterHeadSlots(s: seq<Slot>, before: (string, string) -> string): seq<Slot>
    requires |s| > 3
  {
    [s[1].(chunk := Byline(s[1].chunk, before)), Slot(EmptyChunk, false), s[2].(chunk := Italic(s[2].chunk))] + s[3..]
  }

  lemma AfterHeadSlotsHeads(s: seq<Slot>, before: (string, string) -> string)
    requires |s| > 3 && IsCommentHead(s[0].chunk)
    ensures Chunks(AfterHeadSlots(s, before)) == AfterHead(Chunks(s), before)
    ensures Heads(Chunks(AfterHeadSlots(s, before))) < Heads(Chunks(s))
  {
    assert Chunks(AfterHeadSlots(s, before)) == AfterHead(Chunks(s), before);
    AfterHeadHeads(Chunks(s), before);
  }

  lemma TailHeads(s: seq<Slot>)
    requires s != []
    ensures Chunks(s[1..]) == Chunks(s)[1..]
    ensures Heads(Chunks(s[1..])) <= Heads(Chunks(s))
  {
    assert Chunks(s[1..]) == Chunks(s)[1..];
  }

  /** The comment loop over the entries: CommentsRewritten, with each edit applied to the
      object the entry refers to. */
  function SlotsRewritten(s: seq<Slot>, before: (string, string) -> string): seq<Slot>
    decreases |s| + Heads(Chunks(s))
  {
    if s == [] then []
    else if |s| > 3 && IsCommentHead(s[0].chunk) then
      AfterHeadSlotsHeads(s, before);
      [s[0].(chunk := Italic(s[0].chunk))] + SlotsRewritten(AfterHeadSlots(s, before), before)
    else
      TailHeads(s);
      [s[0]] + SlotsRewritten(s[1..], before)
  }

  lemma ChunksCons(a: Slot, t: seq<Slot>)
    ensures Chunks([a] + t) == [a.chunk] + Chunks(t)
  {
    assert Chunks([a] + t) == [a.chunk] + Chunks(t);
  }

  lemma SharedCons(a: Slot, t: seq<Slot>)
    ensures SharedChunks([a] + t) == (if a.shared then [a.chunk] else []) + SharedChunks(t)
  {
    assert ([a] + t)[1..] == t;
  }

  /** What the entries read after the loop is what CommentsRewritten computes on what they
      read before. */
  lemma {:induction false} SlotsRender(s: seq<Slot>, before: (string, string) -> string)
    ensures Chunks(SlotsRewritten(s, before)) == CommentsRewritten(Chunks(s), before)
    decreases |s| + Heads(Chunks(s))
  {
    if s != [] {
      if |s| > 3 && IsCommentHead(s[0].chunk) {
        AfterHeadSlotsHeads(s, before);
        SlotsRender(AfterHeadSlots(s, before), before);
        ChunksCons(s[0].(chunk := Italic(s[0].chunk)), SlotsRewritten(AfterHeadSlots(s, before), before));
      } else {
        TailHeads(s);
        SlotsRender(s[1..], before);
        ChunksCons(s[0], SlotsRewritten(s[1..], before));
      }
    }
  }

  lemma {:induction false} SharedAppend(a: seq<Slot>, b: seq<Slot>)
    ensures SharedChunks(a + b) == SharedChunks(a) + SharedChunks(b)
  {
    if |a| > 0 {
      var t := a[1..];
      SharedAppend(t, b);
      assert (a + b)[0] == a[0] && (a + b)[1..] == t + b;
      assert SharedChunks(a + b) == (if a[0].shared then [a[0].chunk] else []) + SharedChunks(t + b);
    } else {
      assert a + b == b;
    }
  }

  lemma SharedThree(x: Slot, y: Slot, z: Slot)
    ensures |SharedChunks([x, y, z])| ==
      (if x.shared then 1 else 0) + (if y.shared then 1 else 0) + (if z.shared then 1 else 0)
  {
    assert [x, y, z] == [x] + ([y] + ([z] + []));
    SharedCons(x, [y] + ([z] + []));
    SharedCons(y, [z] + []);
    SharedCons(z, []);
  }

  /** Rewriting a header keeps the page's objects among the entries: the header itself comes
      first, its two neighbours stay, the inserted chunk is not the page's. */
  lemma AfterHeadShared(s: seq<Slot>, before: (string, string) -> string)
    requires |s| > 3
    ensures (if s[0].shared then 1 else 0) + |SharedChunks(AfterHeadSlots(s, before))| == |SharedChunks(s)|
  {
    var a := AfterHeadSlots(s, before);
    assert a == [a[0], a[1], a[2]] + s[3..];
    assert s == [s[0], s[1], s[2]] + s[3..];
    SharedAppend([a[0], a[1], a[2]], s[3..]);
    SharedAppend([s[0], s[1], s[2]], s[3..]);
    SharedThree(a[0], a[1], a[2]);
    SharedThree(s[0], s[1], s[2]);
  }

  /** The loop edits the page's objects but neither drops nor adds one. */
  lemma {:induction false} SharedKept(s: seq<Slot>, before: (string, string) -> string)
    ensures |SharedChunks(SlotsRewritten(s, before))| == |SharedChunks(s)|
    decreases |s| + Heads(Chunks(s))
  {
    if s != [] {
      if |s| > 3 && IsCommentHead(s[0].chunk) {
        var a := AfterHeadSlots(s, before);
        AfterHeadSlotsHeads(s, before);
        SharedKept(a, before);
        SharedCons(s[0].(chunk := Italic(s[0].chunk)), SlotsRewritten(a, before));
        AfterHeadShared(s, before);
      } else {
        TailHeads(s);
        SharedKept(s[1..], before);
        SharedCons(s[0], SlotsRewritten(s[1..], before));
        SharedCons(s[0], s[1..]);
        assert s == [s[0]] + s[1..];
      }
    }
  }

  lemma {:induction false} AllSharedChunks(t: seq<Token>)
    ensures SharedChunks(AllShared(t)) == t
  {
    if t != [] {
      AllSharedChunks(t[1..]);
      assert AllShared(t) == [Slot(t[0], true)] + AllShared(t[1..]);
      SharedCons(Slot(t[0], true), AllShared(t[1..]));
    }
  }

  /** Without headers the loop edits nothing. */
  lemma {:induction false} SlotsWithoutHeads(s: seq<Slot>, before: (string, string) -> string)
    requires forall m :: 0 <= m < |s| ==> !IsCommentHead(s[m].chunk)
    ensures SlotsRewritten(s, before) == s
  {
    if s != [] {
      SlotsWithoutHeads(s[1..], before);
    }
  }

  /** The for loop of ProcessContent over `commentsChunks`, which it edits in place and grows
      by one chunk per comment header. */
  method RewriteComments(slots: seq<Slot>, before: (string, string) -> string) returns (list: seq<Slot>)
    ensures list == SlotsRewritten(slots, before)
  {
    list := slots;
    var i := 0;
    while i < |list|
      invariant 0 <= i <= |list|
      invariant list[..i] + SlotsRewritten(list[i..], before) == SlotsRewritten(slots, before)
      decreases |list| - i + Heads(Chunks(list[i..]))
    {
      if i + 3 < |list| && IsCommentHead(list[i].chunk) {
        var next := list[..i] +
          [list[i].(chunk := Italic(list[i].chunk)), list[i + 1].(chunk := Byline(list[i + 1].chunk, before)),
           Slot(EmptyChunk, false), list[i + 2].(chunk := Italic(list[i + 2].chunk))] + list[i + 3..];
        HeadStep(list, i, before, next);
        list := next;
      } else {
        PlainStep(list, i, before);
      }
      i := i + 1;
    }
    assert list[i..] == [];
  }

  /** One pass of the loop at a header ... */
  lemma HeadStep(list: seq<Slot>, i: nat, before: (string, string) -> string, next: seq<Slot>)
    requires i + 3 < |list| && IsCommentHead(list[i].chunk)
    requires next == list[..i] +
      [list[i].(chunk := Italic(list[i].chunk)), list[i + 1].(chunk := Byline(list[i + 1].chunk, before)),
       Slot(EmptyChunk, false), list[i + 2].(chunk := Italic(list[i + 2].chunk))] + list[i + 3..]
    ensures next[..i + 1] + SlotsRewritten(next[i + 1..], before) == list[..i] + SlotsRewritten(list[i..], before)
    ensures |next| - (i + 1) + Heads(Chunks(next[i + 1..])) < |list| - i + Heads(Chunks(list[i..]))
  {
    var rest := list[i..];
    AfterHeadSlotsHeads(rest, before);
    assert rest[1] == list[i + 1] && rest[2] == list[i + 2] && rest[3..] == list[i + 3..];
    assert next[..i + 1] == list[..i] + [rest[0].(chunk := Italic(rest[0].chunk))];
    assert next[i + 1..] == AfterHeadSlots(rest, before);
    assert SlotsRewritten(rest, before) ==
      [rest[0].(chunk := Italic(rest[0].chunk))] + SlotsRewritten(AfterHeadSlots(rest, before), before);
    assert |next| - (i + 1) == |list| - i;
  }

  /** ... and anywhere else. */
  lemma PlainStep(list: seq<Slot>, i: nat, before: (string, string) -> string)
    requires i < |list| && !(i + 3 < |list| && IsCommentHead(list[i].chunk))
    ensures list[..i + 1] + SlotsRewritten(list[i + 1..], before) == list[..i] + SlotsRewritten(list[i..], before)
    ensures Heads(Chunks(list[i + 1..])) <= Heads(Chunks(list[i..]))
  {
    var rest := list[i..];
    assert rest[1..] == list[i + 1..];
    assert list[..i + 1] == list[..i] + [rest[0]];
    TailHeads(rest);
  }

  /** A stretch without headers passes through the loop unchanged. */
  lemma {:induction false} CommentsPrefix(s: seq<Token>, k: nat, before: (string, string) -> string)
    requires k <= |s|
    requires forall m :: 0 <= m < k ==> !IsCommentHead(s[m])
    ensures CommentsRewritten(s, before) == s[..k] + CommentsRewritten(s[k..], before)
    decreases k
  {
    if k > 0 {
      CommentsCons(s, before);
      CommentsPrefix(s[1..], k - 1, before);
      assert s[1..][k - 1..] == s[k..];
      assert s[..k] == [s[0]] + s[1..][..k - 1];
    }
  }

  /** A chunk that is not a header passes through the loop as it is. */
  lemma CommentsCons(s: seq<Token>, before: (string, string) -> string)
    requires s != [] && !IsCommentHead(s[0])
    ensures CommentsRewritten(s, before) == [s[0]] + CommentsRewritten(s[1..], before)
  {
  }

  /** Without comment headers the comments come out as they went in. */
  lemma CommentsWithoutHeads(s: seq<Token>, before: (string, string) -> string)
    requires forall m :: 0 <= m < |s| ==> !IsCommentHead(s[m])
    ensures CommentsRewritten(s, before) == s
  {
    CommentsPrefix(s, |s|, before);
    assert s[|s|..] == [];
  }

  /** Each header the loop reaches adds one chunk; nothing is removed. */
  lemma {:induction false} CommentsGrow(s: seq<Token>, before: (string, string) -> string)
    ensures |CommentsRewritten(s, before)| >= |s|
    ensures |CommentsRewritten(s, before)| == |s| <==> CommentsRewritten(s, before) == s
    decreases |s| + Heads(s)
  {
    if s != [] {
      if |s| > 3 && IsCommentHead(s[0]) {
        AfterHeadHeads(s, before);
        CommentsGrow(AfterHead(s, before), before);
      } else {
        CommentsGrow(s[1..], before);
      }
    }
  }

  /** Three chunks or fewer are left alone. */
  lemma {:induction false} ShortComments(s: seq<Token>, before: (string, string) -> string)
    requires |s| <= 3
    ensures CommentsRewritten(s, before) == s
  {
    if s != [] {
      ShortComments(s[1..], before);
    }
  }

  /** After the loop a comment header can only be among the last three chunks: every header
      before them was rewritten. */
  lemma {:induction false} NoHeadsLeft(s: seq<Token>, before: (string, string) -> string)
    ensures forall m :: 0 <= m < |CommentsRewritten(s, before)| - 3 ==>
      !IsCommentHead(CommentsRewritten(s, before)[m])
    decreases |s| + Heads(s)
  {
    var r := CommentsRewritten(s, before);
    if s != [] {
      if |s| > 3 && IsCommentHead(s[0]) {
        AfterHeadHeads(s, before);
        var t := CommentsRewritten(AfterHead(s, before), before);
        NoHeadsLeft(AfterHead(s, before), before);
        assert r == [Italic(s[0])] + t;
        forall m | 0 <= m < |r| - 3
          ensures !IsCommentHead(r[m])
        {
          if m > 0 {
            assert r[m] == t[m - 1];
          }
        }
      } else {
        var t := CommentsRewritten(s[1..], before);
        NoHeadsLeft(s[1..], before);
        CommentsGrow(s[1..], before);
        assert r == [s[0]] + t;
        forall m | 0 <= m < |r| - 3
          ensures !IsCommentHead(r[m])
        {
          if m > 0 {
            assert r[m] == t[m - 1];
          } else if |s| <= 3 {
            ShortComments(s, before);
          }
        }
      }
    }
  }

  /** One comment: the header and the body chunk become <i>, the author chunk between them
      becomes the author line and an empty chunk follows it. */
  lemma OneComment(p: map<string, string>, author: string, body: Token, after: Token,
                   before: (string, string) -> string)
    requires "class" in p && p["class"] == "m"
    requires !IsCommentHead(body) && !IsCommentHead(after)
    ensures CommentsRewritten([Tag("div", Open, p), Text(author), body, after], before) ==
      [Tag("i", Open, p), Text("-> " + before(author, ",") + "<br/>"), EmptyChunk, Italic(body), after]
  {
    var s := [Tag("div", Open, p), Text(author), body, after];
    assert IsCommentHead(s[0]);
    var a := AfterHead(s, before);
    assert a == [Text("-> " + before(author, ",") + "<br/>"), EmptyChunk, Italic(body), after];
    CommentsWithoutHeads(a, before);
  }

  // ---------------------------------------------------------------------------------------
  // ProcessContent
  // ---------------------------------------------------------------------------------------

  /** `new HTMLchunk(true) { oType = OpenTag, sTag = "hr" }` */
  const Separator: Token := Tag("hr", Open, map[])

  /** CombineToHtml: the HTML of each chunk, in order. A chunk's HTML is a parameter. */
  function CombineToHtml(chunks: seq<Token>, html: Token -> string): string
  {
    if chunks == [] then "" else html(chunks[0]) + CombineToHtml(chunks[1..], html)
  }

  /** The HTML of two runs of chunks is the HTML of the first followed by that of the second. */
  lemma {:induction false} CombineToHtmlAppend(a: seq<Token>, b: seq<Token>, html: Token -> string)
    ensures CombineToHtml(a + b, html) == CombineToHtml(a, html) + CombineToHtml(b, html)
    decreases |a|
  {
    if a != [] {
      assert (a + b)[0] == a[0];
      assert (a + b)[1..] == a[1..] + b;
      CombineToHtmlAppend(a[1..], b, html);
      var h, x, y := html(a[0]), CombineToHtml(a[1..], html), CombineToHtml(b, html);
      assert h + (x + y) == (h + x) + y;
    } else {
      assert a + b == b;
    }
  }

  const ArticleParameters: seq<(string, string)> := [("class", "txt")]
  const CommentsParameters: seq<(string, string)> := [("class", "cmts")]

  /** The page's chunks once the comment loop has run: the entries of `commentsChunks` refer to
      the chunk objects inside <div class="cmts">, so the loop renames and rewrites those
      objects in the page itself; the chunks it inserts are not in the page. Nothing reads the
      page while the loop runs, so the edits can be applied after it. */
  function EditedPage(page: seq<Token>, before: (string, string) -> string): (r: seq<Token>)
    ensures |r| == |page|
  {
    var k := FirstOpener(page, "div", CommentsParameters);
    var c := Enclosed(page, "div", CommentsParameters);
    EnclosedRange(page, "div", CommentsParameters);
    if k == |page| then page
    else page[..k + 1] + EditedComments(c, before) + page[k + 1 + |c|..]
  }

  /** The page's own chunks of the comment block, in their places, as the loop leaves them:
      one for each chunk of the block, since the loop inserts only fresh chunks. */
  function EditedComments(c: seq<Token>, before: (string, string) -> string): (r: seq<Token>)
    ensures |r| == |c|
  {
    SharedKept(AllShared(c), before);
    AllSharedChunks(c);
    SharedChunks(SlotsRewritten(AllShared(c), before))
  }

  /** The chunks ProcessContent renders for a parsed page: `articleChunks` is a lazy
      enumeration of the page, first run by CombineToHtml after the comment loop, so it sees
      the edited page; then the separator and the rewritten comments. */
  function ResultChunks(page: seq<Token>, before: (string, string) -> string): seq<Token>
  {
    Enclosed(EditedPage(page, before), "div", ArticleParameters) + [Separator] +
    CommentsRewritten(Enclosed(page, "div", CommentsParameters), before)
  }

  /** ProcessContent(content). The parser is a parameter, taken to return a list of chunk
      objects that every enumeration of the page shares; when it fails (null) the enumeration
      of the comments reaches SkipWhile with a null source, which throws. */
  method ProcessContent(content: Option<string>, parse: string -> Option<seq<Token>>,
                        before: (string, string) -> string, html: Token -> string)
    returns (r: Result<string>)
    ensures content.None? ==> r == Failure(ArgumentNull("content"))
    ensures content.Some? && parse(content.value).None? ==> r == Failure(ArgumentNull("source"))
    ensures content.Some? && parse(content.value).Some? ==>
      r == Success(CombineToHtml(ResultChunks(parse(content.value).value, before), html))
  {
    if content.None? {
      return Failure(ArgumentNull("content"));
    }
    var pageChunks := parse(content.value);
    if pageChunks.None? {
      return Failure(ArgumentNull("source"));
    }
    var page := pageChunks.value;
    var k := FirstOpener(page, "div", CommentsParameters);
    var commentsChunks := TagContent(page, "div", CommentsParameters);
    var list := RewriteComments(AllShared(commentsChunks), before);
    var edited := page;
    if k < |page| {
      // the edits made through the entries that refer to the page's chunks
      EditedThroughList(page, before, list);
      edited := page[..k + 1] + SharedChunks(list) + page[k + 1 + |commentsChunks|..];
      assert edited == EditedPage(page, before);
    } else {
      NoCommentsUnedited(page, before);
    }
    // articleChunks is enumerated only now
    var articleChunks := TagContent(edited, "div", ArticleParameters);
    ListRendered(commentsChunks, before, list);
    var resultChunks := articleChunks + [Separator] + Chunks(list);
    assert resultChunks == ResultChunks(page, before);
    return Success(CombineToHtml(resultChunks, html));
  }

  /** The page after the comment loop's edits, read through the shared entries. */
  lemma EditedThroughList(page: seq<Token>, before: (string, string) -> string, list: seq<Slot>)
    requires FirstOpener(page, "div", CommentsParameters) < |page|
    requires list == SlotsRewritten(AllShared(Enclosed(page, "div", CommentsParameters)), before)
    ensures var k := FirstOpener(page, "div", CommentsParameters);
      var c := Enclosed(page, "div", CommentsParameters);
      k + 1 + |c| <= |page| &&
      page[..k + 1] + SharedChunks(list) + page[k + 1 + |c|..] == EditedPage(page, before)
  {
    EditedPageIs(page, before);
    assert SharedChunks(list) == EditedComments(Enclosed(page, "div", CommentsParameters), before);
  }

  /** The comment list the loop leaves behind renders as the rewritten comment block. */
  lemma ListRendered(c: seq<Token>, before: (string, string) -> string, list: seq<Slot>)
    requires list == SlotsRewritten(AllShared(c), before)
    ensures Chunks(list) == CommentsRewritten(c, before)
  {
    SlotsRender(AllShared(c), before);
  }

  /** EditedPage when the page has a <div class="cmts">. */
  lemma EditedPageIs(page: seq<Token>, before: (string, string) -> string)
    requires FirstOpener(page, "div", CommentsParameters) < |page|
    ensures var k := FirstOpener(page, "div", CommentsParameters);
      var c := Enclosed(page, "div", CommentsParameters);
      k + 1 + |c| <= |page| &&
      EditedPage(page, before) == page[..k + 1] + EditedComments(c, before) + page[k + 1 + |c|..]
  {
    var k := FirstOpener(page, "div", CommentsParameters);
    var c := Enclosed(page, "div", CommentsParameters);
    EnclosedRange(page, "div", CommentsParameters);
    assert k + 1 + |c| <= |page|;
    assert EditedPage(page, before) == page[..k + 1] + EditedComments(c, before) + page[k + 1 + |c|..];
  }

  /** The edited page when the comment block opens at k. */
  lemma EditedPageAt(page: seq<Token>, before: (string, string) -> string, k: nat)
    requires k < |page| && IsOpenTag(page[k], "div", CommentsParameters)
    requires forall m :: 0 <= m < k ==> !IsOpenTag(page[m], "div", CommentsParameters)
    ensures var c := Enclosed(page, "div", CommentsParameters);
      k + 1 + |c| <= |page| &&
      EditedPage(page, before) == page[..k + 1] + EditedComments(c, before) + page[k + 1 + |c|..]
  {
    assert FirstOpener(page, "div", CommentsParameters) == k;
    EditedPageIs(page, before);
  }

  /** The loop edits only the chunks inside <div class="cmts">; each of them keeps its place. */
  lemma EditedPageOutside(page: seq<Token>, before: (string, string) -> string)
    ensures var k := FirstOpener(page, "div", CommentsParameters);
      var c := Enclosed(page, "div", CommentsParameters);
      var e := EditedPage(page, before);
      (k == |page| ==> e == page) &&
      (k < |page| ==>
        k + 1 + |c| <= |page| &&
        e[..k + 1] == page[..k + 1] && e[k + 1 + |c|..] == page[k + 1 + |c|..] &&
        e[k + 1..k + 1 + |c|] == EditedComments(c, before))
  {
    var k := FirstOpener(page, "div", CommentsParameters);
    if k < |page| {
      var c := Enclosed(page, "div", CommentsParameters);
      EditedPageIs(page, before);
      var edited := EditedComments(c, before);
      var e := EditedPage(page, before);
      assert e[..k + 1] == page[..k + 1];
      assert e[k + 1..k + 1 + |c|] == edited;
      assert e[k + 1 + |c|..] == page[k + 1 + |c|..];
    }
  }

  /** When the article's <div class="txt"> closes before the comments' <div class="cmts">
      opens, the edits do not reach the article: the result is the article as parsed, the
      separator and the rewritten comments. */
  lemma ArticleUnaffected(page: seq<Token>, before: (string, string) -> string)
    requires FirstOpener(page, "div", ArticleParameters) + 1 + |Enclosed(page, "div", ArticleParameters)| <
      FirstOpener(page, "div", CommentsParameters)
    ensures ResultChunks(page, before) ==
      Enclosed(page, "div", ArticleParameters) + [Separator] +
      CommentsRewritten(Enclosed(page, "div", CommentsParameters), before)
  {
    EditedArticleKept(page, before);
  }

  lemma EditedArticleKept(page: seq<Token>, before: (string, string) -> string)
    requires FirstOpener(page, "div", ArticleParameters) + 1 + |Enclosed(page, "div", ArticleParameters)| <
      FirstOpener(page, "div", CommentsParameters)
    ensures Enclosed(EditedPage(page, before), "div", ArticleParameters) == Enclosed(page, "div", ArticleParameters)
  {
    var k := FirstOpener(page, "div", CommentsParameters);
    var e := EditedPage(page, before);
    if k < |page| {
      EditedPrefix(page, before);
      assert k + 1 <= |page| == |e|;
      assert e[..k + 1] == page[..k + 1];
      ArticleKept(page, e, k + 1);
    } else {
      NoCommentsUnedited(page, before);
    }
  }

  /** The article of a page that agrees with this one up to past the article's closer. */
  lemma ArticleKept(page: seq<Token>, e: seq<Token>, j: nat)
    requires j <= |page| == |e| && e[..j] == page[..j]
    requires FirstOpener(page, "div", ArticleParameters) + 1 + |Enclosed(page, "div", ArticleParameters)| < j
    ensures Enclosed(e, "div", ArticleParameters) == Enclosed(page, "div", ArticleParameters)
  {
    EnclosedAgree(page, e, "div", ArticleParameters, j);
  }

  /** A page without <div class="cmts"> is not edited. */
  lemma NoCommentsUnedited(page: seq<Token>, before: (string, string) -> string)
    requires FirstOpener(page, "div", CommentsParameters) == |page|
    ensures EditedPage(page, before) == page
  {
  }

  /** The chunks up to and including the comments' opener are not edited. */
  lemma EditedPrefix(page: seq<Token>, before: (string, string) -> string)
    requires FirstOpener(page, "div", CommentsParameters) < |page|
    ensures var k := FirstOpener(page, "div", CommentsParameters);
      EditedPage(page, before)[..k + 1] == page[..k + 1]
  {
    EditedPageIs(page, before);
  }

  /** The result is the article's HTML, the separator's, then the rewritten comments' HTML. */
  lemma ResultLayout(page: seq<Token>, before: (string, string) -> string, html: Token -> string)
    ensures CombineToHtml(ResultChunks(page, before), html) ==
      CombineToHtml(Enclosed(EditedPage(page, before), "div", ArticleParameters), html) + html(Separator) +
      CombineToHtml(CommentsRewritten(Enclosed(page, "div", CommentsParameters), before), html)
  {
    var a := Enclosed(EditedPage(page, before), "div", ArticleParameters);
    var c := CommentsRewritten(Enclosed(page, "div", CommentsParameters), before);
    assert ResultChunks(page, before) == a + [Separator] + c;
    CombineAround(a, Separator, c, html);
  }

  lemma CombineAround(a: seq<Token>, x: Token, c: seq<Token>, html: Token -> string)
    ensures CombineToHtml(a + [x] + c, html) == CombineToHtml(a, html) + html(x) + CombineToHtml(c, html)
  {
    CombineToHtmlAppend(a + [x], c, html);
    CombineToHtmlAppend(a, [x], html);
    assert CombineToHtml([x], html) == html(x) + "";
  }

  /** A page without comment headers in its comments is not edited, and yields the article,
      the separator and the comments as they stand. */
  lemma PlainComments(page: seq<Token>, before: (string, string) -> string)
    requires var c := Enclosed(page, "div", CommentsParameters);
      forall m :: 0 <= m < |c| ==> !IsCommentHead(c[m])
    ensures EditedPage(page, before) == page
    ensures ResultChunks(page, before) ==
      Enclosed(page, "div", ArticleParameters) + [Separator] + Enclosed(page, "div", CommentsParameters)
  {
    CommentsWithoutHeads(Enclosed(page, "div", CommentsParameters), before);
    PlainPage(page, before);
  }

  lemma PlainPage(page: seq<Token>, before: (string, string) -> string)
    requires var c := Enclosed(page, "div", CommentsParameters);
      forall m :: 0 <= m < |c| ==> !IsCommentHead(c[m])
    ensures EditedPage(page, before) == page
  {
    var k := FirstOpener(page, "div", CommentsParameters);
    if k < |page| {
      var c := Enclosed(page, "div", CommentsParameters);
      EditedCommentsPlain(c, before);
      EditedPageIs(page, before);
      EnclosedRange(page, "div", CommentsParameters);
      Reassembled(page, k + 1, c);
    }
  }

  /** Without headers the loop leaves the page's chunks of the block as they were. */
  lemma EditedCommentsPlain(c: seq<Token>, before: (string, string) -> string)
    requires forall m :: 0 <= m < |c| ==> !IsCommentHead(c[m])
    ensures EditedComments(c, before) == c
  {
    SlotsWithoutHeads(AllShared(c), before);
    AllSharedChunks(c);
  }

  /** A sequence is its part before i, the run c found at i, and the rest. */
  lemma Reassembled(page: seq<Token>, i: nat, c: seq<Token>)
    requires i + |c| <= |page| && c == page[i..i + |c|]
    ensures page[..i] + c + page[i + |c|..] == page
  {
  }

  // ---------------------------------------------------------------------------------------
  // A comment block inside the article
  // ---------------------------------------------------------------------------------------

  const DivTxt: Token := Tag("div", Open, map["class" := "txt"])
  const DivCmts: Token := Tag("div", Open, map["class" := "cmts"])
  const DivM: Token := Tag("div", Open, map["class" := "m"])
  const DivClose: Token := Tag("div", Close, map[])

  /** A page whose comment block, holding one comment (header h, author line b, text), sits
      inside the article. */
  function Page(a: string, h: Token, b: Token, text: string): seq<Token>
  {
    [DivTxt] + PageBody(a, h, b, text)
  }

  /** What follows the article's opener. */
  function PageBody(a: string, h: Token, b: Token, text: string): seq<Token>
  {
    [Text(a), DivCmts, h, b, Text(text), DivClose, DivClose, DivClose]
  }

  /** The page as parsed: the comment header is a div. */
  function NestedPage(a: string, author: string, text: string): seq<Token>
  {
    Page(a, DivM, Text(author), text)
  }

  /** Putting other chunks in the places of the header and the author line. */
  lemma PageSplice(a: string, h: Token, b: Token, text: string, h2: Token, b2: Token)
    ensures var page := Page(a, h, b, text);
      Page(a, h2, b2, text) == page[..3] + [h2, b2, Text(text), DivClose] + page[7..]
  {
    var page := Page(a, h, b, text);
    assert page[..3] == [DivTxt, Text(a), DivCmts];
    assert page[7..] == [DivClose, DivClose];
  }

  /** The loop over one comment: the header renamed, the author line rewritten, an inserted
      chunk that is not the page's, the rest as it was. */
  lemma NestedCommentRewritten(c: seq<Token>, author: string, text: string, before: (string, string) -> string)
    requires c == [DivM, Text(author), Text(text), DivClose]
    ensures EditedComments(c, before) ==
      [Italic(DivM), Byline(Text(author), before), Text(text), DivClose]
  {
    var s := AllShared(c);
    assert IsCommentHead(s[0].chunk);
    var after := AfterHeadSlots(s, before);
    assert forall m :: 0 <= m < |after| ==> !IsCommentHead(after[m].chunk);
    SlotsWithoutHeads(after, before);
    var r := SlotsRewritten(s, before);
    assert r == [s[0].(chunk := Italic(DivM))] + after;
    assert r == [Slot(Italic(DivM), true), Slot(Byline(Text(author), before), true), Slot(EmptyChunk, false),
                 Slot(Text(text), true), Slot(DivClose, true)];
    SharedOfFive(r[0], r[1], r[2], r[3], r[4]);
  }

  /** Of five entries the third of which is not the page's, the page's four. */
  lemma SharedOfFive(a: Slot, b: Slot, c: Slot, d: Slot, e: Slot)
    requires a.shared && b.shared && !c.shared && d.shared && e.shared
    ensures SharedChunks([a, b, c, d, e]) == [a.chunk, b.chunk, d.chunk, e.chunk]
  {
    assert [e][1..] == [];
    assert SharedChunks([e]) == [e.chunk];
    assert [d, e][1..] == [e];
    assert SharedChunks([d, e]) == [d.chunk, e.chunk];
    assert [c, d, e][1..] == [d, e];
    assert SharedChunks([c, d, e]) == [d.chunk, e.chunk];
    assert [b, c, d, e][1..] == [c, d, e];
    assert SharedChunks([b, c, d, e]) == [b.chunk, d.chunk, e.chunk];
    assert [a, b, c, d, e][1..] == [b, c, d, e];
  }

  /** The balance walk through one comment stops at the closer of the comment block. */
  lemma NestedBlock(author: string, text: string)
    ensures UntilClosed([DivM, Text(author), Text(text), DivClose, DivClose, DivClose], "div", 1) ==
      [DivM, Text(author), Text(text), DivClose]
  {
    var r4 := [DivClose, DivClose];
    var r3 := [DivClose] + r4;
    var r2 := [Text(text)] + r3;
    var r1 := [Text(author)] + r2;
    assert UntilClosed(r4, "div", 1) == [];
    UntilClosedKeep(DivClose, r4, "div", 2);
    UntilClosedKeep(Text(text), r3, "div", 2);
    UntilClosedKeep(Text(author), r2, "div", 2);
    UntilClosedKeep(DivM, r1, "div", 1);
    assert [DivM] + r1 == [DivM, Text(author), Text(text), DivClose, DivClose, DivClose];
  }

  /** The comment block's opener is the third chunk of the page, the first of its kind. */
  lemma PageComments(a: string, h: Token, b: Token, text: string)
    ensures IsOpenTag(Page(a, h, b, text)[2], "div", CommentsParameters)
    ensures forall m :: 0 <= m < 2 ==> !IsOpenTag(Page(a, h, b, text)[m], "div", CommentsParameters)
    ensures Page(a, h, b, text)[3..] == [h, b, Text(text), DivClose, DivClose, DivClose]
  {
    var page := Page(a, h, b, text);
    OpenersOfExample();
    assert "txt"[0] != "cmts"[0];
    assert !ParameterMatches(page[0], CommentsParameters[0].0, CommentsParameters[0].1);
  }

  /** The comment block of the nested page: one comment and the closer of the header's div. */
  lemma NestedComments(a: string, author: string, text: string)
    ensures IsOpenTag(NestedPage(a, author, text)[2], "div", CommentsParameters)
    ensures forall m :: 0 <= m < 2 ==> !IsOpenTag(NestedPage(a, author, text)[m], "div", CommentsParameters)
    ensures Enclosed(NestedPage(a, author, text), "div", CommentsParameters) ==
      [DivM, Text(author), Text(text), DivClose]
  {
    PageComments(a, DivM, Text(author), text);
    EnclosedFrom(NestedPage(a, author, text), "div", CommentsParameters, 2);
    NestedBlock(author, text);
  }

  /** The comment loop edits the header and the author line of the nested comment in the page
      itself. */
  lemma NestedPageEdited(a: string, author: string, text: string, before: (string, string) -> string)
    ensures EditedPage(NestedPage(a, author, text), before) ==
      Page(a, Italic(DivM), Byline(Text(author), before), text)
  {
    var page := NestedPage(a, author, text);
    NestedComments(a, author, text);
    NestedCommentRewritten(Enclosed(page, "div", CommentsParameters), author, text, before);
    EditedPageAt(page, before, 2);
    PageSplice(a, DivM, Text(author), text, Italic(DivM), Byline(Text(author), before));
  }

  /** One step of the balance walk from the i-th chunk, when it does not close the walk. */
  lemma WalkOn(s: seq<Token>, i: nat, name: string, balance: int)
    requires i < |s| && balance + Delta(s[i], name) != 0
    ensures UntilClosed(s[i..], name, balance) ==
      [s[i]] + UntilClosed(s[i + 1..], name, balance + Delta(s[i], name))
  {
    var t := s[i..];
    assert t[0] == s[i] && t[1..] == s[i + 1..];
    UntilClosedStep(t, name, balance);
  }

  /** The content of a page that starts with the opener. */
  lemma EnclosedFirst(t: Token, body: seq<Token>, tagName: string, parameters: seq<(string, string)>)
    requires IsOpenTag(t, tagName, parameters)
    ensures Enclosed([t] + body, tagName, parameters) == UntilClosed(body, tagName, 1)
  {
    EnclosedFrom([t] + body, tagName, parameters, 0);
    assert ([t] + body)[1..] == body;
  }

  /** The article's opener, and the comment block's, are the first of their kind here. */
  lemma OpenersOfExample()
    ensures IsOpenTag(DivTxt, "div", ArticleParameters)
    ensures IsOpenTag(DivCmts, "div", CommentsParameters)
  {
    assert ParameterMatches(DivTxt, ArticleParameters[0].0, ArticleParameters[0].1);
    assert ParameterMatches(DivCmts, CommentsParameters[0].0, CommentsParameters[0].1);
  }

  /** The walk over a text, two openers, two texts and the closers of all three openers. */
  lemma WalkTwoOpeners(s: seq<Token>, name: string)
    requires |s| == 8 && s[7].Tag? && s[7].name == name
    requires Delta(s[0], name) == 0 && Delta(s[3], name) == 0 && Delta(s[4], name) == 0
    requires Delta(s[1], name) == 1 && Delta(s[2], name) == 1
    requires Delta(s[5], name) == -1 && Delta(s[6], name) == -1 && Delta(s[7], name) == -1
    ensures UntilClosed(s, name, 1) == [s[0], s[1], s[2], s[3], s[4], s[5], s[6]]
  {
    WalkClosers(s, name);
    WalkOn(s, 2, name, 2);
    assert UntilClosed(s[2..], name, 2) == [s[2], s[3], s[4], s[5], s[6]];
    WalkOn(s, 1, name, 1);
    assert UntilClosed(s[1..], name, 1) == [s[1], s[2], s[3], s[4], s[5], s[6]];
    WalkOn(s, 0, name, 1);
  }

  /** The last five chunks of that walk, entered two openers deep. */
  lemma WalkClosers(s: seq<Token>, name: string)
    requires |s| == 8 && s[7].Tag? && s[7].name == name
    requires Delta(s[3], name) == 0 && Delta(s[4], name) == 0
    requires Delta(s[5], name) == -1 && Delta(s[6], name) == -1 && Delta(s[7], name) == -1
    ensures UntilClosed(s[3..], name, 3) == [s[3], s[4], s[5], s[6]]
  {
    UntilClosedStep(s[7..], name, 1);
    assert UntilClosed(s[7..], name, 1) == [];
    WalkOn(s, 6, name, 2);
    assert UntilClosed(s[6..], name, 2) == [s[6]];
    WalkOn(s, 5, name, 3);
    assert UntilClosed(s[5..], name, 3) == [s[5], s[6]];
    WalkOn(s, 4, name, 3);
    assert UntilClosed(s[4..], name, 3) == [s[4], s[5], s[6]];
    WalkOn(s, 3, name, 3);
  }

  /** The walk over a text, an opener, three chunks that open nothing and the closers. */
  lemma WalkOneOpener(s: seq<Token>, name: string)
    requires |s| == 8 && s[6].Tag? && s[6].name == name
    requires Delta(s[0], name) == 0 && Delta(s[2], name) == 0 && Delta(s[3], name) == 0
    requires Delta(s[1], name) == 1 && Delta(s[4], name) == 0
    requires Delta(s[5], name) == -1 && Delta(s[6], name) == -1
    ensures UntilClosed(s, name, 1) == [s[0], s[1], s[2], s[3], s[4], s[5]]
  {
    UntilClosedStep(s[6..], name, 1);
    assert UntilClosed(s[6..], name, 1) == [];
    WalkOn(s, 5, name, 2);
    assert UntilClosed(s[5..], name, 2) == [s[5]];
    WalkOn(s, 4, name, 2);
    assert UntilClosed(s[4..], name, 2) == [s[4], s[5]];
    WalkOn(s, 3, name, 2);
    assert UntilClosed(s[3..], name, 2) == [s[3], s[4], s[5]];
    WalkOn(s, 2, name, 2);
    assert UntilClosed(s[2..], name, 2) == [s[2], s[3], s[4], s[5]];
    WalkOn(s, 1, name, 1);
    assert UntilClosed(s[1..], name, 1) == [s[1], s[2], s[3], s[4], s[5]];
    WalkOn(s, 0, name, 1);
  }

  /** The article of the page as parsed runs past the comment block to the closer that
      balances the article's opener. */
  lemma NestedArticle(a: string, author: string, text: string)
    ensures Enclosed(NestedPage(a, author, text), "div", ArticleParameters) ==
      [Text(a), DivCmts, DivM, Text(author), Text(text), DivClose, DivClose]
  {
    WalkTwoOpeners(PageBody(a, DivM, Text(author), text), "div");
    OpenersOfExample();
    EnclosedFirst(DivTxt, PageBody(a, DivM, Text(author), text), "div", ArticleParameters);
  }

  /** The article of the page once chunks h and b that open no div stand in place of the
      header and the author line: the comment block's closer balances the article's opener. */
  lemma EditedArticle(a: string, h: Token, b: Token, text: string)
    requires Delta(h, "div") == 0 && Delta(b, "div") == 0
    ensures Enclosed(Page(a, h, b, text), "div", ArticleParameters) == [Text(a), DivCmts, h, b, Text(text), DivClose]
  {
    WalkOneOpener(PageBody(a, h, b, text), "div");
    OpenersOfExample();
    EnclosedFirst(DivTxt, PageBody(a, h, b, text), "div", ArticleParameters);
  }

  /** The renamed header and the rewritten author line of the nested comment. */
  lemma EditedChunks(author: string, before: (string, string) -> string)
    ensures Italic(DivM) == Tag("i", Open, map["class" := "m"])
    ensures Byline(Text(author), before) == Text("-> " + before(author, ",") + "<br/>")
  {
  }

  /** A comment block inside the article: the renamed header no longer opens a div, so the
      article read after the loop ends one closer earlier than the article of the page as
      parsed, and it holds the comment as the loop edited it. */
  lemma NestedCommentsExample(a: string, author: string, text: string, before: (string, string) -> string)
    ensures Enclosed(NestedPage(a, author, text), "div", ArticleParameters) ==
      [Text(a), DivCmts, DivM, Text(author), Text(text), DivClose, DivClose]
    ensures Enclosed(EditedPage(NestedPage(a, author, text), before), "div", ArticleParameters) ==
      [Text(a), DivCmts, Tag("i", Open, map["class" := "m"]),
       Text("-> " + before(author, ",") + "<br/>"), Text(text), DivClose]
  {
    NestedArticle(a, author, text);
    NestedPageEdited(a, author, text, before);
    EditedChunks(author, before);
    EditedArticle(a, Italic(DivM), Byline(Text(author), before), text);
  }
}
