/** The chunk clean-up HtmlToFb2 performs between parsing and conversion, the same in both
    revisions: three filters, the renaming of links to underlined text, and the repeated
    removal of tags that are opened and closed immediately. */
module Cleanup {
  import opened Wrappers
  import opened Strings
  import opened CollectionUtils
  import opened Html
  import opened Fb2Markup

  // ---------------------------------------------------------------------------------------
  // Filters
  // ---------------------------------------------------------------------------------------

  /** A text chunk that is empty once trimmed. */
  predicate BlankText(t: Token)
  {
    t.Text? && Trim(t.text) == ""
  }

  predicate CommentOrScript(t: Token)
  {
    t.Comment? || t.Script?
  }

  /** An img tag (of any kind) without a "src", or whose "src" is not an image this program
      stored itself. */
  predicate UnsuitableImg(t: Token)
  {
    t.Tag? && t.name == "img" && ("src" !in t.params || !ImgSrcMatches(t.params["src"]))
  }

  /** The chunk a filter lets through. */
  predicate Kept(t: Token)
  {
    !BlankText(t) && !CommentOrScript(t) && !UnsuitableImg(t)
  }

  /** The three WhereNot (newer revision) or RemoveAll (older revision) passes, in order. */
  function Filtered(s: seq<Token>): (r: seq<Token>)
    ensures forall t :: t in r <==> t in s && Kept(t)
  {
    WhereNot(WhereNot(WhereNot(s, BlankText), CommentOrScript), UnsuitableImg)
  }

  /** Filtering only deletes chunks: the survivors keep their order. */
  lemma FilteredIsSubsequence(s: seq<Token>)
    ensures IsSubsequence(Filtered(s), s)
  {
    var a := WhereNot(s, BlankText);
    var b := WhereNot(a, CommentOrScript);
    WhereNotIsSubsequence(s, BlankText);
    WhereNotIsSubsequence(a, CommentOrScript);
    WhereNotIsSubsequence(b, UnsuitableImg);
    SubsequenceTransitive(b, a, s);
    SubsequenceTransitive(Filtered(s), b, s);
  }

  // ---------------------------------------------------------------------------------------
  // Links become underlined text
  // ---------------------------------------------------------------------------------------

  /** The ForEach body: a chunk named "a" is renamed "u" and loses its parameters. */
  function LinkToU(t: Token): Token
  {
    if t.Tag? && t.name == "a" then Tag("u", t.kind, map[]) else t
  }

  /** The state ForEach threads: the chunks visited so far, as the body left them. */
  function RenameAction(done: seq<Token>, t: Token): seq<Token>
  {
    done + [LinkToU(t)]
  }

  function Renamed(s: seq<Token>): (r: seq<Token>)
    ensures |r| == |s|
    ensures forall k :: 0 <= k < |r| ==> !(r[k].Tag? && r[k].name == "a")
    ensures forall k :: 0 <= k < |s| && !(s[k].Tag? && s[k].name == "a") ==> r[k] == s[k]
    ensures forall k :: 0 <= k < |s| && s[k].Tag? && s[k].name == "a" ==>
      r[k] == Tag("u", s[k].kind, map[])
  {
    seq(|s|, k requires 0 <= k < |s| => LinkToU(s[k]))
  }

  /** Visiting the chunks with the renaming body yields every chunk renamed, in place. */
  lemma {:induction false} RenameFold(s: seq<Token>, done: seq<Token>)
    ensures Fold(s, RenameAction, done) == done + Renamed(s)
    decreases |s|
  {
    if s == [] {
      assert done + Renamed(s) == done;
    } else {
      var next := RenameAction(done, s[0]);
      RenameFold(s[1..], next);
      assert Fold(s, RenameAction, done) == Fold(s[1..], RenameAction, next);
      RenamedCons(s);
      assert done + Renamed(s) == (done + [LinkToU(s[0])]) + Renamed(s[1..]);
    }
  }

  lemma RenamedCons(s: seq<Token>)
    requires s != []
    ensures Renamed(s) == [LinkToU(s[0])] + Renamed(s[1..])
  {
    var r, t := Renamed(s), Renamed(s[1..]);
    assert forall k :: 0 <= k < |t| ==> t[k] == LinkToU(s[k + 1]);
    assert forall k :: 0 <= k < |r| ==> r[k] == LinkToU(s[k]);
  }

  /** Renaming creates no chunk a filter would have removed. */
  lemma RenamedKept(s: seq<Token>)
    requires forall t :: t in s ==> Kept(t)
    ensures forall t :: t in Renamed(s) ==> Kept(t)
  {
    var r := Renamed(s);
    forall t | t in r
      ensures Kept(t)
    {
      var k :| 0 <= k < |r| && r[k] == t;
      assert s[k] in s;
    }
  }

  // ---------------------------------------------------------------------------------------
  // Removal of immediately closed tags
  // ---------------------------------------------------------------------------------------

  /** Chunk i opens a tag (not self-closing) that chunk i + 1 closes right away. */
  predicate EmptyPairAt(s: seq<Token>, i: int)
  {
    0 <= i && i + 1 < |s| &&
    s[i].Tag? && s[i].kind == Open && s[i + 1].Tag? && s[i + 1].kind == Close &&
    s[i].name == s[i + 1].name
  }

  predicate NoEmptyPair(s: seq<Token>)
  {
    forall k :: 0 <= k < |s| ==> !EmptyPairAt(s, k)
  }

  /** RemoveAt(i + 1) followed by RemoveAt(i). */
  function RemovePair(s: seq<Token>, i: nat): (r: seq<Token>)
    requires i + 1 < |s|
    ensures |r| == |s| - 2
  {
    s[..i] + s[i + 2..]
  }

  /** One pass of the inner for loop, from index i on: the chunks it leaves and whether it
      removed anything. After a removal the same index is looked at again. */
  function PassFrom(s: seq<Token>, i: nat): (r: (seq<Token>, bool))
    ensures !r.1 ==> r.0 == s
    ensures r.1 ==> |r.0| < |s|
    decreases |s| - i
  {
    if i + 1 >= |s| then (s, false)
    else if EmptyPairAt(s, i) then (PassFrom(RemovePair(s, i), i).0, true)
    else PassFrom(s, i + 1)
  }

  /** The do/while loop: passes are repeated until one removes nothing. */
  function Collapse(s: seq<Token>): seq<Token>
    decreases |s|
  {
    var p := PassFrom(s, 0);
    if p.1 then Collapse(p.0) else p.0
  }

  /** The do { for ... } while (changed) loop of HtmlToFb2. */
  method RemoveEmptyPairs(chunks: seq<Token>) returns (r: seq<Token>)
    ensures r == Collapse(chunks)
  {
    r := chunks;
    var changed := true;
    while changed
      invariant Collapse(chunks) == (if changed then Collapse(r) else r)
      decreases |r| + (if changed then 1 else 0)
    {
      changed := false;
      ghost var start := r;
      var i := 0;
      while i < |r|
        invariant 0 <= i <= |r|
        invariant PassFrom(start, 0) == (PassFrom(r, i).0, PassFrom(r, i).1 || changed)
        decreases |r| - i
      {
        if i + 1 < |r| && r[i].Tag? && r[i].kind == Open && r[i + 1].Tag? && r[i + 1].kind == Close &&
           r[i].name == r[i + 1].name {
          assert EmptyPairAt(r, i);
          ghost var before := r;
          r := r[..i + 1] + r[i + 2..];
          r := r[..i] + r[i + 1..];
          assert r == RemovePair(before, i);
          i := i - 1;
          changed := true;
        }
        i := i + 1;
      }
    }
  }

  /** A pass removes nothing exactly when there is no empty pair from i on. */
  lemma {:induction false} PassFromUnchanged(s: seq<Token>, i: nat)
    ensures !PassFrom(s, i).1 <==> forall k :: i <= k ==> !EmptyPairAt(s, k)
    decreases |s| - i
  {
    if i + 1 >= |s| {
    } else if EmptyPairAt(s, i) {
    } else {
      PassFromUnchanged(s, i + 1);
    }
  }

  /** The collapsed chunks contain no empty pair, and chunks without one are left as they
      are: Collapse is idempotent. */
  lemma {:induction false} CollapseFixedPoint(s: seq<Token>)
    ensures NoEmptyPair(Collapse(s))
    ensures Collapse(s) == s <==> NoEmptyPair(s)
    decreases |s|
  {
    var p := PassFrom(s, 0);
    PassFromUnchanged(s, 0);
    if p.1 {
      CollapseFixedPoint(p.0);
      assert |Collapse(s)| < |s| by {
        CollapseShorter(p.0);
      }
    }
  }

  lemma {:induction false} CollapseShorter(s: seq<Token>)
    ensures |Collapse(s)| <= |s|
    decreases |s|
  {
    var p := PassFrom(s, 0);
    if p.1 {
      CollapseShorter(p.0);
    }
  }

  lemma CollapseIdempotent(s: seq<Token>)
    ensures Collapse(Collapse(s)) == Collapse(s)
  {
    CollapseFixedPoint(s);
    CollapseFixedPoint(Collapse(s));
  }

  /** Text, comments, scripts and self-closing tags: what the removal never touches. */
  predicate Standalone(t: Token)
  {
    !(t.Tag? && t.kind != SelfClose)
  }

  /** `a` is `b` with some opening/closing tags deleted, nested the same way, and with every
      standalone chunk of `b` kept in order. */
  ghost predicate Shrinks(a: seq<Token>, b: seq<Token>)
  {
    IsSubsequence(a, b) && Nest([], a) == Nest([], b) && Where(a, Standalone) == Where(b, Standalone)
  }

  lemma ShrinksTransitive(a: seq<Token>, b: seq<Token>, c: seq<Token>)
    requires Shrinks(a, b) && Shrinks(b, c)
    ensures Shrinks(a, c)
  {
    SubsequenceTransitive(a, b, c);
  }

  /** Removing an empty pair does not change the nesting seen by what follows. */
  lemma {:induction false} RemovePairNest(open: seq<Token>, s: seq<Token>, i: nat)
    requires EmptyPairAt(s, i)
    ensures Nest(open, RemovePair(s, i)) == Nest(open, s)
    decreases i
  {
    var r := RemovePair(s, i);
    if i == 0 {
      assert r == s[2..];
      assert NestStep(open, s[0]) == Some(open + [s[0]]);
      assert s[1..][0] == s[1];
      assert (open + [s[0]])[..|open|] == open;
      assert NestStep(open + [s[0]], s[1]) == Some(open);
      assert s[1..][1..] == s[2..];
    } else {
      assert r[0] == s[0];
      assert r[1..] == RemovePair(s[1..], i - 1);
      assert EmptyPairAt(s[1..], i - 1);
      var next := NestStep(open, s[0]);
      if next.Some? {
        RemovePairNest(next.value, s[1..], i - 1);
      }
    }
  }

  lemma RemovePairWhere(s: seq<Token>, i: nat)
    requires EmptyPairAt(s, i)
    ensures Where(RemovePair(s, i), Standalone) == Where(s, Standalone)
  {
    var t := s[i..];
    assert t[0] == s[i] && t[1..][0] == s[i + 1] && t[1..][1..] == s[i + 2..];
    assert Where(t, Standalone) == Where(s[i + 2..], Standalone);
    WhereAppend(s[..i], t, Standalone);
    WhereAppend(s[..i], s[i + 2..], Standalone);
    assert s == s[..i] + t;
  }

  lemma RemovePairShrinks(s: seq<Token>, i: nat)
    requires EmptyPairAt(s, i)
    ensures Shrinks(RemovePair(s, i), s)
  {
    var s1 := s[..i + 1] + s[i + 2..];
    SubsequenceDelete(s, i + 1);
    SubsequenceDelete(s1, i);
    assert s1[..i] + s1[i + 1..] == RemovePair(s, i);
    SubsequenceTransitive(RemovePair(s, i), s1, s);
    RemovePairNest([], s, i);
    RemovePairWhere(s, i);
  }

  lemma {:induction false} PassFromShrinks(s: seq<Token>, i: nat)
    ensures Shrinks(PassFrom(s, i).0, s)
    decreases |s| - i
  {
    if i + 1 >= |s| {
      SubsequenceReflexive(s);
    } else if EmptyPairAt(s, i) {
      PassFromShrinks(RemovePair(s, i), i);
      RemovePairShrinks(s, i);
      ShrinksTransitive(PassFrom(s, i).0, RemovePair(s, i), s);
    } else {
      PassFromShrinks(s, i + 1);
    }
  }

  /** The removal only deletes opening/closing tags, keeps the nesting of the rest, and keeps
      every text, comment, script and self-closing chunk in order. */
  lemma {:induction false} CollapseShrinks(s: seq<Token>)
    ensures Shrinks(Collapse(s), s)
    decreases |s|
  {
    var p := PassFrom(s, 0);
    PassFromShrinks(s, 0);
    if p.1 {
      CollapseShrinks(p.0);
      ShrinksTransitive(Collapse(s), p.0, s);
    }
  }

  /** Nested empty tags need a second pass: <b><i></i></b>x leaves x. A closing tag
      followed by an opening one is no empty pair. */
  lemma CollapseNestedExample()
    ensures Collapse([Tag("b", Open, map[]), Tag("i", Open, map[]), Tag("i", Close, map[]),
                      Tag("b", Close, map[]), Text("x")]) == [Text("x")]
    ensures Collapse([Tag("b", Close, map[]), Tag("b", Open, map[])]) ==
      [Tag("b", Close, map[]), Tag("b", Open, map[])]
  {
    var b, i := Tag("b", Open, map[]), Tag("i", Open, map[]);
    var bc, ic := Tag("b", Close, map[]), Tag("i", Close, map[]);
    var s := [b, i, ic, bc, Text("x")];
    assert !EmptyPairAt(s, 0) && EmptyPairAt(s, 1);
    assert RemovePair(s, 1) == [b, bc, Text("x")];
    assert !EmptyPairAt([b, bc, Text("x")], 1);
    assert PassFrom([b, bc, Text("x")], 2) == ([b, bc, Text("x")], false);
    assert PassFrom([b, bc, Text("x")], 1) == ([b, bc, Text("x")], false);
    assert PassFrom(s, 1) == ([b, bc, Text("x")], true);
    assert PassFrom(s, 0) == ([b, bc, Text("x")], true);
    assert EmptyPairAt([b, bc, Text("x")], 0);
    assert RemovePair([b, bc, Text("x")], 0) == [Text("x")];
    assert PassFrom([b, bc, Text("x")], 0) == ([Text("x")], true);
    assert PassFrom([Text("x")], 0) == ([Text("x")], false);
    assert !EmptyPairAt([bc, b], 0);
    assert PassFrom([bc, b], 0) == ([bc, b], false);
  }

  // ---------------------------------------------------------------------------------------
  // The whole clean-up
  // ---------------------------------------------------------------------------------------

  /** Filters, renaming and removal, in the order HtmlToFb2 applies them. */
  function Prepared(s: seq<Token>): seq<Token>
  {
    Collapse(Renamed(Filtered(s)))
  }

  /** What reaches the conversion: no blank text, comment, script, unsuitable img, link or
      empty pair; nothing that was not in the parsed chunks apart from renamed links; the
      nesting and the standalone chunks of the renamed, filtered chunks. */
  lemma PreparedClean(s: seq<Token>)
    ensures forall t :: t in Prepared(s) ==> Kept(t) && !(t.Tag? && t.name == "a")
    ensures forall t :: t in Prepared(s) && !(t.Tag? && t.name == "u") ==> t in s
    ensures NoEmptyPair(Prepared(s))
    ensures WellNested(Prepared(s)) <==> WellNested(Renamed(Filtered(s)))
    ensures Where(Prepared(s), Standalone) == Where(Renamed(Filtered(s)), Standalone)
  {
    var f := Filtered(s);
    var r := Renamed(f);
    RenamedKept(f);
    CollapseShrinks(r);
    SubsequenceMembers(Collapse(r), r);
    CollapseFixedPoint(r);
    forall t | t in Prepared(s)
      ensures !(t.Tag? && t.name == "a")
      ensures !(t.Tag? && t.name == "u") ==> t in s
    {
      var k :| 0 <= k < |r| && r[k] == t;
      assert f[k] in f;
    }
  }
}
