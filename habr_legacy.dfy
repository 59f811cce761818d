/** HabrContent.ProcessContent (older revision, the root-level FullContent.cs): the chunks after
    the <div class="txt"> opener up to the first closing div at which the running div count
    since the opener is zero, rendered by the older CombineToHtml. The URL pattern is the one
    the newer revision uses and is modelled once, in HabrUrls. */
module LegacyHabrContent {
  import opened Wrappers
  import opened Html
  import opened CollectionUtils
  import opened Fb2Markup
  import LegacyMarkup
  import HabrContent

  /** The SkipUntil test: an OpenTag chunk (bEndClosure or not) named div whose "class"
      parameter is "txt". */
  predicate IsArticleOpener(c: Token)
  {
    c.Tag? && c.kind != Close && c.name == "div" && "class" in c.params && c.params["class"] == "txt"
  }

  predicate IsDivClose(c: Token)
  {
    c.Tag? && c.kind == Close && c.name == "div"
  }

  /** The summand of one chunk: +1 for an OpenTag named div, -1 for any other div chunk, 0 for
      the rest. */
  function DivDelta(c: Token): int
  {
    if c.Tag? && c.name == "div" then (if c.kind == Close then -1 else 1) else 0
  }

  /** `articleChunks.Take(i).Sum(...)` over the given chunks. */
  function DivSum(s: seq<Token>): int
  {
    if s == [] then 0 else DivSum(s[..|s| - 1]) + DivDelta(s[|s| - 1])
  }

  /** The TakeUntil test at position i of the article body. The closure reads `articleChunks`
      after it has been reassigned to the TakeUntil result itself; the first i chunks of that
      result are the first i chunks of the body whenever the test is asked about chunk i, so the
      body is used here. */
  predicate ClosesArticle(body: seq<Token>, c: Token, i: int)
  {
    IsDivClose(c) && 0 <= i <= |body| && DivSum(body[..i]) == 0
  }

  function ArticleEnd(body: seq<Token>): (Token, int) -> bool
  {
    (c, i) => ClosesArticle(body, c, i)
  }

  /** `chunks.SkipUntil(opener).Skip(1)` */
  function ArticleBody(chunks: seq<Token>): seq<Token>
  {
    var rest := SkipUntil(chunks, IsArticleOpener);
    if rest == [] then [] else rest[1..]
  }

  /** The article chunks ProcessContent renders. */
  function Article(chunks: seq<Token>): seq<Token>
  {
    var body := ArticleBody(chunks);
    TakeUntilIndexed(body, ArticleEnd(body))
  }

  /** A reference definition: walk the body, carrying the div count, and stop at a closing div
      while the count is zero. */
  function DivUntil(b: seq<Token>, count: int): seq<Token>
  {
    if b == [] then []
    else if IsDivClose(b[0]) && count == 0 then []
    else [b[0]] + DivUntil(b[1..], count + DivDelta(b[0]))
  }

  lemma DivSumSnoc(s: seq<Token>, k: nat)
    requires k < |s|
    ensures DivSum(s[..k + 1]) == DivSum(s[..k]) + DivDelta(s[k])
  {
    assert s[..k + 1][..k] == s[..k];
  }

  /** From any position k, the TakeUntil scan of the body collects what DivUntil collects from
      the count of the chunks before k. */
  lemma {:induction false} ArticleEndFrom(body: seq<Token>, k: nat)
    requires k <= |body|
    ensures body[k..FirstIndexFrom(body, ArticleEnd(body), k)] == DivUntil(body[k..], DivSum(body[..k]))
    decreases |body| - k
  {
    var p := ArticleEnd(body);
    if k < |body| {
      var b := body[k..];
      assert b[0] == body[k] && b[1..] == body[k + 1..];
      var closes := IsDivClose(body[k]) && DivSum(body[..k]) == 0;
      assert p(body[k], k) == closes;
      if closes {
        assert FirstIndexFrom(body, p, k) == k;
        assert DivUntil(b, DivSum(body[..k])) == [];
      } else {
        DivSumSnoc(body, k);
        ArticleEndFrom(body, k + 1);
        var f := FirstIndexFrom(body, p, k + 1);
        assert FirstIndexFrom(body, p, k) == f;
        assert DivUntil(b, DivSum(body[..k])) == [body[k]] + DivUntil(body[k + 1..], DivSum(body[..k + 1]));
        assert body[k..f] == [body[k]] + body[k + 1..f];
      }
    } else {
      assert FirstIndexFrom(body, p, k) == k;
    }
  }

  /** The article is the DivUntil walk of the body from a zero count. */
  lemma ArticleIsDivUntil(chunks: seq<Token>)
    ensures Article(chunks) == DivUntil(ArticleBody(chunks), 0)
  {
    var body := ArticleBody(chunks);
    ArticleEndFrom(body, 0);
    assert body[..0] == [];
    assert body[0..] == body;
  }

  predicate IsSelfClosingDiv(c: Token)
  {
    c.Tag? && c.kind == SelfClose && c.name == "div"
  }

  /** Without self-closing divs, the older count from `count` is the newer balance from
      count + 1: both move by one on each div and stop at the closer that balances the opener. */
  lemma {:induction false} DivUntilIsUntilClosed(b: seq<Token>, count: int)
    requires count >= 0
    requires forall i :: 0 <= i < |b| ==> !IsSelfClosingDiv(b[i])
    ensures DivUntil(b, count) == UntilClosed(b, "div", count + 1)
    decreases |b|
  {
    if b != [] {
      var t := b[0];
      assert !IsSelfClosingDiv(t);
      assert Delta(t, "div") == DivDelta(t);
      if !(IsDivClose(t) && count == 0) {
        assert forall i :: 0 <= i < |b[1..]| ==> b[1..][i] == b[i + 1];
        DivUntilIsUntilClosed(b[1..], count + DivDelta(t));
      }
    }
  }

  /** SkipUntil stops at the same place for two tests that agree on every element. */
  lemma SkipUntilAgrees<T>(s: seq<T>, p: T -> bool, q: T -> bool)
    requires forall i :: 0 <= i < |s| ==> p(s[i]) == q(s[i])
    ensures SkipUntil(s, p) == SkipUntil(s, q)
  {
  }

  /** Away from self-closing divs, the older opener test is the newer IsOpenTag. */
  lemma OpenerAgrees(c: Token)
    requires !IsSelfClosingDiv(c)
    ensures IsArticleOpener(c) == OpenerTest("div", HabrContent.ArticleParameters)(c)
  {
    var params := HabrContent.ArticleParameters;
    assert |params| == 1 && params[0].0 == "class" && params[0].1 == "txt";
    if c.Tag? {
      assert ParameterMatches(c, "class", "txt") <==> "class" in c.params && c.params["class"] == "txt";
    }
  }

  /** Away from self-closing divs, both revisions find the same opener. */
  lemma SameOpener(chunks: seq<Token>)
    requires forall i :: 0 <= i < |chunks| ==> !IsSelfClosingDiv(chunks[i])
    ensures SkipUntil(chunks, IsArticleOpener) == SkipUntil(chunks, OpenerTest("div", HabrContent.ArticleParameters))
  {
    forall i | 0 <= i < |chunks|
      ensures IsArticleOpener(chunks[i]) == OpenerTest("div", HabrContent.ArticleParameters)(chunks[i])
    {
      OpenerAgrees(chunks[i]);
    }
    SkipUntilAgrees(chunks, IsArticleOpener, OpenerTest("div", HabrContent.ArticleParameters));
  }

  lemma BodyKeepsNoSelfClosing(chunks: seq<Token>)
    requires forall i :: 0 <= i < |chunks| ==> !IsSelfClosingDiv(chunks[i])
    ensures forall i :: 0 <= i < |ArticleBody(chunks)| ==> !IsSelfClosingDiv(ArticleBody(chunks)[i])
  {
    var rest := SkipUntil(chunks, IsArticleOpener);
    var body := ArticleBody(chunks);
    forall i | 0 <= i < |body|
      ensures !IsSelfClosingDiv(body[i])
    {
      assert body[i] == rest[1 + i] == chunks[|chunks| - |rest| + 1 + i];
    }
  }

  /** Without self-closing divs, the article is the newer balance walk of the body from 1. */
  lemma ArticleIsUntilClosed(chunks: seq<Token>)
    requires forall i :: 0 <= i < |chunks| ==> !IsSelfClosingDiv(chunks[i])
    ensures Article(chunks) == UntilClosed(ArticleBody(chunks), "div", 1)
  {
    ArticleIsDivUntil(chunks);
    BodyKeepsNoSelfClosing(chunks);
    DivUntilIsUntilClosed(ArticleBody(chunks), 0);
  }

  /** On pages without a self-closing div, both revisions extract the same article: the older
      SkipUntil/TakeUntil/Sum pipeline yields exactly what the newer TagContent yields. */
  lemma ArticleAgreesWithTagContent(chunks: seq<Token>)
    requires forall i :: 0 <= i < |chunks| ==> !IsSelfClosingDiv(chunks[i])
    ensures Article(chunks) == Enclosed(chunks, "div", HabrContent.ArticleParameters)
  {
    SameOpener(chunks);
    EnclosedOfBody(chunks);
    ArticleIsUntilClosed(chunks);
  }

  /** The newer extraction, once it finds the same opener, balances the older body from 1. */
  lemma EnclosedOfBody(chunks: seq<Token>)
    requires SkipUntil(chunks, IsArticleOpener) == SkipUntil(chunks, OpenerTest("div", HabrContent.ArticleParameters))
    ensures Enclosed(chunks, "div", HabrContent.ArticleParameters) == UntilClosed(ArticleBody(chunks), "div", 1)
  {
  }

  /** Where the revisions part: an opener written <div class="txt"/> starts the older article,
      while the newer IsOpenTag asks for an opening tag without bEndClosure. */
  lemma SelfClosingOpener(x: Token)
    requires !x.Tag?
    ensures var opener := Tag("div", SelfClose, map["class" := "txt"]);
      Article([opener, x]) == [x] && Enclosed([opener, x], "div", HabrContent.ArticleParameters) == []
  {
    var opener := Tag("div", SelfClose, map["class" := "txt"]);
    var s := [opener, x];
    assert IsArticleOpener(s[0]);
    var rest := SkipUntil(s, IsArticleOpener);
    assert |rest| == 2;
    assert ArticleBody(s) == [x];
    assert DivUntil([x], 0) == [x] + DivUntil([], 0);
    ArticleIsDivUntil(s);
    var newer := SkipUntil(s, OpenerTest("div", HabrContent.ArticleParameters));
    assert !OpenerTest("div", HabrContent.ArticleParameters)(s[0]);
    assert !OpenerTest("div", HabrContent.ArticleParameters)(s[1]);
    assert newer == [];
  }

  /** HabrContent.ProcessContent (older revision). A null content throws; a page the parser
      rejects is a null chunk list, on which SkipUntil's SkipWhile throws for its "source". */
  method ProcessContent(content: Option<string>, parse: string -> Option<seq<Token>>, rt: Runtime,
                        generate: Token -> string)
    returns (r: Result<string>)
    ensures content.None? ==> r == Failure(ArgumentNull("content"))
    ensures content.Some? && parse(content.value).None? ==> r == Failure(ArgumentNull("source"))
    ensures content.Some? && parse(content.value).Some? ==>
      r == Success(LegacyMarkup.LegacyHtml(Article(parse(content.value).value), rt, generate))
  {
    if content.None? {
      return Failure(ArgumentNull("content"));
    }
    var chunks := parse(content.value);
    if chunks.None? {
      return Failure(ArgumentNull("source"));
    }
    var articleChunks := Article(chunks.value);
    var html := LegacyMarkup.CombineToHtml(articleChunks, rt, generate);
    return Success(html);
  }
}
