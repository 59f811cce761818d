/** Image-reference rewriting (ContentProcess.ProcessHtmlImages, both revisions). The regular
    expression that finds the URLs of img src attributes is not modelled: the caller supplies
    its matches as spans of the content, in document order and not overlapping. Downloading
    and recoding an image is an oracle that may fail. The static counter that numbers the
    images, and the sequence of URLs handed to the downloader, are fields of an
    `ImageExtractor` object. */
module Images {
  import opened Wrappers
  import opened Strings
  import opened CollectionUtils

  /** System.Int32 */
  newtype Int32 = x: int | -0x8000_0000 <= x <= 0x7FFF_FFFF

  /** Interlocked.Increment: the incremented value, wrapping from Int32.MaxValue to
      Int32.MinValue. */
  function Increment(n: Int32): (r: Int32)
    ensures n as int < Int32Max ==> r as int == n as int + 1
    ensures n as int == Int32Max ==> r as int == Int32Min
  {
    if n as int == Int32Max then Int32Min as Int32 else (n as int + 1) as Int32
  }

  /** The counter after k increments. */
  function Advance(n: Int32, k: nat): Int32
  {
    if k == 0 then n else Increment(Advance(n, k - 1))
  }

  /** Without overflow, k increments add k. */
  lemma {:induction false} AdvanceNoWrap(n: Int32, k: nat)
    requires n as int + k <= Int32Max
    ensures Advance(n, k) as int == n as int + k
  {
    if k > 0 {
      AdvanceNoWrap(n, k - 1);
    }
  }

  /** k increments after a increments are a + k increments. */
  lemma {:induction false} AdvanceAdd(n: Int32, a: nat, k: nat)
    ensures Advance(Advance(n, a), k) == Advance(n, a + k)
  {
    if k > 0 {
      AdvanceAdd(n, a, k - 1);
    }
  }

  /** string.Format("{0}.jpg", n) */
  function ImageName(n: Int32): (r: string)
    ensures EndsWith(r, ".jpg")
  {
    var r := IntToString(n as int) + ".jpg";
    assert r[|r| - 4..] == ".jpg";
    r
  }

  lemma ImageNameInjective(a: Int32, b: Int32)
    requires ImageName(a) == ImageName(b)
    ensures a == b
  {
    var s, t := IntToString(a as int), IntToString(b as int);
    assert s == ImageName(a)[..|ImageName(a)| - 4];
    assert t == ImageName(b)[..|ImageName(b)| - 4];
    IntToStringInjective(a as int, b as int);
  }

  /** A match of the URL regular expression: Match.Index and Match.Length. */
  datatype Span = Span(start: nat, length: nat)

  function End(p: Span): nat
  {
    p.start + p.length
  }

  /** Every span lies inside the text. */
  predicate Fits(text: string, spans: seq<Span>)
  {
    forall k :: 0 <= k < |spans| ==> End(spans[k]) <= |text|
  }

  /** The spans come in document order and do not overlap, as regular-expression matches do. */
  predicate Ordered(spans: seq<Span>)
  {
    forall i, j :: 0 <= i < j < |spans| ==> End(spans[i]) <= spans[j].start
  }

  /** Match.Value */
  function UrlOf(text: string, p: Span): string
    requires End(p) <= |text|
  {
    text[p.start..End(p)]
  }

  function Urls(text: string, spans: seq<Span>): (r: seq<string>)
    requires Fits(text, spans)
    ensures |r| == |spans|
    ensures forall k :: 0 <= k < |spans| ==> r[k] == UrlOf(text, spans[k])
  {
    seq(|spans|, k requires 0 <= k < |spans| => UrlOf(text, spans[k]))
  }

  /** BadImageStrings of the newer revision. */
  const BadImageStrings: seq<string> := ["doubleclick.net/"]

  /** BadImageStrings of the older revision. */
  const LegacyBadImageStrings: seq<string> := ["doubleclick.net/", "feeds.feedburner.com/"]

  /** BadImageStrings.Any(bad => url.Contains(bad)) */
  predicate Blocked(url: string, bad: seq<string>)
  {
    exists k :: 0 <= k < |bad| && Contains(url, bad[k])
  }

  /** The `where` clause over the matches: exactly the spans whose URL is not blocked, in
      document order. */
  function Unblocked(text: string, spans: seq<Span>, bad: seq<string>): (r: seq<Span>)
    requires Fits(text, spans)
    ensures Fits(text, r)
    ensures forall p :: p in r ==> p in spans && !Blocked(UrlOf(text, p), bad)
    ensures forall p :: p in spans && !Blocked(UrlOf(text, p), bad) ==> p in r
    ensures Ordered(spans) ==> Ordered(r)
  {
    if spans == [] then []
    else
      var rest := Unblocked(text, spans[1..], bad);
      OrderedTail(spans);
      if Blocked(UrlOf(text, spans[0]), bad) then rest
      else
        OrderedCons(spans[0], spans[1..], rest);
        [spans[0]] + rest
  }

  lemma OrderedTail(spans: seq<Span>)
    requires spans != []
    ensures Ordered(spans) ==> Ordered(spans[1..])
  {
    var tail := spans[1..];
    if Ordered(spans) {
      forall i, j | 0 <= i < j < |tail| ensures End(tail[i]) <= tail[j].start {
        assert tail[i] == spans[i + 1] && tail[j] == spans[j + 1];
      }
    }
  }

  /** A span that precedes every span of an ordered sequence can be put in front of any
      ordered subset of it. */
  lemma OrderedCons(p: Span, spans: seq<Span>, sub: seq<Span>)
    requires forall q :: q in sub ==> q in spans
    ensures Ordered([p] + spans) && Ordered(sub) ==> Ordered([p] + sub)
  {
    if !(Ordered([p] + spans) && Ordered(sub)) {
      return;
    }
    var all := [p] + spans;
    var r := [p] + sub;
    forall j | 0 < j < |r| ensures End(p) <= r[j].start {
      var q := sub[j - 1];
      assert q in spans;
      var k :| 0 <= k < |spans| && spans[k] == q;
      assert all[0] == p && all[k + 1] == q;
    }
    forall i, j | 0 <= i < j < |r| ensures End(r[i]) <= r[j].start {
      if i > 0 {
        assert r[i] == sub[i - 1] && r[j] == sub[j - 1];
      }
    }
  }

  // ---------------------------------------------------------------------------------------
  // What the reverse loop computes, stated in document order
  // ---------------------------------------------------------------------------------------

  /** KeyValuePair<string, T>: an image's name and its data. */
  datatype Binary<T> = Binary(name: string, data: T)

  /** The rewritten content and the images, as the method hands them back. */
  datatype Processed<T> = Processed(content: string, images: seq<Binary<T>>)

  /** How many of the URLs from position j on download successfully. */
  function Successes<T>(urls: seq<string>, fetch: string -> Option<T>, j: nat): (c: nat)
    requires j <= |urls|
    ensures c <= |urls| - j
    decreases |urls| - j
  {
    if j == |urls| then 0 else (if fetch(urls[j]).Some? then 1 else 0) + Successes(urls, fetch, j + 1)
  }

  /** The text that ends up in place of URL k: a fresh name when the download succeeds (the
      loop reaches URL k after the URLs behind it, so the counter has moved once for each of
      those and once for k), the URL itself otherwise. */
  function Replacement<T>(urls: seq<string>, fetch: string -> Option<T>, n0: Int32, k: nat): string
    requires k < |urls|
  {
    if fetch(urls[k]).Some? then ImageName(Advance(n0, Successes(urls, fetch, k))) else urls[k]
  }

  function Replacements<T>(urls: seq<string>, fetch: string -> Option<T>, n0: Int32): (r: seq<string>)
    ensures |r| == |urls|
    ensures forall k :: 0 <= k < |urls| ==> r[k] == Replacement(urls, fetch, n0, k)
  {
    seq(|urls|, k requires 0 <= k < |urls| => Replacement(urls, fetch, n0, k))
  }

  /** The end of the text between span j - 1 and span j. */
  function GapEnd(text: string, spans: seq<Span>, j: nat): (g: nat)
    requires Fits(text, spans)
    ensures g <= |text|
    ensures j < |spans| ==> g == spans[j].start
  {
    if j < |spans| then spans[j].start else |text|
  }

  /** Spans j.. of the text, each replaced by its replacement, with the text between and
      after them as it is. */
  function SplicedFrom(text: string, spans: seq<Span>, repl: seq<string>, j: nat): string
    requires Fits(text, spans) && Ordered(spans) && |repl| == |spans| && j <= |spans|
    decreases |spans| - j
  {
    if j == |spans| then ""
    else
      repl[j] + text[End(spans[j])..GapEnd(text, spans, j + 1)] + SplicedFrom(text, spans, repl, j + 1)
  }

  /** The text with spans j.. replaced: the loop's content once it has handled them. */
  function Partial(text: string, spans: seq<Span>, repl: seq<string>, j: nat): string
    requires Fits(text, spans) && Ordered(spans) && |repl| == |spans| && j <= |spans|
  {
    text[..GapEnd(text, spans, j)] + SplicedFrom(text, spans, repl, j)
  }

  /** The text with every span replaced: what comes before, between and after the spans is
      kept. */
  function Spliced(text: string, spans: seq<Span>, repl: seq<string>): string
    requires Fits(text, spans) && Ordered(spans) && |repl| == |spans|
  {
    Partial(text, spans, repl, 0)
  }

  /** The images of the URLs from position j on, in the order the loop adds them: last URL
      first. */
  function ImagesFrom<T>(urls: seq<string>, fetch: string -> Option<T>, n0: Int32, j: nat): seq<Binary<T>>
    requires j <= |urls|
    decreases |urls| - j
  {
    if j == |urls| then []
    else
      ImagesFrom(urls, fetch, n0, j + 1) +
      (if fetch(urls[j]).Some? then [Binary(Replacement(urls, fetch, n0, j), fetch(urls[j]).value)] else [])
  }

  /** The outcome of rewriting the given spans, starting from counter n0. */
  function Rewritten<T>(text: string, spans: seq<Span>, fetch: string -> Option<T>, n0: Int32): Processed<T>
    requires Fits(text, spans) && Ordered(spans)
  {
    var urls := Urls(text, spans);
    Processed(Spliced(text, spans, Replacements(urls, fetch, n0)), ImagesFrom(urls, fetch, n0, 0))
  }

  /** Replacing span j of the text, whose spans after j are already replaced, splices in place:
      the characters before span j are still the original ones, so its offsets are valid. */
  lemma SpliceStep(text: string, spans: seq<Span>, repl: seq<string>, j: nat)
    requires Fits(text, spans) && Ordered(spans) && |repl| == |spans| && j < |spans|
    ensures var x := Partial(text, spans, repl, j + 1);
      End(spans[j]) <= |x| &&
      x[spans[j].start..End(spans[j])] == UrlOf(text, spans[j]) &&
      Partial(text, spans, repl, j) == x[..spans[j].start] + repl[j] + x[End(spans[j])..]
    ensures repl[j] == UrlOf(text, spans[j]) ==> Partial(text, spans, repl, j) == Partial(text, spans, repl, j + 1)
  {
    var s, e, g := spans[j].start, End(spans[j]), GapEnd(text, spans, j + 1);
    var tail := SplicedFrom(text, spans, repl, j + 1);
    SpliceUnfold(text, spans, repl, j);
    CutAround(text, tail, repl[j], s, e, g);
  }

  /** One unfolding of Partial at span j. */
  lemma SpliceUnfold(text: string, spans: seq<Span>, repl: seq<string>, j: nat)
    requires Fits(text, spans) && Ordered(spans) && |repl| == |spans| && j < |spans|
    ensures End(spans[j]) <= GapEnd(text, spans, j + 1)
    ensures Partial(text, spans, repl, j + 1) ==
      text[..GapEnd(text, spans, j + 1)] + SplicedFrom(text, spans, repl, j + 1)
    ensures Partial(text, spans, repl, j) ==
      text[..spans[j].start] + (repl[j] + text[End(spans[j])..GapEnd(text, spans, j + 1)] + SplicedFrom(text, spans, repl, j + 1))
  {
  }

  /** Cutting the piece s..e out of text[..g] + tail, and putting r in its place. */
  lemma CutAround(text: string, tail: string, r: string, s: nat, e: nat, g: nat)
    requires s <= e <= g <= |text|
    ensures var x := text[..g] + tail;
      e <= |x| && x[s..e] == text[s..e] &&
      text[..s] + (r + text[e..g] + tail) == x[..s] + r + x[e..] &&
      x[..s] + x[s..e] + x[e..] == x
  {
    var x := text[..g] + tail;
    assert x[..s] == text[..s];
    assert x[s..e] == text[s..e];
    assert x[e..] == text[e..g] + tail;
  }

  /** How handling URL j moves the counter and the image list. */
  lemma CountStep<T>(urls: seq<string>, fetch: string -> Option<T>, n0: Int32, j: nat)
    requires j < |urls|
    ensures fetch(urls[j]).None? ==>
      Successes(urls, fetch, j) == Successes(urls, fetch, j + 1) &&
      ImagesFrom(urls, fetch, n0, j) == ImagesFrom(urls, fetch, n0, j + 1)
    ensures fetch(urls[j]).Some? ==>
      Advance(n0, Successes(urls, fetch, j)) == Increment(Advance(n0, Successes(urls, fetch, j + 1))) &&
      Replacement(urls, fetch, n0, j) == ImageName(Advance(n0, Successes(urls, fetch, j))) &&
      ImagesFrom(urls, fetch, n0, j) ==
        ImagesFrom(urls, fetch, n0, j + 1) + [Binary(Replacement(urls, fetch, n0, j), fetch(urls[j]).value)]
  {
    if fetch(urls[j]).None? {
      assert ImagesFrom(urls, fetch, n0, j + 1) + [] == ImagesFrom(urls, fetch, n0, j + 1);
    }
  }

  /** What handling span j does to the text, the counter and the image list, in the terms the
      loop uses: the URL is still in place, and a successful download puts the next name there. */
  lemma RewriteStep<T>(text: string, spans: seq<Span>, fetch: string -> Option<T>, n0: Int32, j: nat)
    requires Fits(text, spans) && Ordered(spans) && j < |spans|
    ensures var urls := Urls(text, spans);
      var repl := Replacements(urls, fetch, n0);
      var x := Partial(text, spans, repl, j + 1);
      var p := spans[j];
      End(p) <= |x| && x[p.start..End(p)] == urls[j] &&
      (fetch(urls[j]).None? ==>
        Partial(text, spans, repl, j) == x &&
        ImagesFrom(urls, fetch, n0, j) == ImagesFrom(urls, fetch, n0, j + 1) &&
        Successes(urls, fetch, j) == Successes(urls, fetch, j + 1)) &&
      (fetch(urls[j]).Some? ==>
        Advance(n0, Successes(urls, fetch, j)) == Increment(Advance(n0, Successes(urls, fetch, j + 1))) &&
        Partial(text, spans, repl, j) ==
          x[..p.start] + ImageName(Advance(n0, Successes(urls, fetch, j))) + x[End(p)..] &&
        ImagesFrom(urls, fetch, n0, j) == ImagesFrom(urls, fetch, n0, j + 1) +
          [Binary(ImageName(Advance(n0, Successes(urls, fetch, j))), fetch(urls[j]).value)])
  {
    var urls := Urls(text, spans);
    var repl := Replacements(urls, fetch, n0);
    SpliceStep(text, spans, repl, j);
    CountStep(urls, fetch, n0, j);
  }

  // ---------------------------------------------------------------------------------------
  // The extractor
  // ---------------------------------------------------------------------------------------

  type Bytes = seq<bv8>

  /** The state ProcessHtmlImages touches: the static uniqueImgNum counter, and the URLs handed
      to the downloader so far. */
  class ImageExtractor {
    var uniqueImgNum: Int32
    var downloads: seq<string>

    constructor ()
      ensures uniqueImgNum == 0 && downloads == []
    {
      uniqueImgNum := 0;
      downloads := [];
    }

    /** The foreach over positions.Reverse(): each URL is read at its original offset, handed
        to the downloader, and on success replaced by the next image name. */
    method RewriteSpans<T>(text: string, spans: seq<Span>, fetch: string -> Option<T>)
      returns (content: string, images: seq<Binary<T>>)
      requires Fits(text, spans) && Ordered(spans)
      modifies this
      ensures Processed(content, images) == Rewritten(text, spans, fetch, old(uniqueImgNum))
      ensures uniqueImgNum == Advance(old(uniqueImgNum), Successes(Urls(text, spans), fetch, 0))
      ensures downloads == old(downloads) + Reverse(Urls(text, spans))
    {
      ghost var urls := Urls(text, spans);
      ghost var n0 := uniqueImgNum;
      ghost var repl := Replacements(urls, fetch, n0);
      content := text;
      images := [];
      var j := |spans|;
      assert text[..|text|] == text;
      while j > 0
        invariant 0 <= j <= |spans|
        invariant content == Partial(text, spans, repl, j)
        invariant images == ImagesFrom(urls, fetch, n0, j)
        invariant uniqueImgNum == Advance(n0, Successes(urls, fetch, j))
        invariant downloads == old(downloads) + Reverse(urls[j..])
      {
        j := j - 1;
        var position := spans[j];
        RewriteStep(text, spans, fetch, n0, j);
        ReverseStep(urls, j);
        var url := content[position.start..position.start + position.length];
        downloads := downloads + [url];
        var image := fetch(url);
        if image.Some? {
          uniqueImgNum := Increment(uniqueImgNum);
          var imageName := ImageName(uniqueImgNum);
          images := images + [Binary(imageName, image.value)];
          content := content[..position.start] + imageName + content[position.start + position.length..];
        }
      }
    }

    /** ContentProcess.ProcessHtmlImages (newer revision): ArgumentNullException for a null
        content; otherwise the URLs that contain no blocked string are rewritten, and a URL
        whose download or recode throws is skipped. */
    method ProcessHtmlImages(htmlContent: Option<string>, matches: seq<Span>, download: string -> Option<Bytes>)
      returns (r: Result<Processed<Bytes>>)
      requires htmlContent.Some? ==> Fits(htmlContent.value, matches) && Ordered(matches)
      modifies this
      ensures htmlContent.None? ==> r == Failure(ArgumentNull("htmlContent"))
      ensures htmlContent.None? ==> uniqueImgNum == old(uniqueImgNum) && downloads == old(downloads)
      ensures htmlContent.Some? ==>
        var kept := Unblocked(htmlContent.value, matches, BadImageStrings);
        r == Success(Rewritten(htmlContent.value, kept, download, old(uniqueImgNum))) &&
        uniqueImgNum == Advance(old(uniqueImgNum), |r.value.images|) &&
        downloads == old(downloads) + Reverse(Urls(htmlContent.value, kept))
    {
      if htmlContent.None? {
        return Failure(ArgumentNull("htmlContent"));
      }
      var text := htmlContent.value;
      var positions := Unblocked(text, matches, BadImageStrings);
      var content, images := RewriteSpans(text, positions, download);
      ImageNamesSequential(Urls(text, positions), download, old(uniqueImgNum), 0);
      return Success(Processed(content, images));
    }

    /** ContentProcess.ProcessHtmlImages (older revision): no null check of its own, so
        Regex.Matches throws ArgumentNullException("input"); two blocked strings; a URL whose
        recode returns null is skipped, and an image is kept as its base64 text. */
    method ProcessHtmlImagesLegacy(htmlContent: Option<string>, matches: seq<Span>,
                                   recode: string -> Option<Bytes>, toBase64: Bytes -> string)
      returns (r: Result<Processed<string>>)
      requires htmlContent.Some? ==> Fits(htmlContent.value, matches) && Ordered(matches)
      modifies this
      ensures htmlContent.None? ==> r == Failure(ArgumentNull("input"))
      ensures htmlContent.None? ==> uniqueImgNum == old(uniqueImgNum) && downloads == old(downloads)
      ensures htmlContent.Some? ==>
        var kept := Unblocked(htmlContent.value, matches, LegacyBadImageStrings);
        r == Success(Rewritten(htmlContent.value, kept, Base64Fetch(recode, toBase64), old(uniqueImgNum))) &&
        uniqueImgNum == Advance(old(uniqueImgNum), |r.value.images|) &&
        downloads == old(downloads) + Reverse(Urls(htmlContent.value, kept))
    {
      if htmlContent.None? {
        return Failure(ArgumentNull("input"));
      }
      var text := htmlContent.value;
      var positions := Unblocked(text, matches, LegacyBadImageStrings);
      var content, images := RewriteSpans(text, positions, Base64Fetch(recode, toBase64));
      ImageNamesSequential(Urls(text, positions), Base64Fetch(recode, toBase64), old(uniqueImgNum), 0);
      return Success(Processed(content, images));
    }
  }

  /** Utils.RecodeImage followed by Convert.ToBase64String. */
  function Base64Fetch(recode: string -> Option<Bytes>, toBase64: Bytes -> string): (f: string -> Option<string>)
    ensures forall url :: f(url).Some? <==> recode(url).Some?
  {
    url => if recode(url).Some? then Some(toBase64(recode(url).value)) else None
  }

  // ---------------------------------------------------------------------------------------
  // Properties
  // ---------------------------------------------------------------------------------------

  /** One image per successful download; the i-th image added is named after the counter
      value i + 1 steps on. */
  lemma {:induction false} ImageNamesSequential<T>(urls: seq<string>, fetch: string -> Option<T>, n0: Int32, j: nat)
    requires j <= |urls|
    ensures |ImagesFrom(urls, fetch, n0, j)| == Successes(urls, fetch, j)
    ensures forall i :: 0 <= i < |ImagesFrom(urls, fetch, n0, j)| ==>
      ImagesFrom(urls, fetch, n0, j)[i].name == ImageName(Advance(n0, i + 1))
    decreases |urls| - j
  {
    if j < |urls| {
      ImageNamesSequential(urls, fetch, n0, j + 1);
      var rest := ImagesFrom(urls, fetch, n0, j + 1);
      var all := ImagesFrom(urls, fetch, n0, j);
      CountStep(urls, fetch, n0, j);
      if fetch(urls[j]).Some? {
        var last := Binary(Replacement(urls, fetch, n0, j), fetch(urls[j]).value);
        assert all == rest + [last];
        assert Successes(urls, fetch, j) == |rest| + 1;
        assert last.name == ImageName(Advance(n0, |rest| + 1));
        NamedOnward(rest, last, n0);
      } else {
        assert all == rest;
      }
    }
  }

  /** An image named after the next counter value extends a sequentially named list. */
  lemma NamedOnward<T>(rest: seq<Binary<T>>, last: Binary<T>, n0: Int32)
    requires forall i :: 0 <= i < |rest| ==> rest[i].name == ImageName(Advance(n0, i + 1))
    requires last.name == ImageName(Advance(n0, |rest| + 1))
    ensures forall i :: 0 <= i < |rest| + 1 ==> (rest + [last])[i].name == ImageName(Advance(n0, i + 1))
  {
    forall i | 0 <= i < |rest| + 1 ensures (rest + [last])[i].name == ImageName(Advance(n0, i + 1)) {
      if i < |rest| {
        assert (rest + [last])[i] == rest[i];
      }
    }
  }

  /** Unless the counter overflows, the names handed out are pairwise distinct. */
  lemma ImageNamesDistinct<T>(text: string, spans: seq<Span>, fetch: string -> Option<T>, n0: Int32)
    requires Fits(text, spans) && Ordered(spans)
    requires n0 as int + |spans| <= Int32Max
    ensures var images := Rewritten(text, spans, fetch, n0).images;
      forall a, b :: 0 <= a < b < |images| ==> images[a].name != images[b].name
  {
    var urls := Urls(text, spans);
    var images := ImagesFrom(urls, fetch, n0, 0);
    ImageNamesSequential(urls, fetch, n0, 0);
    forall a, b | 0 <= a < b < |images| ensures images[a].name != images[b].name {
      AdvanceNoWrap(n0, a + 1);
      AdvanceNoWrap(n0, b + 1);
      if images[a].name == images[b].name {
        ImageNameInjective(Advance(n0, a + 1), Advance(n0, b + 1));
      }
    }
  }

  /** Putting every URL back where it was gives the original text. */
  lemma {:induction false} SplicedOriginals(text: string, spans: seq<Span>, repl: seq<string>, j: nat)
    requires Fits(text, spans) && Ordered(spans) && |repl| == |spans| && j <= |spans|
    requires forall k :: j <= k < |spans| ==> repl[k] == UrlOf(text, spans[k])
    ensures Partial(text, spans, repl, j) == text
    decreases |spans| - j
  {
    if j == |spans| {
      PartialAtEnd(text, spans, repl);
    } else {
      assert repl[j] == UrlOf(text, spans[j]);
      SpliceStep(text, spans, repl, j);
      SplicedOriginals(text, spans, repl, j + 1);
    }
  }

  /** Past the last span nothing is replaced. */
  lemma PartialAtEnd(text: string, spans: seq<Span>, repl: seq<string>)
    requires Fits(text, spans) && Ordered(spans) && |repl| == |spans|
    ensures Partial(text, spans, repl, |spans|) == text
  {
    assert SplicedFrom(text, spans, repl, |spans|) == "";
    assert text[..|text|] + "" == text;
  }

  /** When no download succeeds, the content is unchanged and no image is returned. */
  lemma NothingDownloaded<T>(text: string, spans: seq<Span>, fetch: string -> Option<T>, n0: Int32)
    requires Fits(text, spans) && Ordered(spans)
    requires forall k :: 0 <= k < |spans| ==> fetch(UrlOf(text, spans[k])).None?
    ensures Rewritten(text, spans, fetch, n0) == Processed(text, [])
  {
    var urls := Urls(text, spans);
    SplicedOriginals(text, spans, Replacements(urls, fetch, n0), 0);
    ImageNamesSequential(urls, fetch, n0, 0);
    NoSuccesses(urls, fetch, 0);
  }

  lemma {:induction false} NoSuccesses<T>(urls: seq<string>, fetch: string -> Option<T>, j: nat)
    requires j <= |urls|
    requires forall k :: 0 <= k < |urls| ==> fetch(urls[k]).None?
    ensures Successes(urls, fetch, j) == 0
    decreases |urls| - j
  {
    if j < |urls| {
      NoSuccesses(urls, fetch, j + 1);
    }
  }

  /** No URL that holds a blocked string is downloaded or rewritten: the spans handed on are
      exactly the matches whose URL is not blocked. */
  lemma BlockedNeverDownloaded(text: string, matches: seq<Span>, bad: seq<string>)
    requires Fits(text, matches)
    ensures forall u :: u in Urls(text, Unblocked(text, matches, bad)) ==> !Blocked(u, bad)
  {
    var kept := Unblocked(text, matches, bad);
    forall u | u in Urls(text, kept) ensures !Blocked(u, bad) {
      var k :| 0 <= k < |kept| && Urls(text, kept)[k] == u;
      assert kept[k] in kept;
    }
  }

  /** The newer revision blocks only doubleclick.net; the older one also feeds.feedburner.com. */
  lemma BlockedStrings(url: string)
    ensures Blocked(url, BadImageStrings) <==> Contains(url, "doubleclick.net/")
    ensures Blocked(url, LegacyBadImageStrings) <==>
      Contains(url, "doubleclick.net/") || Contains(url, "feeds.feedburner.com/")
  {
    if Contains(url, "doubleclick.net/") {
      assert Contains(url, BadImageStrings[0]);
      assert Contains(url, LegacyBadImageStrings[0]);
    }
    if Contains(url, "feeds.feedburner.com/") {
      assert Contains(url, LegacyBadImageStrings[1]);
    }
  }

  /** One image whose download succeeds, with the counter at 0: its URL becomes "1.jpg". */
  lemma OneImageExample(data: Bytes)
    ensures var text := "<img src=\"http://x/a.png\">";
      var fetch := (url: string) => Some(data);
      Rewritten(text, [Span(10, 14)], fetch, 0) == Processed("<img src=\"1.jpg\">", [Binary("1.jpg", data)])
  {
    var text := "<img src=\"http://x/a.png\">";
    var fetch := (url: string) => Some(data);
    var spans := [Span(10, 14)];
    assert Fits(text, spans);
    var urls := Urls(text, spans);
    assert Successes(urls, fetch, 1) == 0;
    assert Successes(urls, fetch, 0) == 1;
    assert Advance(0, 1) == 1;
    assert ImageName(1) == "1.jpg";
    assert SplicedFrom(text, spans, Replacements(urls, fetch, 0), 1) == "";
    assert text[24..26] == "\">";
  }
}
