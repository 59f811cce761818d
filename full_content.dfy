/** FullContent (newer revision, ContentProcess/FullContent.cs): a registry of article
    extractors. Exists asks whether exactly one of them accepts a URL; Get picks that one,
    rewrites the URL, fetches the page and processes it, turning every failure on the way into
    a null result. The page fetch is a parameter: None stands for a fetch that throws. */
module FullContent {
  import opened Wrappers
  import opened Html
  import opened CollectionUtils
  import HabrUrls
  import HabrContent

  /** The implementations of FullContent; the registry holds one HabrContent. */
  datatype Extractor = Habr

  const Instances: seq<Extractor> := [Habr]

  /** instance.IsMyUrl(url) for a non-null url. */
  predicate Accepts(e: Extractor, url: string)
  {
    match e
    case Habr => HabrUrls.IsMyUrl(Some(url)) == Success(true)
  }

  /** The registered implementations accepting the url, in registry order. */
  function Matching(url: string): seq<Extractor>
  {
    Where(Instances, e => Accepts(e, url))
  }

  /** With one registered implementation, some implementation accepts a url exactly when the
      Habr URL pattern matches it, and then exactly one does. */
  lemma MatchingHabr(url: string)
    ensures |Matching(url)| == 1 <==> HabrUrls.UrlNumber(url).Some?
    ensures |Matching(url)| == 1 ==> Matching(url)[0] == Habr
  {
    var m := Matching(url);
    assert Instances[0] == Habr;
    if HabrUrls.UrlNumber(url).Some? {
      assert Habr in m;
    }
  }

  /** FullContent.Exists: a null url is not supported (no exception); otherwise exactly one
      implementation must accept it. */
  function Exists(url: Option<string>): (r: bool)
    ensures r <==> url.Some? && HabrUrls.UrlNumber(url.value).Some?
  {
    if url.None? then false
    else
      MatchingHabr(url.value);
      |Matching(url.value)| == 1
  }

  /** Instances.Single(i => i.IsMyUrl(url)): the one accepting implementation, or the
      InvalidOperationException Single throws for none or several. */
  function Single(url: string): (r: Result<Extractor>)
    ensures r.Success? <==> Exists(Some(url))
    ensures r.Failure? ==> r.error == InvalidOperation
    ensures r.Success? ==> Accepts(r.value, url)
  {
    var m := Matching(url);
    MatchingHabr(url);
    if |m| == 1 then Success(m[0]) else Failure(InvalidOperation)
  }

  /** instance.ProcessUrl(url) for a non-null url. */
  function ProcessUrlOf(e: Extractor, url: string): string
  {
    match e
    case Habr => HabrUrls.Canonicalised(url)
  }

  /** What the try block of Get yields for the fetched page: the processed content, or null
      when the fetch or the processing throws. */
  function Processed(page: Option<string>, parse: string -> Option<seq<Token>>,
                     before: (string, string) -> string, html: Token -> string): Option<string>
  {
    if page.None? || parse(page.value).None? then None
    else Some(HabrContent.CombineToHtml(HabrContent.ResultChunks(parse(page.value).value, before), html))
  }

  /** FullContent.Get. A null url throws, and so does Single when Exists(url) is false; after
      that nothing escapes: a failed fetch or a failed ProcessContent is a null result. The url
      goes through ProcessUrl twice, which fetches the canonical mobile address once. */
  method Get(url: Option<string>, fetch: string -> Option<string>, parse: string -> Option<seq<Token>>,
             before: (string, string) -> string, html: Token -> string)
    returns (r: Result<Option<string>>)
    ensures url.None? ==> r == Failure(ArgumentNull("url"))
    ensures url.Some? && !Exists(url) ==> r == Failure(InvalidOperation)
    ensures url.Some? && Exists(url) ==>
      r == Success(Processed(fetch(HabrUrls.Canonicalised(url.value)), parse, before, html))
  {
    if url.None? {
      return Failure(ArgumentNull("url"));
    }
    var instance := Single(url.value);
    if instance.Failure? {
      return Failure(instance.error);
    }
    var address := ProcessUrlOf(instance.value, url.value);
    HabrUrls.ProcessUrlIdempotent(url.value);
    var data := fetch(ProcessUrlOf(instance.value, address));
    if data.None? {
      return Success(None);
    }
    var content := HabrContent.ProcessContent(data, parse, before, html);
    if content.Failure? {
      return Success(None);
    }
    return Success(Some(content.value));
  }

  /** The address Get fetches is accepted again and names the same article as the url asked
      for, so the second ProcessUrl changes nothing. */
  lemma FetchedAddress(url: string)
    requires Exists(Some(url))
    ensures HabrUrls.UrlNumber(HabrUrls.Canonicalised(url)) == HabrUrls.UrlNumber(url)
    ensures ProcessUrlOf(Habr, ProcessUrlOf(Habr, url)) == ProcessUrlOf(Habr, url)
  {
    HabrUrls.ProcessUrlIdempotent(url);
  }

  /** Get returns null exactly when the fetch or the parse fails. */
  lemma GetNullIff(page: Option<string>, parse: string -> Option<seq<Token>>,
                   before: (string, string) -> string, html: Token -> string)
    ensures Processed(page, parse, before, html).None? <==> page.None? || parse(page.value).None?
  {
  }
}

/** FullContent (older revision, the root-level FullContent.cs): the same registry, but Exists
    throws on a null url, Get rewrites the url once, returns null only for a failed download and
    lets the exceptions of ProcessContent through. The download is a parameter: None stands for
    a download that throws. */
module LegacyFullContent {
  import opened Wrappers
  import opened Html
  import opened Fb2Markup
  import HabrUrls
  import FullContent
  import LegacyHabrContent
  import LegacyMarkup

  /** FullContent.Exists (older revision). */
  function Exists(url: Option<string>): (r: Result<bool>)
    ensures url.None? ==> r == Failure(ArgumentNull("url"))
    ensures url.Some? ==> r == Success(HabrUrls.UrlNumber(url.value).Some?)
  {
    if url.None? then Failure(ArgumentNull("url"))
    else
      FullContent.MatchingHabr(url.value);
      Success(|FullContent.Matching(url.value)| == 1)
  }

  /** The revisions answer alike except for a null url, where the older one throws and the
      newer one says no. */
  lemma ExistsAcrossRevisions(url: Option<string>)
    ensures url.Some? ==> Exists(url) == Success(FullContent.Exists(url))
    ensures url.None? ==> Exists(url).Failure? && !FullContent.Exists(url)
  {
  }

  /** FullContent.Get (older revision). */
  method Get(url: Option<string>, download: string -> Option<string>, parse: string -> Option<seq<Token>>,
             rt: Runtime, generate: Token -> string)
    returns (r: Result<Option<string>>)
    ensures url.None? ==> r == Failure(ArgumentNull("url"))
    ensures url.Some? && !FullContent.Exists(url) ==> r == Failure(InvalidOperation)
    ensures url.Some? && FullContent.Exists(url) ==>
      var page := download(HabrUrls.Canonicalised(url.value));
      (page.None? ==> r == Success(None)) &&
      (page.Some? && parse(page.value).None? ==> r == Failure(ArgumentNull("source"))) &&
      (page.Some? && parse(page.value).Some? ==>
        r == Success(Some(LegacyMarkup.LegacyHtml(LegacyHabrContent.Article(parse(page.value).value), rt, generate))))
  {
    if url.None? {
      return Failure(ArgumentNull("url"));
    }
    var instance := FullContent.Single(url.value);
    if instance.Failure? {
      return Failure(instance.error);
    }
    var address := FullContent.ProcessUrlOf(instance.value, url.value);
    var data := download(address);
    if data.None? {
      return Success(None);
    }
    var content := LegacyHabrContent.ProcessContent(data, parse, rt, generate);
    if content.Failure? {
      return Failure(content.error);
    }
    return Success(Some(content.value));
  }
}
