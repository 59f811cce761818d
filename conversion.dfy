/** HtmlToFb2 in both revisions: images are stored and renamed, their binary sections
    appended, the rewritten HTML parsed, cleaned up and converted to FB2 markup. */
module Conversion {
  import opened Wrappers
  import opened Strings
  import opened CollectionUtils
  import opened Html
  import opened Fb2Markup
  import opened Images
  import opened Cleanup
  import LegacyMarkup
  import Utils

  /** ParseHtml(content) ?? empty: a parser failure yields no chunks. The parser itself is
      not part of this model; it is a parameter. */
  function Parsed(parse: string -> Option<seq<Token>>, html: string): seq<Token>
  {
    if parse(html).Some? then parse(html).value else []
  }

  /** The whole conversion of the parsed chunks, as the newer revision performs it. */
  function Converted(chunks: seq<Token>, rt: Runtime): string
  {
    Render(Fragments(Prepared(chunks), rt))
  }

  /** ContentProcess.HtmlToFb2 (newer revision). Null arguments are rejected before anything
      changes; the images go to `binaries` as (name, bytes) pairs. */
  method HtmlToFb2(content: Option<string>, binaries: Collection?<Binary<Bytes>>, extractor: ImageExtractor,
                   matches: seq<Span>, download: string -> Option<Bytes>,
                   parse: string -> Option<seq<Token>>, rt: Runtime)
    returns (r: Result<string>)
    requires content.Some? ==> Fits(content.value, matches) && Ordered(matches)
    modifies binaries, extractor
    ensures content.None? ==> r == Failure(ArgumentNull("content"))
    ensures content.Some? && binaries == null ==> r == Failure(ArgumentNull("binaries"))
    ensures content.None? || binaries == null ==> unchanged(extractor)
    ensures content.None? && binaries != null ==> unchanged(binaries)
    ensures content.Some? && binaries != null ==>
      var kept := Unblocked(content.value, matches, BadImageStrings);
      var p := Rewritten(content.value, kept, download, old(extractor.uniqueImgNum));
      binaries.items == old(binaries.items) + p.images &&
      extractor.uniqueImgNum == Advance(old(extractor.uniqueImgNum), |p.images|) &&
      extractor.downloads == old(extractor.downloads) + Reverse(Urls(content.value, kept)) &&
      r == Success(Converted(Parsed(parse, p.content), rt))
  {
    if content.None? {
      return Failure(ArgumentNull("content"));
    }
    if binaries == null {
      return Failure(ArgumentNull("binaries"));
    }
    var processed := extractor.ProcessHtmlImages(content, matches, download);
    var p := processed.value;
    binaries.AddRange(p.images);
    var chunks := Parsed(parse, p.content);
    var filtered := Filtered(chunks);
    var renamed := ForEach(filtered, RenameAction, []);
    RenameFold(filtered, []);
    assert renamed == Renamed(filtered);
    var collapsed := RemoveEmptyPairs(renamed);
    r := Fb2Markup.CombineToFb2(Some(collapsed), rt);
  }

  /** The conversion keeps styles balanced when the renamed, filtered chunks nest properly
      and contain neither of the two openers the mapper cannot close. */
  lemma ConvertedBalanced(chunks: seq<Token>, rt: Runtime)
    requires WellNested(Renamed(Filtered(chunks)))
    requires forall k :: 0 <= k < |chunks| ==> !Unbalancing(chunks[k])
    ensures Balanced(Fragments(Prepared(chunks), rt))
  {
    var s := Prepared(chunks);
    PreparedClean(chunks);
    forall k | 0 <= k < |s|
      ensures !Unbalancing(s[k])
    {
      assert s[k] in s;
      if !(s[k].Tag? && s[k].name == "u") {
        var j :| 0 <= j < |chunks| && chunks[j] == s[k];
      }
    }
    BalancedOutput(s, rt);
  }

  // ---------------------------------------------------------------------------------------
  // Older revision
  // ---------------------------------------------------------------------------------------

  const BinaryHead: string := "<binary id=\""
  const BinaryMid: string := "\" content-type=\"image/jpeg\">"
  const BinaryTail: string := "</binary>"

  /** The template the older revision formats for each image,
      <binary id="{name}" content-type="image/jpeg">{base64}</binary>, as literal text and
      placeholders. */
  const BinarySegments: seq<Utils.Segment> :=
    [Utils.Literal(BinaryHead), Utils.Field("name"), Utils.Literal(BinaryMid), Utils.Field("base64"),
     Utils.Literal(BinaryTail)]

  const BinaryTemplate: string := Utils.Layout(BinarySegments)

  /** A string property is rendered as itself. */
  function PlainRender(value: string, format: string): string
  {
    value
  }

  function BinaryProperties(b: Binary<string>): map<string, string>
  {
    map["name" := b.name, "base64" := b.data]
  }

  lemma BinaryTemplatePlain()
    ensures forall g :: g in BinarySegments ==> Utils.PlainSegment(g)
  {
    LiteralPlain(BinaryHead);
    LiteralPlain(BinaryMid);
    LiteralPlain(BinaryTail);
    FieldPlain("name");
    FieldPlain("base64");
  }

  lemma LiteralPlain(t: string)
    requires forall m :: 0 <= m < |t| ==> t[m] != '{' && t[m] != '}'
    ensures Utils.PlainSegment(Utils.Literal(t))
  {
  }

  lemma FieldPlain(n: string)
    requires |n| > 0 && forall m :: 0 <= m < |n| ==> n[m] != '{' && n[m] != '}' && !Utils.IsFieldEnd(n[m])
    ensures Utils.PlainSegment(Utils.Field(n))
  {
  }

  lemma FilledTwoFields(head: string, n1: string, mid: string, n2: string, tail: string,
                        props: map<string, string>)
    requires n1 in props && n2 in props
    ensures Utils.Fillable([Utils.Literal(head), Utils.Field(n1), Utils.Literal(mid), Utils.Field(n2),
                            Utils.Literal(tail)], props)
    ensures Utils.Filled([Utils.Literal(head), Utils.Field(n1), Utils.Literal(mid), Utils.Field(n2),
                          Utils.Literal(tail)], props, PlainRender) ==
      head + props[n1] + mid + props[n2] + tail
  {
    var gs := [Utils.Literal(head), Utils.Field(n1), Utils.Literal(mid), Utils.Field(n2), Utils.Literal(tail)];
    assert Utils.Fillable(gs, props);
    assert gs[4..][1..] == gs[5..] && gs[3..][1..] == gs[4..] && gs[2..][1..] == gs[3..] && gs[1..][1..] == gs[2..];
    assert Utils.Filled(gs[5..], props, PlainRender) == "";
    assert Utils.Filled(gs[4..], props, PlainRender) == tail + "";
    assert Utils.Filled(gs[3..], props, PlainRender) == props[n2] + tail;
    assert Utils.Filled(gs[2..], props, PlainRender) == mid + (props[n2] + tail);
    assert Utils.Filled(gs[1..], props, PlainRender) == props[n1] + (mid + (props[n2] + tail));
    assert Utils.Filled(gs, props, PlainRender) == head + (props[n1] + (mid + (props[n2] + tail)));
  }

  /** Formatting the binary template fills in the image's name and its base64 text. */
  lemma BinaryTemplateFormat(b: Binary<string>)
    ensures Utils.Format(Some(BinaryTemplate), Some(BinaryProperties(b)), PlainRender) ==
      Success(BinaryHead + b.name + BinaryMid + b.data + BinaryTail)
  {
    BinaryTemplatePlain();
    var props := BinaryProperties(b);
    assert props["name"] == b.name && props["base64"] == b.data;
    FilledTwoFields(BinaryHead, "name", BinaryMid, "base64", BinaryTail, props);
    Utils.FormatOfLayout(BinarySegments, BinaryProperties(b), PlainRender);
  }

  /** The <binary> section of one image. */
  function BinaryElement(b: Binary<string>): (r: string)
    ensures r == BinaryHead + b.name + BinaryMid + b.data + BinaryTail
  {
    BinaryTemplateFormat(b);
    Utils.Format(Some(BinaryTemplate), Some(BinaryProperties(b)), PlainRender).value
  }

  function BinaryElements(images: seq<Binary<string>>): (r: seq<string>)
    ensures |r| == |images|
  {
    seq(|images|, k requires 0 <= k < |images| => BinaryElement(images[k]))
  }

  /** ContentProcess.HtmlToFb2 (older revision). It checks nothing itself: a null content
      fails inside the image search, a null list only when the images are added to it, after
      the images were stored. Its conversion cannot fail, because every img chunk left has a
      "src". */
  method HtmlToFb2Legacy(content: Option<string>, binaries: Collection?<string>, extractor: ImageExtractor,
                         matches: seq<Span>, recode: string -> Option<Bytes>, toBase64: Bytes -> string,
                         parse: string -> Option<seq<Token>>, rt: Runtime)
    returns (r: Result<string>)
    requires content.Some? ==> Fits(content.value, matches) && Ordered(matches)
    modifies binaries, extractor
    ensures content.None? ==> r == Failure(ArgumentNull("input"))
    ensures content.None? ==>
      extractor.uniqueImgNum == old(extractor.uniqueImgNum) && extractor.downloads == old(extractor.downloads)
    ensures content.None? && binaries != null ==> unchanged(binaries)
    ensures content.Some? ==>
      var kept := Unblocked(content.value, matches, LegacyBadImageStrings);
      var p := Rewritten(content.value, kept, Base64Fetch(recode, toBase64), old(extractor.uniqueImgNum));
      extractor.uniqueImgNum == Advance(old(extractor.uniqueImgNum), |p.images|) &&
      extractor.downloads == old(extractor.downloads) + Reverse(Urls(content.value, kept)) &&
      (binaries == null ==> r == Failure(NullReference)) &&
      (binaries != null ==>
        binaries.items == old(binaries.items) + BinaryElements(p.images) &&
        LegacyMarkup.LegacyFragments(Prepared(Parsed(parse, p.content)), rt).Success? &&
        r == Success(Render(LegacyMarkup.LegacyFragments(Prepared(Parsed(parse, p.content)), rt).value)))
  {
    var processed := extractor.ProcessHtmlImagesLegacy(content, matches, recode, toBase64);
    if processed.Failure? {
      return Failure(processed.error);
    }
    var p := processed.value;
    if binaries == null {
      return Failure(NullReference);
    }
    binaries.AddRange(BinaryElements(p.images));
    var chunks := Parsed(parse, p.content);
    var filtered := Filtered(chunks);
    var renamed := ForEach(filtered, RenameAction, []);
    RenameFold(filtered, []);
    assert renamed == Renamed(filtered);
    var collapsed := RemoveEmptyPairs(renamed);
    LegacyConverts(chunks, rt);
    r := LegacyMarkup.CombineToFb2(collapsed, rt);
  }

  /** The older conversion of cleaned-up chunks always succeeds: KeyNotFoundException needs
      an img chunk without "src", and the filter removed those. */
  lemma LegacyConverts(chunks: seq<Token>, rt: Runtime)
    ensures LegacyMarkup.LegacyFragments(Prepared(chunks), rt).Success?
  {
    var s := Prepared(chunks);
    PreparedClean(chunks);
    LegacyMarkup.LegacyFailureIff(s, rt);
    forall k | 0 <= k < |s|
      ensures !LegacyMarkup.MissingSrc(s[k])
    {
      assert s[k] in s;
    }
  }

  /** The older conversion keeps styles balanced when the cleaned-up chunks nest properly. */
  lemma LegacyConvertedBalanced(chunks: seq<Token>, rt: Runtime)
    requires WellNested(Renamed(Filtered(chunks)))
    ensures LegacyMarkup.LegacyFragments(Prepared(chunks), rt).Success?
    ensures Balanced(LegacyMarkup.LegacyFragments(Prepared(chunks), rt).value)
  {
    PreparedClean(chunks);
    LegacyConverts(chunks, rt);
    LegacyMarkup.LegacyBalancedOutput(Prepared(chunks), rt);
  }
}
