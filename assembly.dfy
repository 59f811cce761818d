/** CreateFb2 in both revisions: every feed entry's content is (optionally) replaced by the full
    article, converted to FB2, and the entries are grouped by feed, the feeds ordered by title
    and the entries of each feed newest first. The XML itself is not modelled: the document is
    an abstract structure of an annotation (feed and entry counts), the body sections and the
    binary sections, the cover last. Converting one entry (HtmlToFb2, modelled in Conversion)
    and fetching a full article (FullContent.Get) are parameters here. */
module Assembly {
  import opened Wrappers
  import opened CollectionUtils
  import FullContent
  import LegacyFullContent
  import Images
  import Strings

  // ---------------------------------------------------------------------------------------
  // Orders
  // ---------------------------------------------------------------------------------------

  /** Ordinal string order: the first differing character decides, a proper prefix comes
      first. */
  predicate TitleLe(a: string, b: string)
    decreases |a|
  {
    if a == [] then true
    else if b == [] then false
    else if a[0] != b[0] then a[0] < b[0]
    else TitleLe(a[1..], b[1..])
  }

  lemma {:induction false} TitleLeTotal(a: string, b: string)
    ensures TitleLe(a, b) || TitleLe(b, a)
    decreases |a|
  {
    if a != [] && b != [] && a[0] == b[0] {
      TitleLeTotal(a[1..], b[1..]);
    }
  }

  lemma {:induction false} TitleLeTransitive(a: string, b: string, c: string)
    requires TitleLe(a, b) && TitleLe(b, c)
    ensures TitleLe(a, c)
    decreases |a|
  {
    if a != [] && b != [] && c != [] && a[0] == b[0] && b[0] == c[0] {
      TitleLeTransitive(a[1..], b[1..], c[1..]);
    }
  }

  lemma {:induction false} TitleLeAntisymmetric(a: string, b: string)
    requires TitleLe(a, b) && TitleLe(b, a)
    ensures a == b
    decreases |a|
  {
    if a != [] {
      TitleLeAntisymmetric(a[1..], b[1..]);
      assert a == [a[0]] + a[1..] && b == [b[0]] + b[1..];
    }
  }

  ghost predicate Total<T(!new)>(le: (T, T) -> bool)
  {
    forall a, b :: le(a, b) || le(b, a)
  }

  ghost predicate Transitive<T(!new)>(le: (T, T) -> bool)
  {
    forall a, b, c :: le(a, b) && le(b, c) ==> le(a, c)
  }

  predicate Sorted<T>(s: seq<T>, le: (T, T) -> bool)
  {
    forall i, j :: 0 <= i < j < |s| ==> le(s[i], s[j])
  }

  /** Places x before the first element it may precede; equal elements keep x first. */
  function Insert<T>(x: T, s: seq<T>, le: (T, T) -> bool): (r: seq<T>)
    ensures multiset(r) == multiset(s) + multiset{x}
  {
    if s == [] || le(x, s[0]) then [x] + s
    else
      assert s == [s[0]] + s[1..];
      [s[0]] + Insert(x, s[1..], le)
  }

  /** Enumerable.OrderBy with a key comparison: a stable sort. */
  function SortBy<T>(s: seq<T>, le: (T, T) -> bool): (r: seq<T>)
    ensures multiset(r) == multiset(s)
  {
    if s == [] then []
    else
      assert s == [s[0]] + s[1..];
      Insert(s[0], SortBy(s[1..], le), le)
  }

  lemma {:induction false} InsertSorted<T(!new)>(x: T, s: seq<T>, le: (T, T) -> bool)
    requires Total(le) && Transitive(le) && Sorted(s, le)
    ensures Sorted(Insert(x, s, le), le)
  {
    if s != [] && !le(x, s[0]) {
      InsertSorted(x, s[1..], le);
      var r := Insert(x, s, le);
      var t := Insert(x, s[1..], le);
      assert le(s[0], x);
      forall j | 0 < j < |r|
        ensures le(s[0], r[j])
      {
        assert r[j] == t[j - 1];
        assert r[j] in multiset(t);
        assert r[j] in multiset(s[1..]) + multiset{x};
        if r[j] != x {
          assert r[j] in s[1..];
          var m :| 0 <= m < |s[1..]| && s[1..][m] == r[j];
          assert s[1..][m] == s[m + 1];
        }
      }
    }
  }

  lemma {:induction false} SortBySorted<T(!new)>(s: seq<T>, le: (T, T) -> bool)
    requires Total(le) && Transitive(le)
    ensures Sorted(SortBy(s, le), le)
  {
    if s != [] {
      SortBySorted(s[1..], le);
      InsertSorted(s[0], SortBy(s[1..], le), le);
    }
  }

  // ---------------------------------------------------------------------------------------
  // Entries and sections
  // ---------------------------------------------------------------------------------------

  /** A feed entry as CreateFb2 receives it: its feed's title, title, publication time (as a
      number of ticks), link and HTML content. */
  datatype FeedEntry = FeedEntry(feedTitle: string, title: string, published: int, link: Option<string>,
                                 content: string)

  /** An entry after conversion: its content is FB2 text. */
  datatype Entry = Entry(feedTitle: string, title: string, published: int, content: string)

  /** One body section: a feed title and the sections of its entries. */
  datatype Section = Section(title: string, entries: seq<Entry>)

  /** The binary sections after the body: the images the conversions collected, then the
      cover. */
  datatype BinarySection<B> = Image(image: B) | Cover

  /** The FB2 document: the annotation's two counts, the body and the binary sections. */
  datatype Document<B> = Document(feeds: nat, entries: nat, body: seq<Section>, binaries: seq<BinarySection<B>>)

  /** What converting one entry yields: the FB2 content and the images it added. */
  datatype Converted<B> = Converted(content: string, images: seq<B>)

  function NewestFirst(a: Entry, b: Entry): bool
  {
    a.published >= b.published
  }

  function TitleFirst(a: Section, b: Section): bool
  {
    TitleLe(a.title, b.title)
  }

  lemma NewestFirstOrder()
    ensures Total(NewestFirst) && Transitive(NewestFirst)
  {
  }

  lemma TitleFirstOrder()
    ensures Total(TitleFirst) && Transitive(TitleFirst)
  {
    forall a: Section, b: Section
      ensures TitleFirst(a, b) || TitleFirst(b, a)
    {
      TitleLeTotal(a.title, b.title);
    }
    forall a: Section, b: Section, c: Section | TitleFirst(a, b) && TitleFirst(b, c)
      ensures TitleFirst(a, c)
    {
      TitleLeTransitive(a.title, b.title, c.title);
    }
  }

  /** The entries of all sections, counted. */
  function EntryCount(gs: seq<Section>): nat
  {
    if gs == [] then 0 else |gs[0].entries| + EntryCount(gs[1..])
  }

  lemma {:induction false} EntryCountAppend(gs: seq<Section>, x: Section)
    ensures EntryCount(gs + [x]) == EntryCount(gs) + |x.entries|
  {
    if gs != [] {
      assert (gs + [x])[1..] == gs[1..] + [x];
      EntryCountAppend(gs[1..], x);
    }
  }

  lemma {:induction false} EntryCountUpdate(gs: seq<Section>, k: nat, x: Section)
    requires k < |gs|
    ensures EntryCount(gs[k := x]) == EntryCount(gs) - |gs[k].entries| + |x.entries|
  {
    if k > 0 {
      assert gs[k := x][1..] == gs[1..][k - 1 := x];
      EntryCountUpdate(gs[1..], k - 1, x);
    }
  }

  // ---------------------------------------------------------------------------------------
  // GroupBy
  // ---------------------------------------------------------------------------------------

  /** The position of the section titled t, or |gs|. */
  function TitleIndex(gs: seq<Section>, t: string): (k: nat)
    ensures k <= |gs|
    ensures k < |gs| ==> gs[k].title == t
    ensures forall i :: 0 <= i < k ==> gs[i].title != t
  {
    if gs == [] then 0
    else if gs[0].title == t then 0
    else 1 + TitleIndex(gs[1..], t)
  }

  /** The entry joins the section of its feed, or opens a new one at the end. */
  function AddEntry(gs: seq<Section>, e: Entry): seq<Section>
  {
    var k := TitleIndex(gs, e.feedTitle);
    if k == |gs| then gs + [Section(e.feedTitle, [e])]
    else gs[k := gs[k].(entries := gs[k].entries + [e])]
  }

  /** Enumerable.GroupBy(e => e.FeedTitle): one section per feed title, in the order of the
      titles' first appearance, each holding its entries in source order. */
  function GroupBy(s: seq<Entry>): seq<Section>
  {
    if s == [] then [] else AddEntry(GroupBy(s[..|s| - 1]), s[|s| - 1])
  }

  function SameFeed(t: string): Entry -> bool
  {
    (e: Entry) => e.feedTitle == t
  }

  predicate DistinctTitles(gs: seq<Section>)
  {
    forall i, j :: 0 <= i < j < |gs| ==> gs[i].title != gs[j].title
  }

  lemma WhereNone(s: seq<Entry>, t: string)
    requires forall e :: e in s ==> e.feedTitle != t
    ensures Where(s, SameFeed(t)) == []
  {
  }

  /** Every entry's feed has its section. */
  lemma {:induction false} GroupByCovers(s: seq<Entry>)
    ensures forall e :: e in s ==> TitleIndex(GroupBy(s), e.feedTitle) < |GroupBy(s)|
  {
    if s != [] {
      var p := s[..|s| - 1];
      var e := s[|s| - 1];
      assert s == p + [e];
      GroupByCovers(p);
      var gs := GroupBy(p);
      var r := AddEntry(gs, e);
      var k := TitleIndex(gs, e.feedTitle);
      forall x | x in s
        ensures TitleIndex(r, x.feedTitle) < |r|
      {
        var j := if x in p then TitleIndex(gs, x.feedTitle) else k;
        assert j < |r| && r[j].title == x.feedTitle;
        TitleIndexFinds(r, j);
      }
    }
  }

  lemma TitleIndexFinds(gs: seq<Section>, j: nat)
    requires j < |gs|
    ensures TitleIndex(gs, gs[j].title) <= j
  {
  }

  /** The titles of the grouped sections are distinct. */
  lemma {:induction false} GroupByDistinct(s: seq<Entry>)
    ensures DistinctTitles(GroupBy(s))
  {
    if s != [] {
      var p := s[..|s| - 1];
      var e := s[|s| - 1];
      GroupByDistinct(p);
      var gs := GroupBy(p);
      var k := TitleIndex(gs, e.feedTitle);
      var r := AddEntry(gs, e);
      assert forall i :: 0 <= i < |gs| ==> r[i].title == gs[i].title;
    }
  }

  /** Each section holds exactly the entries of its feed, in source order. */
  lemma {:induction false} GroupByMembers(s: seq<Entry>)
    ensures forall k :: 0 <= k < |GroupBy(s)| ==> GroupBy(s)[k].entries == Where(s, SameFeed(GroupBy(s)[k].title))
  {
    if s != [] {
      var p := s[..|s| - 1];
      var e := s[|s| - 1];
      assert s == p + [e];
      GroupByMembers(p);
      GroupByCovers(p);
      GroupByDistinct(p);
      var gs := GroupBy(p);
      var r := AddEntry(gs, e);
      var k := TitleIndex(gs, e.feedTitle);
      forall i | 0 <= i < |r|
        ensures r[i].entries == Where(s, SameFeed(r[i].title))
      {
        var t := r[i].title;
        WhereAppend(p, [e], SameFeed(t));
        WhereSingle(e, t);
        if i == |gs| {
          assert k == |gs| && r[i] == Section(e.feedTitle, [e]);
          forall x | x in p
            ensures x.feedTitle != t
          {
            assert TitleIndex(gs, x.feedTitle) < |gs|;
          }
          WhereNone(p, t);
        } else if i != k {
          assert r[i] == gs[i];
          assert t != e.feedTitle;
          assert gs[i].entries == Where(p, SameFeed(gs[i].title));
          assert Where(p, SameFeed(t)) + [] == Where(p, SameFeed(t));
        } else {
          assert r[i].entries == gs[i].entries + [e];
        }
      }
    }
  }

  lemma WhereSingle(e: Entry, t: string)
    ensures Where([e], SameFeed(t)) == if e.feedTitle == t then [e] else []
  {
    assert [e][1..] == [];
  }

  /** Grouping keeps every entry: the sections hold as many entries as the source. */
  lemma {:induction false} GroupByCount(s: seq<Entry>)
    ensures EntryCount(GroupBy(s)) == |s|
  {
    if s != [] {
      var p := s[..|s| - 1];
      var e := s[|s| - 1];
      GroupByCount(p);
      var gs := GroupBy(p);
      var k := TitleIndex(gs, e.feedTitle);
      if k == |gs| {
        EntryCountAppend(gs, Section(e.feedTitle, [e]));
      } else {
        EntryCountUpdate(gs, k, gs[k].(entries := gs[k].entries + [e]));
      }
    }
  }

  // ---------------------------------------------------------------------------------------
  // The body
  // ---------------------------------------------------------------------------------------

  /** `group.OrderByDescending(fi => fi.Published)` */
  function NewestFirstSection(g: Section): Section
  {
    Section(g.title, SortBy(g.entries, NewestFirst))
  }

  function MapSections(gs: seq<Section>): (r: seq<Section>)
    ensures |r| == |gs|
    ensures forall k :: 0 <= k < |gs| ==> r[k] == NewestFirstSection(gs[k])
  {
    seq(|gs|, k requires 0 <= k < |gs| => NewestFirstSection(gs[k]))
  }

  /** The body: the sections ordered by title, each with its entries newest first. */
  function Body(gs: seq<Section>): seq<Section>
  {
    SortBy(MapSections(gs), TitleFirst)
  }

  /** The body is ordered by title and every section in it lists its entries newest first. */
  lemma BodyOrdered(gs: seq<Section>)
    ensures Sorted(Body(gs), TitleFirst)
    ensures forall i :: 0 <= i < |Body(gs)| ==> Sorted(Body(gs)[i].entries, NewestFirst)
  {
    TitleFirstOrder();
    NewestFirstOrder();
    SortBySorted(MapSections(gs), TitleFirst);
    var b := Body(gs);
    forall i | 0 <= i < |b|
      ensures Sorted(b[i].entries, NewestFirst)
    {
      assert b[i] in multiset(MapSections(gs));
      var k :| 0 <= k < |gs| && MapSections(gs)[k] == b[i];
      SortBySorted(gs[k].entries, NewestFirst);
    }
  }

  /** The body holds the grouped sections, each exactly once, reordered. */
  lemma BodySections(gs: seq<Section>)
    ensures multiset(Body(gs)) == multiset(MapSections(gs))
    ensures |Body(gs)| == |gs|
  {
    assert |multiset(Body(gs))| == |multiset(MapSections(gs))|;
  }

  /** The document around the sections and the collected images; the annotation counts are
      taken from the sections. */
  function Compose<B>(gs: seq<Section>, images: seq<B>): Document<B>
  {
    Document(|gs|, EntryCount(gs), Body(gs), seq(|images|, k requires 0 <= k < |images| => Image(images[k])) + [Cover])
  }

  /** The binary sections are the collected images in collection order, then the cover. */
  lemma ComposeBinaries<B>(gs: seq<Section>, images: seq<B>)
    ensures var d := Compose(gs, images);
      |d.binaries| == |images| + 1 && d.binaries[|images|] == Cover &&
      forall k :: 0 <= k < |images| ==> d.binaries[k] == Image(images[k])
  {
  }

  // ---------------------------------------------------------------------------------------
  // One section per feed
  // ---------------------------------------------------------------------------------------

  lemma {:induction false} DistinctOnce(b: seq<Section>, v: Section)
    requires DistinctTitles(b)
    ensures multiset(b)[v] <= 1
  {
    if b != [] {
      var t := b[1..];
      assert b == [b[0]] + t;
      assert DistinctTitles(t) by {
        forall i, j | 0 <= i < j < |t|
          ensures t[i].title != t[j].title
        {
          assert t[i] == b[i + 1] && t[j] == b[j + 1];
        }
      }
      DistinctOnce(t, v);
      if v == b[0] {
        forall j | 0 <= j < |t|
          ensures t[j] != v
        {
          assert t[j] == b[j + 1];
        }
        assert v !in t;
      }
    }
  }

  lemma TwiceCounted(a: seq<Section>, i: nat, j: nat)
    requires i < j < |a| && a[i] == a[j]
    ensures multiset(a)[a[i]] >= 2
  {
    assert a == a[..j] + [a[j]] + a[j + 1..];
    assert a[i] in a[..j];
  }

  /** Reordering keeps the titles distinct. */
  lemma DistinctPermuted(a: seq<Section>, b: seq<Section>)
    requires multiset(a) == multiset(b) && DistinctTitles(b)
    ensures DistinctTitles(a)
  {
    forall i, j | 0 <= i < j < |a|
      ensures a[i].title != a[j].title
    {
      if a[i] == a[j] {
        TwiceCounted(a, i, j);
        DistinctOnce(b, a[i]);
      } else {
        assert a[i] in multiset(b) && a[j] in multiset(b);
        var k1 :| 0 <= k1 < |b| && b[k1] == a[i];
        var k2 :| 0 <= k2 < |b| && b[k2] == a[j];
        assert k1 != k2;
      }
    }
  }

  // ---------------------------------------------------------------------------------------
  // CreateFb2, newer revision
  // ---------------------------------------------------------------------------------------

  /** The notice the newer revision formats for an article it could not fetch,
      <hr/>[Full article content couldn't be downloaded, although url <u>{link}</u> is
      supported], around the link. */
  const NoticeHead: string := "<hr/>[Full article content couldn't be downloaded, although url <u>"
  const NoticeTail: string := "</u> is supported]"

  /** The content the Select lambda converts. With LoadFullContent on and a supported link the
      full article replaces the feed's content; when Get returns null, `content += notice` on
      the null content leaves the notice alone. `full(link)` stands for FullContent.Get(link),
      which cannot throw once Exists(link) holds. */
  function EntryContent(e: FeedEntry, loadFull: bool, full: string -> Option<string>): string
  {
    if loadFull && FullContent.Exists(e.link) then
      match full(e.link.value)
      case Some(article) => article
      case None => NoticeHead + e.link.value + NoticeTail
    else e.content
  }

  /** The Select over the entries, in source order: every entry converted, the images of the
      conversions appended to `binaries` one entry after the other. `convert(content, n)`
      stands for HtmlToFb2 run when the static image counter holds n; a conversion that
      collects k images leaves the counter k increments on, so the next entry starts there. */
  function ConvertAll<B>(s: seq<FeedEntry>, loadFull: bool, full: string -> Option<string>,
                         convert: (string, Images.Int32) -> Converted<B>, n: Images.Int32)
    : (r: (seq<Entry>, seq<B>))
    ensures |r.0| == |s|
    ensures forall k :: 0 <= k < |s| ==>
      r.0[k].feedTitle == s[k].feedTitle && r.0[k].title == s[k].title && r.0[k].published == s[k].published
    ensures s != [] ==>
      r.0[0].content == convert(EntryContent(s[0], loadFull, full), n).content
  {
    if s == [] then ([], [])
    else
      var e := s[0];
      var c := convert(EntryContent(e, loadFull, full), n);
      var rest := ConvertAll(s[1..], loadFull, full, convert, Images.Advance(n, |c.images|));
      ([Entry(e.feedTitle, e.title, e.published, c.content)] + rest.0, c.images + rest.1)
  }

  /** One more entry: it is converted with the counter moved on by every image the entries
      before it collected, and its images come after theirs. */
  lemma {:induction false} ConvertAllSnoc<B>(s: seq<FeedEntry>, x: FeedEntry, loadFull: bool,
                                             full: string -> Option<string>,
                                             convert: (string, Images.Int32) -> Converted<B>, n: Images.Int32)
    ensures var before := ConvertAll(s, loadFull, full, convert, n);
      var c := convert(EntryContent(x, loadFull, full), Images.Advance(n, |before.1|));
      ConvertAll(s + [x], loadFull, full, convert, n) ==
        (before.0 + [Entry(x.feedTitle, x.title, x.published, c.content)], before.1 + c.images)
  {
    if s == [] {
      assert s + [x] == [x] && [x][1..] == [];
      var c := convert(EntryContent(x, loadFull, full), n);
      var ex := Entry(x.feedTitle, x.title, x.published, c.content);
      assert ConvertAll([x], loadFull, full, convert, n) == ([ex] + [], c.images + []);
      assert [ex] + [] == [] + [ex] && c.images + [] == [] + c.images;
    } else {
      var c0 := convert(EntryContent(s[0], loadFull, full), n);
      var m := Images.Advance(n, |c0.images|);
      var rest := ConvertAll(s[1..], loadFull, full, convert, m);
      ConvertAllSnoc(s[1..], x, loadFull, full, convert, m);
      Images.AdvanceAdd(n, |c0.images|, |rest.1|);
      SnocStep(s, x, loadFull, full, convert, n);
      var e0 := Entry(s[0].feedTitle, s[0].title, s[0].published, c0.content);
      var before := ConvertAll(s, loadFull, full, convert, n);
      assert before == ([e0] + rest.0, c0.images + rest.1);
      var c := convert(EntryContent(x, loadFull, full), Images.Advance(n, |before.1|));
      var ex := Entry(x.feedTitle, x.title, x.published, c.content);
      assert ConvertAll(s[1..] + [x], loadFull, full, convert, m) == (rest.0 + [ex], rest.1 + c.images);
      Associative([e0], rest.0, [ex]);
      Associative(c0.images, rest.1, c.images);
    }
  }

  /** Entry k is converted with the counter moved on by every image of the entries before
      it. */
  lemma {:induction false} ConvertAllEntry<B>(s: seq<FeedEntry>, loadFull: bool, full: string -> Option<string>,
                                              convert: (string, Images.Int32) -> Converted<B>,
                                              n: Images.Int32, k: nat)
    requires k < |s|
    ensures ConvertAll(s, loadFull, full, convert, n).0[k].content ==
      convert(EntryContent(s[k], loadFull, full), Images.Advance(n, |ConvertAll(s[..k], loadFull, full, convert, n).1|)).content
    decreases |s|
  {
    var p := s[..|s| - 1];
    assert s == p + [s[|s| - 1]];
    ConvertAllSnoc(p, s[|s| - 1], loadFull, full, convert, n);
    if k < |s| - 1 {
      ConvertAllEntry(p, loadFull, full, convert, n, k);
      assert p[..k] == s[..k];
    }
  }

  lemma Associative<T>(a: seq<T>, b: seq<T>, c: seq<T>)
    ensures a + (b + c) == (a + b) + c
  {
  }

  /** The first entry of s + [x] is the first of s, and the rest is converted from where that
      one left the counter. */
  lemma SnocStep<B>(s: seq<FeedEntry>, x: FeedEntry, loadFull: bool, full: string -> Option<string>,
                    convert: (string, Images.Int32) -> Converted<B>, n: Images.Int32)
    requires s != []
    ensures var c0 := convert(EntryContent(s[0], loadFull, full), n);
      var e0 := Entry(s[0].feedTitle, s[0].title, s[0].published, c0.content);
      var m := Images.Advance(n, |c0.images|);
      var rest := ConvertAll(s[1..] + [x], loadFull, full, convert, m);
      ConvertAll(s + [x], loadFull, full, convert, n) == ([e0] + rest.0, c0.images + rest.1) &&
      ConvertAll(s, loadFull, full, convert, n) ==
        ([e0] + ConvertAll(s[1..], loadFull, full, convert, m).0, c0.images + ConvertAll(s[1..], loadFull, full, convert, m).1)
  {
    assert (s + [x])[0] == s[0];
    assert (s + [x])[1..] == s[1..] + [x];
  }

  /** A conversion names its k-th image after the counter value k + 1 steps on from the one
      it started with, as ProcessHtmlImages does (Images.ImageNamesSequential). `nameOf`
      reads an image's name. */
  ghost predicate NamesFrom<B>(convert: (string, Images.Int32) -> Converted<B>, nameOf: B -> string)
  {
    forall content: string, n: Images.Int32, i: int :: 0 <= i < |convert(content, n).images| ==>
      nameOf(convert(content, n).images[i]) == Images.ImageName(Images.Advance(n, i + 1))
  }

  /** Names handed out one counter step after another. */
  ghost predicate NamedInSequence<B>(images: seq<B>, nameOf: B -> string, n: Images.Int32)
  {
    forall i :: 0 <= i < |images| ==> nameOf(images[i]) == Images.ImageName(Images.Advance(n, i + 1))
  }

  /** Images named in sequence after those named in sequence from where their counter left
      off are named in sequence. */
  lemma SequenceContinues<B>(a: seq<B>, b: seq<B>, nameOf: B -> string, n: Images.Int32)
    requires NamedInSequence(a, nameOf, n)
    requires NamedInSequence(b, nameOf, Images.Advance(n, |a|))
    ensures NamedInSequence(a + b, nameOf, n)
  {
    forall i | 0 <= i < |a| + |b|
      ensures nameOf((a + b)[i]) == Images.ImageName(Images.Advance(n, i + 1))
    {
      if i < |a| {
        assert (a + b)[i] == a[i];
      } else {
        var j := i - |a|;
        Images.AdvanceAdd(n, |a|, j + 1);
        assert (a + b)[i] == b[j];
      }
    }
  }

  /** Names in sequence stay distinct while the counter does not wrap. */
  lemma SequenceDistinct<B>(images: seq<B>, nameOf: B -> string, n: Images.Int32)
    requires NamedInSequence(images, nameOf, n)
    requires n as int + |images| <= Strings.Int32Max
    ensures forall a, b :: 0 <= a < b < |images| ==> nameOf(images[a]) != nameOf(images[b])
  {
    forall a, b | 0 <= a < b < |images| ensures nameOf(images[a]) != nameOf(images[b]) {
      Images.AdvanceNoWrap(n, a + 1);
      Images.AdvanceNoWrap(n, b + 1);
      if nameOf(images[a]) == nameOf(images[b]) {
        Images.ImageNameInjective(Images.Advance(n, a + 1), Images.Advance(n, b + 1));
      }
    }
  }

  /** Across all entries the images are named one counter step after another. */
  lemma {:induction false} ConvertAllNames<B>(s: seq<FeedEntry>, loadFull: bool, full: string -> Option<string>,
                                              convert: (string, Images.Int32) -> Converted<B>,
                                              nameOf: B -> string, n: Images.Int32)
    requires NamesFrom(convert, nameOf)
    ensures NamedInSequence(ConvertAll(s, loadFull, full, convert, n).1, nameOf, n)
  {
    if s != [] {
      var c := convert(EntryContent(s[0], loadFull, full), n);
      var m := Images.Advance(n, |c.images|);
      ConvertAllNames(s[1..], loadFull, full, convert, nameOf, m);
      SequenceContinues(c.images, ConvertAll(s[1..], loadFull, full, convert, m).1, nameOf, n);
    }
  }

  /** HtmlToFb2 as Conversion.HtmlToFb2 states it: the content is rendered from the text
      ProcessHtmlImages rewrote from counter n, and the images are the ones it collected.
      `spansOf` stands for the img-src matches that are kept, `fetch` for the download and
      `render` for the rest of the conversion. */
  function RewritingConvert<T>(spansOf: string -> seq<Images.Span>, fetch: string -> Option<T>,
                               render: string -> string): (string, Images.Int32) -> Converted<Images.Binary<T>>
  {
    (content: string, n: Images.Int32) =>
      var spans := spansOf(content);
      if Images.Fits(content, spans) && Images.Ordered(spans) then
        var p := Images.Rewritten(content, spans, fetch, n);
        Converted(render(p.content), p.images)
      else Converted(render(content), [])
  }

  /** Such a conversion names its images as the counter advances. */
  lemma RewritingNames<T>(spansOf: string -> seq<Images.Span>, fetch: string -> Option<T>, render: string -> string)
    ensures NamesFrom(RewritingConvert(spansOf, fetch, render), (b: Images.Binary<T>) => b.name)
  {
    var convert := RewritingConvert(spansOf, fetch, render);
    forall content: string, n: Images.Int32, i: int | 0 <= i < |convert(content, n).images|
      ensures convert(content, n).images[i].name == Images.ImageName(Images.Advance(n, i + 1))
    {
      var spans := spansOf(content);
      if Images.Fits(content, spans) && Images.Ordered(spans) {
        var urls := Images.Urls(content, spans);
        var p := Images.Rewritten(content, spans, fetch, n);
        assert convert(content, n) == Converted(render(p.content), p.images);
        assert p.images == Images.ImagesFrom(urls, fetch, n, 0);
        Images.ImageNamesSequential(urls, fetch, n, 0);
      }
    }
  }

  /** ContentProcess.CreateFb2 (newer revision), called when the static image counter holds
      n. A null entry list throws; the TextWriter is not part of this model. */
  function CreateFb2<B>(feedEntries: Option<seq<FeedEntry>>, loadFull: bool, full: string -> Option<string>,
                        convert: (string, Images.Int32) -> Converted<B>, n: Images.Int32): (r: Result<Document<B>>)
    ensures feedEntries.None? <==> r == Failure(ArgumentNull("feedEntries"))
    ensures feedEntries.Some? ==> r.Success? && r.value.entries == |feedEntries.value| && r.value.feeds == |r.value.body|
  {
    if feedEntries.None? then Failure(ArgumentNull("feedEntries"))
    else
      var converted := ConvertAll(feedEntries.value, loadFull, full, convert, n);
      GroupByCount(converted.0);
      BodySections(GroupBy(converted.0));
      Success(Compose(GroupBy(converted.0), converted.1))
  }

  /** The sections of the grouped entries keep distinct titles once ordered. */
  lemma FeedBodyDistinct(conv: seq<Entry>)
    ensures DistinctTitles(Body(GroupBy(conv)))
  {
    var gs := GroupBy(conv);
    var m := MapSections(gs);
    BodySections(gs);
    GroupByDistinct(conv);
    assert DistinctTitles(m) by {
      forall i, j | 0 <= i < j < |m|
        ensures m[i].title != m[j].title
      {
        assert m[i].title == gs[i].title && m[j].title == gs[j].title;
      }
    }
    DistinctPermuted(Body(gs), m);
  }

  /** Each ordered section holds its feed's entries, newest first. */
  lemma FeedBodyMembers(conv: seq<Entry>)
    ensures forall i :: 0 <= i < |Body(GroupBy(conv))| ==>
      Body(GroupBy(conv))[i].entries == SortBy(Where(conv, SameFeed(Body(GroupBy(conv))[i].title)), NewestFirst)
  {
    var gs := GroupBy(conv);
    var m := MapSections(gs);
    var b := Body(gs);
    BodySections(gs);
    GroupByMembers(conv);
    forall i | 0 <= i < |b|
      ensures b[i].entries == SortBy(Where(conv, SameFeed(b[i].title)), NewestFirst)
    {
      assert b[i] in multiset(m);
      var k :| 0 <= k < |m| && m[k] == b[i];
    }
  }

  /** Every entry's feed has a section in the ordered body. */
  lemma FeedBodyCovers(conv: seq<Entry>, e: Entry)
    requires e in conv
    ensures exists i :: 0 <= i < |Body(GroupBy(conv))| && Body(GroupBy(conv))[i].title == e.feedTitle
  {
    var gs := GroupBy(conv);
    var m := MapSections(gs);
    var b := Body(gs);
    BodySections(gs);
    GroupByCovers(conv);
    var j := TitleIndex(gs, e.feedTitle);
    assert j < |gs| && m[j].title == e.feedTitle;
    assert m[j] in multiset(b);
    var i :| 0 <= i < |b| && b[i] == m[j];
    assert b[i].title == e.feedTitle;
  }

  /** The body of the newer document: one section per feed, ordered by title, each holding
      exactly its feed's converted entries, newest first; a feed that has entries has a
      section. */
  lemma CreateFb2Body<B>(s: seq<FeedEntry>, loadFull: bool, full: string -> Option<string>,
                         convert: (string, Images.Int32) -> Converted<B>, n: Images.Int32)
    ensures Sorted(CreateFb2(Some(s), loadFull, full, convert, n).value.body, TitleFirst)
    ensures DistinctTitles(CreateFb2(Some(s), loadFull, full, convert, n).value.body)
    ensures forall i :: 0 <= i < |CreateFb2(Some(s), loadFull, full, convert, n).value.body| ==>
      var g := CreateFb2(Some(s), loadFull, full, convert, n).value.body[i];
      g.entries == SortBy(Where(ConvertAll(s, loadFull, full, convert, n).0, SameFeed(g.title)), NewestFirst) &&
      Sorted(g.entries, NewestFirst)
    ensures forall k :: 0 <= k < |s| ==>
      exists i :: 0 <= i < |CreateFb2(Some(s), loadFull, full, convert, n).value.body| &&
        CreateFb2(Some(s), loadFull, full, convert, n).value.body[i].title == s[k].feedTitle
  {
    var conv := ConvertAll(s, loadFull, full, convert, n).0;
    var b := CreateFb2(Some(s), loadFull, full, convert, n).value.body;
    assert b == Body(GroupBy(conv));
    BodyOrdered(GroupBy(conv));
    FeedBodyDistinct(conv);
    FeedBodyMembers(conv);
    forall k | 0 <= k < |s|
      ensures exists i :: 0 <= i < |b| && b[i].title == s[k].feedTitle
    {
      FeedBodyCovers(conv, conv[k]);
    }
  }

  /** The binary sections of the newer document: every image of every conversion, in entry
      order, then the cover. */
  lemma CreateFb2Binaries<B>(s: seq<FeedEntry>, loadFull: bool, full: string -> Option<string>,
                             convert: (string, Images.Int32) -> Converted<B>, n: Images.Int32)
    ensures var d := CreateFb2(Some(s), loadFull, full, convert, n).value;
      var images := ConvertAll(s, loadFull, full, convert, n).1;
      |d.binaries| == |images| + 1 && d.binaries[|images|] == Cover &&
      forall k :: 0 <= k < |images| ==> d.binaries[k] == Image(images[k])
  {
    ComposeBinaries(GroupBy(ConvertAll(s, loadFull, full, convert, n).0), ConvertAll(s, loadFull, full, convert, n).1);
  }

  /** The image binaries of the newer document are named one counter step after another from
      the counter CreateFb2 starts with, across all entries; unless the counter wraps, no two
      share a name. */
  lemma CreateFb2ImageNames<B>(s: seq<FeedEntry>, loadFull: bool, full: string -> Option<string>,
                               convert: (string, Images.Int32) -> Converted<B>, nameOf: B -> string,
                               n: Images.Int32)
    requires NamesFrom(convert, nameOf)
    ensures var d := CreateFb2(Some(s), loadFull, full, convert, n).value;
      forall k :: 0 <= k < |d.binaries| - 1 ==>
        d.binaries[k].Image? && nameOf(d.binaries[k].image) == Images.ImageName(Images.Advance(n, k + 1))
    ensures var d := CreateFb2(Some(s), loadFull, full, convert, n).value;
      n as int + |d.binaries| - 1 <= Strings.Int32Max ==>
        forall a, b :: 0 <= a < b < |d.binaries| - 1 ==>
          nameOf(d.binaries[a].image) != nameOf(d.binaries[b].image)
  {
    var images := ConvertAll(s, loadFull, full, convert, n).1;
    CreateFb2Binaries(s, loadFull, full, convert, n);
    ConvertAllNames(s, loadFull, full, convert, nameOf, n);
    if n as int + |images| <= Strings.Int32Max {
      SequenceDistinct(images, nameOf, n);
    }
  }


  // ---------------------------------------------------------------------------------------
  // CreateFb2, older revision
  // ---------------------------------------------------------------------------------------

  /** One group of the older input: the feed's title and its entries. */
  datatype FeedGroup = FeedGroup(title: string, entries: seq<FeedEntry>)

  /** The notice the older revision appends to the feed's own content, "[The full content
      could not be loaded]" in Russian. */
  const LegacyNotice: string := "<hr/>[Полное содержание не может быть загружено]"

  /** The older entry content: `FullContent.Get(e.Link) ?? (e.Content + notice)` when
      LoadFullContent is on and Exists(e.Link) holds. The older Exists throws for a null link,
      and the older Get lets the exceptions of ProcessContent through; `full(link)` stands for
      that Get. */
  function LegacyEntryContent(e: FeedEntry, loadFull: bool, full: string -> Result<Option<string>>): Result<string>
  {
    if !loadFull then Success(e.content)
    else
      match LegacyFullContent.Exists(e.link)
      case Failure(x) => Failure(x)
      case Success(supported) =>
        if !supported then Success(e.content)
        else
          match full(e.link.value)
          case Failure(x) => Failure(x)
          case Success(None) => Success(e.content + LegacyNotice)
          case Success(Some(article)) => Success(article)
  }

  /** The entries of one group converted in order from image counter n, with the images
      collected; the first exception ends it. */
  function LegacyConvertGroup<B>(title: string, s: seq<FeedEntry>, loadFull: bool,
                                 full: string -> Result<Option<string>>,
                                 convert: (string, Images.Int32) -> Converted<B>, n: Images.Int32)
    : (r: Result<(seq<Entry>, seq<B>)>)
    ensures r.Success? ==> |r.value.0| == |s| && forall k :: 0 <= k < |s| ==> r.value.0[k].feedTitle == title
    ensures r.Success? <==> forall k :: 0 <= k < |s| ==> LegacyEntryContent(s[k], loadFull, full).Success?
  {
    if s == [] then Success(([], []))
    else
      match LegacyEntryContent(s[0], loadFull, full)
      case Failure(x) => Failure(x)
      case Success(content) =>
        var c := convert(content, n);
        match LegacyConvertGroup(title, s[1..], loadFull, full, convert, Images.Advance(n, |c.images|))
        case Failure(x) => Failure(x)
        case Success(rest) =>
          Success(([Entry(title, s[0].title, s[0].published, c.content)] + rest.0, c.images + rest.1))
  }

  /** All groups converted in order, the counter running on from one group to the next: the
      sections and the collected images. */
  function LegacyConvertAll<B>(groups: seq<FeedGroup>, loadFull: bool, full: string -> Result<Option<string>>,
                               convert: (string, Images.Int32) -> Converted<B>, n: Images.Int32)
    : (r: Result<(seq<Section>, seq<B>)>)
    ensures r.Success? ==> |r.value.0| == |groups|
    ensures r.Success? ==> forall k :: 0 <= k < |groups| ==>
      r.value.0[k].title == groups[k].title && |r.value.0[k].entries| == |groups[k].entries|
  {
    if groups == [] then Success(([], []))
    else
      match LegacyConvertGroup(groups[0].title, groups[0].entries, loadFull, full, convert, n)
      case Failure(x) => Failure(x)
      case Success(first) =>
        match LegacyConvertAll(groups[1..], loadFull, full, convert, Images.Advance(n, |first.1|))
        case Failure(x) => Failure(x)
        case Success(rest) =>
          Success(([Section(groups[0].title, first.0)] + rest.0, first.1 + rest.1))
  }

  /** Within a group the images are named one counter step after another. */
  lemma {:induction false} LegacyGroupNames<B>(title: string, s: seq<FeedEntry>, loadFull: bool,
                                               full: string -> Result<Option<string>>,
                                               convert: (string, Images.Int32) -> Converted<B>,
                                               nameOf: B -> string, n: Images.Int32)
    requires NamesFrom(convert, nameOf)
    requires LegacyConvertGroup(title, s, loadFull, full, convert, n).Success?
    ensures NamedInSequence(LegacyConvertGroup(title, s, loadFull, full, convert, n).value.1, nameOf, n)
  {
    if s != [] {
      var c := convert(LegacyEntryContent(s[0], loadFull, full).value, n);
      var m := Images.Advance(n, |c.images|);
      LegacyGroupNames(title, s[1..], loadFull, full, convert, nameOf, m);
      SequenceContinues(c.images, LegacyConvertGroup(title, s[1..], loadFull, full, convert, m).value.1, nameOf, n);
    }
  }

  /** Across the groups too. */
  lemma {:induction false} LegacyConvertAllNames<B>(groups: seq<FeedGroup>, loadFull: bool,
                                                    full: string -> Result<Option<string>>,
                                                    convert: (string, Images.Int32) -> Converted<B>,
                                                    nameOf: B -> string, n: Images.Int32)
    requires NamesFrom(convert, nameOf)
    requires LegacyConvertAll(groups, loadFull, full, convert, n).Success?
    ensures NamedInSequence(LegacyConvertAll(groups, loadFull, full, convert, n).value.1, nameOf, n)
  {
    if groups != [] {
      var first := LegacyConvertGroup(groups[0].title, groups[0].entries, loadFull, full, convert, n).value;
      var m := Images.Advance(n, |first.1|);
      LegacyGroupNames(groups[0].title, groups[0].entries, loadFull, full, convert, nameOf, n);
      LegacyConvertAllNames(groups[1..], loadFull, full, convert, nameOf, m);
      SequenceContinues(first.1, LegacyConvertAll(groups[1..], loadFull, full, convert, m).value.1, nameOf, n);
    }
  }

  /** The entries of all groups, counted. */
  function GroupSizes(groups: seq<FeedGroup>): nat
  {
    if groups == [] then 0 else |groups[0].entries| + GroupSizes(groups[1..])
  }

  lemma {:induction false} SizesKept(gs: seq<Section>, groups: seq<FeedGroup>)
    requires |gs| == |groups|
    requires forall k :: 0 <= k < |groups| ==> |gs[k].entries| == |groups[k].entries|
    ensures EntryCount(gs) == GroupSizes(groups)
  {
    if gs != [] {
      SizesKept(gs[1..], groups[1..]);
    }
  }

  /** ContentProcess.CreateFb2 (older revision), called when the static image counter holds
      n: the groups arrive already formed; their entries are converted one after the other
      (the parallel loop is modelled sequentially) and the groups ordered by title. A null
      group sequence throws at the first Sum, whose parameter is named "source". */
  function LegacyCreateFb2<B>(feedEntries: Option<seq<FeedGroup>>, loadFull: bool,
                              full: string -> Result<Option<string>>,
                              convert: (string, Images.Int32) -> Converted<B>, n: Images.Int32)
    : (r: Result<Document<B>>)
    ensures feedEntries.None? ==> r == Failure(ArgumentNull("source"))
    ensures feedEntries.Some? ==>
      (r.Success? <==> LegacyConvertAll(feedEntries.value, loadFull, full, convert, n).Success?)
    ensures r.Success? ==> (feedEntries.Some? &&
      r.value.feeds == |feedEntries.value| && r.value.entries == GroupSizes(feedEntries.value))
  {
    if feedEntries.None? then Failure(ArgumentNull("source"))
    else
      match LegacyConvertAll(feedEntries.value, loadFull, full, convert, n)
      case Failure(x) => Failure(x)
      case Success(converted) =>
        SizesKept(converted.0, feedEntries.value);
        Success(Compose(converted.0, converted.1))
  }

  /** The older body: the converted groups, each once, ordered by title, each with its
      entries newest first. */
  lemma LegacyCreateFb2Body<B>(groups: seq<FeedGroup>, loadFull: bool, full: string -> Result<Option<string>>,
                               convert: (string, Images.Int32) -> Converted<B>, n: Images.Int32)
    requires LegacyConvertAll(groups, loadFull, full, convert, n).Success?
    ensures var d := LegacyCreateFb2(Some(groups), loadFull, full, convert, n).value;
      var gs := LegacyConvertAll(groups, loadFull, full, convert, n).value.0;
      Sorted(d.body, TitleFirst) &&
      multiset(d.body) == multiset(MapSections(gs)) &&
      forall i :: 0 <= i < |d.body| ==> Sorted(d.body[i].entries, NewestFirst)
  {
    var gs := LegacyConvertAll(groups, loadFull, full, convert, n).value.0;
    BodyOrdered(gs);
    BodySections(gs);
  }

  /** The older binaries: the collected images, named one counter step after another across
      all groups, then the cover; unless the counter wraps, no two share a name. */
  lemma LegacyCreateFb2ImageNames<B>(groups: seq<FeedGroup>, loadFull: bool, full: string -> Result<Option<string>>,
                                     convert: (string, Images.Int32) -> Converted<B>, nameOf: B -> string,
                                     n: Images.Int32)
    requires NamesFrom(convert, nameOf)
    requires LegacyConvertAll(groups, loadFull, full, convert, n).Success?
    ensures var d := LegacyCreateFb2(Some(groups), loadFull, full, convert, n).value;
      d.binaries[|d.binaries| - 1] == Cover &&
      forall k :: 0 <= k < |d.binaries| - 1 ==>
        d.binaries[k].Image? && nameOf(d.binaries[k].image) == Images.ImageName(Images.Advance(n, k + 1))
    ensures var d := LegacyCreateFb2(Some(groups), loadFull, full, convert, n).value;
      n as int + |d.binaries| - 1 <= Strings.Int32Max ==>
        forall a, b :: 0 <= a < b < |d.binaries| - 1 ==>
          nameOf(d.binaries[a].image) != nameOf(d.binaries[b].image)
  {
    var converted := LegacyConvertAll(groups, loadFull, full, convert, n).value;
    ComposeBinaries(converted.0, converted.1);
    LegacyConvertAllNames(groups, loadFull, full, convert, nameOf, n);
    if n as int + |converted.1| <= Strings.Int32Max {
      SequenceDistinct(converted.1, nameOf, n);
    }
  }

  /** Where the revisions differ on an article that could not be fetched: the newer one
      converts the notice alone, the older one keeps the feed's content and appends its
      notice. */
  lemma FailedFetchAcrossRevisions(e: FeedEntry, full: string -> Option<string>)
    requires e.link.Some? && FullContent.Exists(e.link) && full(e.link.value).None?
    ensures EntryContent(e, true, full) == NoticeHead + e.link.value + NoticeTail
    ensures LegacyEntryContent(e, true, link => Success(full(link))) == Success(e.content + LegacyNotice)
  {
    LegacyFullContent.ExistsAcrossRevisions(e.link);
  }
}
