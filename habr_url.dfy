/** HabrContent.IsMyUrl and HabrContent.ProcessUrl (both revisions carry the same regex):
    a recogniser for the pattern

      ^(https?://)?(www\.)?(m\.)?(habra)?habr.ru/((blogs/\w+)|(linker/go)|(company/\w+/blog)|(post))/(?<Num>\d+)/?$

    matched case-insensitively, and the rewrite of a matching URL to the mobile post address.
    The recogniser follows the regex engine's priorities: an optional group is tried first
    with its text, then without. The unescaped '.' in "habr.ru" matches any character but
    '\n', and `$` also matches in front of a final '\n'. */
module HabrUrls {
  import opened Wrappers
  import opened Strings
  import opened CollectionUtils

  /** `\w` on ASCII: a letter, a digit or '_'. */
  predicate IsWordChar(c: char)
  {
    'a' <= c <= 'z' || 'A' <= c <= 'Z' || IsDigit(c) || c == '_'
  }

  /** What may follow the number: "/?" and the end of the text, or a final '\n'. */
  predicate IsNumberEnd(e: string)
  {
    e == "" || e == "/" || e == "\n" || e == "/\n"
  }

  /** p is a prefix of s, compared character by character. */
  predicate Prefix(s: string, p: string)
    ensures Prefix(s, p) ==> |p| <= |s|
    decreases |p|
  {
    p == [] || (s != [] && s[0] == p[0] && Prefix(s[1..], p[1..]))
  }

  lemma {:induction false} PrefixOfAppend(p: string, t: string)
    ensures Prefix(p + t, p)
    decreases |p|
  {
    if p != [] {
      assert (p + t)[1..] == p[1..] + t;
      PrefixOfAppend(p[1..], t);
    }
  }

  /** The parts of the pattern, in order; a scan at a stage matches the rest of the pattern
      from that part on. */
  datatype Stage =
    | SchemeStage      // (https?://)?
    | WwwStage         // (www\.)?
    | MobileStage      // (m\.)?
    | HabraStage       // (habra)?
    | SiteStage        // habr.ru/
    | PathStage        // the alternation of sections, then '/'
    | NamedStage(sep: string)   // \w+ and the text after it inside the section
    | NumberStage      // (?<Num>\d+)/?$

  function Rank(st: Stage): nat
  {
    match st
    case SchemeStage => 7
    case WwwStage => 6
    case MobileStage => 5
    case HabraStage => 4
    case SiteStage => 3
    case PathStage => 2
    case NamedStage(_) => 1
    case NumberStage => 0
  }

  /** The Num group of a match of the pattern from stage `st` on against the whole of s, if
      there is one. An optional group is tried with its text first and skipped only if that
      fails, as the regex engine backtracks. */
  function Scan(s: string, st: Stage): (r: Option<string>)
    ensures r.Some? ==> r.value != [] && AllDigits(r.value)
    decreases |s|, Rank(st), 1
  {
    match st
    case SchemeStage => SchemeScan(s)
    case WwwStage => WwwScan(s)
    case MobileStage => MobileScan(s)
    case HabraStage => HabraScan(s)
    case SiteStage => SiteScan(s)
    case PathStage => PathScan(s)
    case NamedStage(sep) => NamedScan(s, sep)
    case NumberStage => NumberScan(s)
  }

  /** (https?://)? : "https://" is tried before "http://". */
  function SchemeScan(s: string): (r: Option<string>)
    ensures r.Some? ==> r.value != [] && AllDigits(r.value)
    decreases |s|, Rank(SchemeStage), 0
  {
    if Prefix(s, "https://") && Scan(s[8..], WwwStage).Some? then Scan(s[8..], WwwStage)
    else if Prefix(s, "http://") && Scan(s[7..], WwwStage).Some? then Scan(s[7..], WwwStage)
    else Scan(s, WwwStage)
  }

  /** (www\.)? */
  function WwwScan(s: string): (r: Option<string>)
    ensures r.Some? ==> r.value != [] && AllDigits(r.value)
    decreases |s|, Rank(WwwStage), 0
  {
    if Prefix(s, "www.") && Scan(s[4..], MobileStage).Some? then Scan(s[4..], MobileStage)
    else Scan(s, MobileStage)
  }

  /** (m\.)? */
  function MobileScan(s: string): (r: Option<string>)
    ensures r.Some? ==> r.value != [] && AllDigits(r.value)
    decreases |s|, Rank(MobileStage), 0
  {
    if Prefix(s, "m.") && Scan(s[2..], HabraStage).Some? then Scan(s[2..], HabraStage)
    else Scan(s, HabraStage)
  }

  /** (habra)? */
  function HabraScan(s: string): (r: Option<string>)
    ensures r.Some? ==> r.value != [] && AllDigits(r.value)
    decreases |s|, Rank(HabraStage), 0
  {
    if Prefix(s, "habra") && Scan(s[5..], SiteStage).Some? then Scan(s[5..], SiteStage)
    else Scan(s, SiteStage)
  }

  /** habr.ru/ : the unescaped '.' stands for any character but a line break. */
  function SiteScan(s: string): (r: Option<string>)
    ensures r.Some? ==> r.value != [] && AllDigits(r.value)
    decreases |s|, Rank(SiteStage), 0
  {
    if Prefix(s, "habr") && |s| > 4 && s[4] != '\n' && Prefix(s[5..], "ru/") then Scan(s[8..], PathStage)
    else None
  }

  /** ((blogs/\w+)|(linker/go)|(company/\w+/blog)|(post))/ */
  function PathScan(s: string): (r: Option<string>)
    ensures r.Some? ==> r.value != [] && AllDigits(r.value)
    decreases |s|, Rank(PathStage), 0
  {
    if Prefix(s, "blogs/") then Scan(s[6..], NamedStage("/"))
    else if Prefix(s, "linker/go/") then Scan(s[10..], NumberStage)
    else if Prefix(s, "company/") then Scan(s[8..], NamedStage("/blog/"))
    else if Prefix(s, "post/") then Scan(s[5..], NumberStage)
    else None
  }

  /** \w+ then sep: \w+ cannot give characters back, for the separator starts with '/'. */
  function NamedScan(s: string, sep: string): (r: Option<string>)
    ensures r.Some? ==> r.value != [] && AllDigits(r.value)
    decreases |s|, Rank(NamedStage(sep)), 0
  {
    var k := WhileEnd(s, IsWordChar);
    if k > 0 && Prefix(s[k..], sep) then Scan(s[k + |sep|..], NumberStage) else None
  }

  /** (?<Num>\d+)/?$ */
  function NumberScan(s: string): (r: Option<string>)
    ensures r.Some? ==> r.value != [] && AllDigits(r.value)
    decreases |s|, Rank(NumberStage), 0
  {
    var k := WhileEnd(s, IsDigit);
    if k > 0 && IsNumberEnd(s[k..]) then Some(s[..k]) else None
  }

  /** The Num group of a match of the whole URL, compared case-insensitively, if the URL
      matches. */
  function UrlNumber(url: string): Option<string>
  {
    Scan(ToLower(url), SchemeStage)
  }

  /** The replacement text "http://m.habr.ru/post/${Num}/". */
  function Canonical(n: string): string
  {
    "http://m.habr.ru/post/" + n + "/"
  }

  /** UrlRegex.Replace(url, "http://m.habr.ru/post/${Num}/"): the match covers the URL up to
      a final '\n', which stays behind the replacement. */
  function Canonicalised(url: string): string
  {
    match UrlNumber(url)
    case None => url
    case Some(n) => Canonical(n) + (if EndsWith(url, "\n") then "\n" else "")
  }

  /** IsMyUrl(url) */
  function IsMyUrl(url: Option<string>): (r: Result<bool>)
    ensures url.None? <==> r == Failure(ArgumentNull("url"))
  {
    if url.None? then Failure(ArgumentNull("url")) else Success(UrlNumber(url.value).Some?)
  }

  /** ProcessUrl(url) */
  function ProcessUrl(url: Option<string>): (r: Result<string>)
    ensures url.None? <==> r == Failure(ArgumentNull("url"))
  {
    if url.None? then Failure(ArgumentNull("url")) else Success(Canonicalised(url.value))
  }

  // ---------------------------------------------------------------------------------------
  // The URLs the pattern describes
  // ---------------------------------------------------------------------------------------

  datatype Section = Blogs(blog: string) | LinkerGo | Company(company: string) | Post

  function SectionText(c: Section): string
  {
    match c
    case Blogs(b) => "blogs/" + b
    case LinkerGo => "linker/go"
    case Company(b) => "company/" + b + "/blog"
    case Post => "post"
  }

  /** A word of the pattern: one or more `\w` characters. */
  predicate IsWord(w: string)
  {
    w != [] && forall i :: 0 <= i < |w| ==> IsWordChar(w[i])
  }

  /** One spelling of a URL the pattern matches, in lower case: each optional group present
      or not, the character standing for the unescaped '.', the section, the number, the
      optional '/' and a final '\n' (which `$` lets through). */
  datatype UrlForm = UrlForm(scheme: string, www: bool, mobile: bool, habra: bool, dot: char,
                             section: Section, number: string, slash: bool, newline: bool)

  predicate WellFormed(f: UrlForm)
  {
    (f.scheme == "" || f.scheme == "http://" || f.scheme == "https://") &&
    f.dot != '\n' &&
    (f.section.Blogs? ==> IsWord(f.section.blog)) &&
    (f.section.Company? ==> IsWord(f.section.company)) &&
    f.number != [] && AllDigits(f.number)
  }

  function NumberText(f: UrlForm): string
  {
    f.number + (if f.slash then "/" else "") + (if f.newline then "\n" else "")
  }

  function PathText(f: UrlForm): string
  {
    SectionText(f.section) + "/" + NumberText(f)
  }

  function SiteText(f: UrlForm): string
  {
    "habr" + [f.dot] + "ru/" + PathText(f)
  }

  function HostText(f: UrlForm): string
  {
    (if f.habra then "habra" else "") + SiteText(f)
  }

  function MobileText(f: UrlForm): string
  {
    (if f.mobile then "m." else "") + HostText(f)
  }

  function WwwText(f: UrlForm): string
  {
    (if f.www then "www." else "") + MobileText(f)
  }

  function UrlText(f: UrlForm): string
  {
    f.scheme + WwwText(f)
  }

  /** The canonical address is one of these URLs. */
  function CanonicalForm(n: string, newline: bool): UrlForm
  {
    UrlForm("http://", false, true, false, '.', Post, n, true, newline)
  }

  // ---------------------------------------------------------------------------------------
  // Every such URL is recognised, with its own number
  // ---------------------------------------------------------------------------------------

  /** The run of characters satisfying q at the start of a + b is a when b does not go on
      with one. */
  lemma {:induction false} WhileEndPrefix<T>(a: seq<T>, b: seq<T>, q: T -> bool)
    requires forall i :: 0 <= i < |a| ==> q(a[i])
    requires b == [] || !q(b[0])
    ensures WhileEnd(a + b, q) == |a|
    decreases |a|
  {
    if a != [] {
      assert (a + b)[1..] == a[1..] + b;
      WhileEndPrefix(a[1..], b, q);
    } else {
      assert a + b == b;
    }
  }

  lemma NumberLayer(n: string, e: string)
    requires n != [] && AllDigits(n) && IsNumberEnd(e)
    ensures Scan(n + e, NumberStage) == Some(n)
  {
    WhileEndPrefix(n, e, IsDigit);
    assert (n + e)[|n|..] == e && (n + e)[..|n|] == n;
  }

  lemma NamedLayer(w: string, sep: string, rest: string)
    requires IsWord(w) && sep != [] && sep[0] == '/'
    ensures Scan(w + sep + rest, NamedStage(sep)) == Scan(rest, NumberStage)
  {
    var s := w + sep + rest;
    assert s == w + (sep + rest);
    WhileEndPrefix(w, sep + rest, IsWordChar);
    assert s[|w|..] == sep + rest;
    PrefixOfAppend(sep, rest);
    assert s[|w| + |sep|..] == rest;
  }

  lemma BlogsLayer(b: string, t: string)
    requires IsWord(b)
    ensures Scan("blogs/" + b + "/" + t, PathStage) == Scan(t, NumberStage)
  {
    var s := "blogs/" + b + "/" + t;
    assert s == "blogs/" + (b + "/" + t);
    PrefixOfAppend("blogs/", b + "/" + t);
    assert s[6..] == b + "/" + t;
    NamedLayer(b, "/", t);
  }

  lemma LinkerLayer(t: string)
    ensures Scan("linker/go" + "/" + t, PathStage) == Scan(t, NumberStage)
  {
    var s := "linker/go" + "/" + t;
    assert s == "linker/go/" + t;
    PrefixOfAppend("linker/go/", t);
    assert s[0] == 'l' && s[10..] == t;
  }

  lemma CompanyLayer(b: string, t: string)
    requires IsWord(b)
    ensures Scan("company/" + b + "/blog" + "/" + t, PathStage) == Scan(t, NumberStage)
  {
    var s := "company/" + b + "/blog" + "/" + t;
    var rest := b + "/blog/" + t;
    assert s == "company/" + rest;
    PrefixOfAppend("company/", rest);
    assert s[0] == 'c' && s[8..] == rest;
    assert !Prefix(s, "blogs/") && !Prefix(s, "linker/go/");
    NamedLayer(b, "/blog/", t);
    assert PathScan(s) == Scan(rest, NamedStage("/blog/"));
  }

  lemma PostLayer(t: string)
    ensures Scan("post" + "/" + t, PathStage) == Scan(t, NumberStage)
  {
    var s := "post" + "/" + t;
    assert s == "post/" + t;
    PrefixOfAppend("post/", t);
    assert s[0] == 'p' && s[5..] == t;
  }

  lemma SiteLayer(c: char, p: string)
    requires c != '\n'
    ensures Scan("habr" + [c] + "ru/" + p, SiteStage) == Scan(p, PathStage)
  {
    var s := "habr" + [c] + "ru/" + p;
    assert s == "habr" + ([c] + "ru/" + p);
    PrefixOfAppend("habr", [c] + "ru/" + p);
    assert s[5..] == "ru/" + p;
    PrefixOfAppend("ru/", p);
    assert s[4] == c && s[8..] == p;
  }

  /** What a text the rest of the pattern accepts starts with, stage by stage. */
  lemma SiteShape(t: string)
    requires Scan(t, SiteStage).Some?
    ensures |t| > 7 && t[0] == 'h' && t[1] == 'a' && t[5] == 'r'
  {
    assert Prefix(t[1..], "abr");
    assert Prefix(t[5..], "ru/");
  }

  lemma HabraShape(t: string)
    requires Scan(t, HabraStage).Some?
    ensures |t| > 1 && t[0] == 'h' && t[1] == 'a'
  {
    if !(Prefix(t, "habra") && Scan(t[5..], SiteStage).Some?) {
      SiteShape(t);
    } else {
      assert Prefix(t[1..], "abra");
    }
  }

  lemma MobileShape(t: string)
    requires Scan(t, MobileStage).Some?
    ensures |t| > 1 && (t[0] == 'm' || (t[0] == 'h' && t[1] == 'a'))
  {
    if !(Prefix(t, "m.") && Scan(t[2..], HabraStage).Some?) {
      HabraShape(t);
    }
  }

  lemma WwwShape(t: string)
    requires Scan(t, WwwStage).Some?
    ensures |t| > 1 && (t[0] == 'w' || t[0] == 'm' || (t[0] == 'h' && t[1] == 'a'))
  {
    if !(Prefix(t, "www.") && Scan(t[4..], MobileStage).Some?) {
      MobileShape(t);
    }
  }

  /** An optional group present in the text is taken ... */
  lemma HabraTaken(t: string)
    requires Scan(t, SiteStage).Some?
    ensures Scan("habra" + t, HabraStage) == Scan(t, SiteStage)
  {
    PrefixOfAppend("habra", t);
    assert ("habra" + t)[5..] == t;
  }

  /** ... and one absent from it is skipped. */
  lemma HabraSkipped(t: string)
    requires Scan(t, SiteStage).Some?
    ensures Scan(t, HabraStage) == Scan(t, SiteStage)
  {
    SiteShape(t);
    if Scan(t[5..], SiteStage).Some? {
      SiteShape(t[5..]);
      assert false;
    }
  }

  lemma MobileTaken(t: string)
    requires Scan(t, HabraStage).Some?
    ensures Scan("m." + t, MobileStage) == Scan(t, HabraStage)
  {
    PrefixOfAppend("m.", t);
    assert ("m." + t)[2..] == t;
  }

  lemma MobileSkipped(t: string)
    requires Scan(t, HabraStage).Some?
    ensures Scan(t, MobileStage) == Scan(t, HabraStage)
  {
    HabraShape(t);
  }

  lemma WwwTaken(t: string)
    requires Scan(t, MobileStage).Some?
    ensures Scan("www." + t, WwwStage) == Scan(t, MobileStage)
  {
    PrefixOfAppend("www.", t);
    assert ("www." + t)[4..] == t;
  }

  lemma WwwSkipped(t: string)
    requires Scan(t, MobileStage).Some?
    ensures Scan(t, WwwStage) == Scan(t, MobileStage)
  {
    MobileShape(t);
  }

  lemma SchemeTaken(p: string, t: string)
    requires p == "http://" || p == "https://"
    requires Scan(t, WwwStage).Some?
    ensures Scan(p + t, SchemeStage) == Scan(t, WwwStage)
  {
    var s := p + t;
    PrefixOfAppend(p, t);
    assert s[|p|..] == t;
    if p == "http://" {
      assert s[4] == ':';
    }
  }

  lemma SchemeSkipped(t: string)
    requires Scan(t, WwwStage).Some?
    ensures Scan(t, SchemeStage) == Scan(t, WwwStage)
  {
    WwwShape(t);
  }

  lemma SectionLayer(f: UrlForm)
    requires WellFormed(f)
    ensures Scan(PathText(f), PathStage) == Some(f.number)
  {
    var t := NumberText(f);
    NumberLayer(f.number, (if f.slash then "/" else "") + (if f.newline then "\n" else ""));
    assert t == f.number + ((if f.slash then "/" else "") + (if f.newline then "\n" else ""));
    match f.section
    case Blogs(b) => BlogsLayer(b, t);
    case LinkerGo => LinkerLayer(t);
    case Company(b) => CompanyLayer(b, t);
    case Post => PostLayer(t);
  }

  lemma SiteForm(f: UrlForm)
    requires WellFormed(f)
    ensures Scan(SiteText(f), SiteStage) == Some(f.number)
  {
    SectionLayer(f);
    SiteLayer(f.dot, PathText(f));
  }

  lemma HostForm(f: UrlForm)
    requires WellFormed(f)
    ensures Scan(HostText(f), HabraStage) == Some(f.number)
  {
    var site := SiteText(f);
    SiteForm(f);
    if f.habra {
      HabraTaken(site);
    } else {
      assert HostText(f) == site;
      HabraSkipped(site);
    }
  }

  lemma MobileForm(f: UrlForm)
    requires WellFormed(f)
    ensures Scan(MobileText(f), MobileStage) == Some(f.number)
  {
    var host := HostText(f);
    HostForm(f);
    if f.mobile {
      MobileTaken(host);
    } else {
      assert MobileText(f) == host;
      MobileSkipped(host);
    }
  }

  lemma WwwForm(f: UrlForm)
    requires WellFormed(f)
    ensures Scan(WwwText(f), WwwStage) == Some(f.number)
  {
    var mobile := MobileText(f);
    MobileForm(f);
    if f.www {
      WwwTaken(mobile);
    } else {
      assert WwwText(f) == mobile;
      WwwSkipped(mobile);
    }
  }

  /** Every URL of the described shape is recognised, and its Num group is its number. */
  lemma RecognisesForm(f: UrlForm)
    requires WellFormed(f)
    ensures Scan(UrlText(f), SchemeStage) == Some(f.number)
  {
    var www := WwwText(f);
    WwwForm(f);
    if f.scheme == "" {
      assert UrlText(f) == www;
      SchemeSkipped(www);
    } else {
      SchemeTaken(f.scheme, www);
    }
  }

  /** Letters are compared without regard to case. */
  lemma IgnoresCase(url: string)
    ensures UrlNumber(ToLower(url)) == UrlNumber(url)
  {
    ToLowerIdempotent(url);
  }

  lemma ToLowerOfLower(s: string)
    requires NoUpper(s)
    ensures ToLower(s) == s
  {
  }

  /** A URL whose lower-case form has the described shape is recognised. */
  lemma RecognisesUrl(url: string, f: UrlForm)
    requires WellFormed(f) && ToLower(url) == UrlText(f)
    ensures UrlNumber(url) == Some(f.number)
    ensures IsMyUrl(Some(url)) == Success(true)
    ensures ProcessUrl(Some(url)) ==
      Success(Canonical(f.number) + (if EndsWith(url, "\n") then "\n" else ""))
  {
    RecognisesForm(f);
  }

  predicate NoUpper(s: string)
  {
    forall i :: 0 <= i < |s| ==> !('A' <= s[i] <= 'Z')
  }

  lemma NoUpperAppend(a: string, b: string)
    requires NoUpper(a) && NoUpper(b)
    ensures NoUpper(a + b)
  {
    forall i | 0 <= i < |a + b|
      ensures !('A' <= (a + b)[i] <= 'Z')
    {
      if i >= |a| {
        assert (a + b)[i] == b[i - |a|];
      }
    }
  }

  lemma EndsAppend(a: string, b: string)
    requires b != []
    ensures EndsWith(a + b, "\n") <==> EndsWith(b, "\n")
  {
    assert (a + b)[|a + b| - 1] == b[|b| - 1];
  }

  /** The parts of a form spelled by the user carry no capital letters. */
  predicate LowerCase(f: UrlForm)
  {
    !('A' <= f.dot <= 'Z') &&
    (f.section.Blogs? ==> NoUpper(f.section.blog)) &&
    (f.section.Company? ==> NoUpper(f.section.company))
  }

  /** Layer by layer, the text of a lower-case form has no capital letters and ends in '\n'
      exactly when the form has the final line break. */
  lemma NumberFacts(f: UrlForm)
    requires WellFormed(f)
    ensures NoUpper(NumberText(f))
    ensures EndsWith(NumberText(f), "\n") <==> f.newline
  {
    var tail := (if f.slash then "/" else "") + (if f.newline then "\n" else "");
    assert NumberText(f) == f.number + tail;
    assert NoUpper(f.number);
    if tail == [] {
      assert NumberText(f) == f.number;
      assert f.number[|f.number| - 1] != '\n';
    } else {
      assert tail[|tail| - 1] == (if f.newline then '\n' else '/');
      NoUpperAppend(f.number, tail);
      EndsAppend(f.number, tail);
    }
  }

  lemma SectionFacts(f: UrlForm)
    requires WellFormed(f) && LowerCase(f)
    ensures NoUpper(SectionText(f.section) + "/")
  {
    var sec := SectionText(f.section);
    match f.section {
      case Blogs(b) =>
        NoUpperAppend("blogs/", b);
        assert NoUpper(sec);
      case LinkerGo =>
        assert NoUpper(sec);
      case Company(b) =>
        NoUpperAppend("company/", b);
        NoUpperAppend("company/" + b, "/blog");
        assert NoUpper(sec);
      case Post =>
        assert NoUpper(sec);
    }
    NoUpperAppend(sec, "/");
  }

  lemma SiteNoUpper(f: UrlForm)
    requires WellFormed(f) && LowerCase(f)
    ensures NoUpper(SiteText(f))
  {
    var host := "habr" + [f.dot] + "ru/";
    NoUpperAppend("habr", [f.dot]);
    NoUpperAppend("habr" + [f.dot], "ru/");
    SectionFacts(f);
    NumberFacts(f);
    NoUpperAppend(SectionText(f.section) + "/", NumberText(f));
    NoUpperAppend(host, PathText(f));
  }

  lemma SiteEnds(f: UrlForm)
    requires WellFormed(f)
    ensures EndsWith(SiteText(f), "\n") <==> f.newline
  {
    NumberFacts(f);
    EndsAppend(SectionText(f.section) + "/", NumberText(f));
    EndsAppend("habr" + [f.dot] + "ru/", PathText(f));
  }

  lemma UrlNoUpper(f: UrlForm)
    requires WellFormed(f) && LowerCase(f)
    ensures NoUpper(UrlText(f))
  {
    SiteNoUpper(f);
    NoUpperAppend(if f.habra then "habra" else "", SiteText(f));
    NoUpperAppend(if f.mobile then "m." else "", HostText(f));
    NoUpperAppend(if f.www then "www." else "", MobileText(f));
    NoUpperAppend(f.scheme, WwwText(f));
  }

  lemma UrlEnds(f: UrlForm)
    requires WellFormed(f)
    ensures EndsWith(UrlText(f), "\n") <==> f.newline
  {
    SiteEnds(f);
    EndsAppend(if f.habra then "habra" else "", SiteText(f));
    EndsAppend(if f.mobile then "m." else "", HostText(f));
    EndsAppend(if f.www then "www." else "", MobileText(f));
    EndsAppend(f.scheme, WwwText(f));
  }

  /** A URL of the described shape written in lower case is recognised, and ProcessUrl
      rewrites it to the post's canonical address. */
  lemma RecognisesLowerForm(f: UrlForm)
    requires WellFormed(f) && LowerCase(f)
    ensures UrlNumber(UrlText(f)) == Some(f.number)
    ensures IsMyUrl(Some(UrlText(f))) == Success(true)
    ensures ProcessUrl(Some(UrlText(f))) == Success(Canonical(f.number) + (if f.newline then "\n" else ""))
  {
    UrlNoUpper(f);
    UrlEnds(f);
    ToLowerOfLower(UrlText(f));
    RecognisesUrl(UrlText(f), f);
  }

  // ---------------------------------------------------------------------------------------
  // Every recognised URL is one of them
  // ---------------------------------------------------------------------------------------

  lemma {:induction false} PrefixIs(s: string, p: string)
    requires Prefix(s, p)
    ensures s == p + s[|p|..]
    decreases |p|
  {
    if p != [] {
      PrefixIs(s[1..], p[1..]);
      assert s[1..][|p| - 1..] == s[|p|..];
    }
  }

  /** What the number stage accepts: the digits, then the optional '/' and final '\n'. */
  lemma NumberSound(s: string) returns (slash: bool, newline: bool)
    requires Scan(s, NumberStage).Some?
    ensures s == Scan(s, NumberStage).value + (if slash then "/" else "") + (if newline then "\n" else "")
  {
    var k := WhileEnd(s, IsDigit);
    var e := s[k..];
    assert s == s[..k] + e;
    slash := e == "/" || e == "/\n";
    newline := e == "\n" || e == "/\n";
  }

  /** What a word stage accepts: a word, the separator, then what the number stage accepts. */
  lemma NamedSound(s: string, sep: string) returns (w: string, rest: string)
    requires Scan(s, NamedStage(sep)).Some?
    ensures IsWord(w) && s == w + sep + rest && Scan(s, NamedStage(sep)) == Scan(rest, NumberStage)
  {
    var k := WhileEnd(s, IsWordChar);
    w, rest := s[..k], s[k + |sep|..];
    PrefixIs(s[k..], sep);
    assert s[k..][|sep|..] == rest;
    assert s == w + s[k..];
  }

  /** What the path stage accepts: one of the four sections, '/', then what the number stage
      accepts. */
  lemma SectionSound(s: string) returns (section: Section, t: string)
    requires Scan(s, PathStage).Some?
    ensures s == SectionText(section) + "/" + t && Scan(s, PathStage) == Scan(t, NumberStage)
    ensures section.Blogs? ==> IsWord(section.blog)
    ensures section.Company? ==> IsWord(section.company)
  {
    if Prefix(s, "blogs/") {
      section, t := BlogsSound(s);
    } else if Prefix(s, "linker/go/") {
      PrefixIs(s, "linker/go/");
      section, t := LinkerGo, s[10..];
    } else if Prefix(s, "company/") {
      section, t := CompanySound(s);
    } else {
      PrefixIs(s, "post/");
      section, t := Post, s[5..];
    }
  }

  /** A fixed prefix, then what a word stage accepts. */
  lemma PrefixedNamedSound(s: string, p: string, sep: string) returns (w: string, rest: string)
    requires Prefix(s, p) && Scan(s[|p|..], NamedStage(sep)).Some?
    ensures IsWord(w) && s == p + (w + sep + rest)
    ensures Scan(s[|p|..], NamedStage(sep)) == Scan(rest, NumberStage)
  {
    PrefixIs(s, p);
    w, rest := NamedSound(s[|p|..], sep);
  }

  lemma BlogsSound(s: string) returns (section: Section, t: string)
    requires Prefix(s, "blogs/") && Scan(s[6..], NamedStage("/")).Some?
    ensures s == SectionText(section) + "/" + t && Scan(s[6..], NamedStage("/")) == Scan(t, NumberStage)
    ensures section.Blogs? && IsWord(section.blog)
  {
    var w, rest := PrefixedNamedSound(s, "blogs/", "/");
    section, t := Blogs(w), rest;
    BlogsText(w, rest);
  }

  lemma BlogsText(w: string, rest: string)
    ensures "blogs/" + (w + "/" + rest) == SectionText(Blogs(w)) + "/" + rest
  {
    var b := "blogs/";
    assert b + (w + "/" + rest) == (b + w) + "/" + rest;
  }

  lemma CompanySound(s: string) returns (section: Section, t: string)
    requires Prefix(s, "company/") && Scan(s[8..], NamedStage("/blog/")).Some?
    ensures s == SectionText(section) + "/" + t && Scan(s[8..], NamedStage("/blog/")) == Scan(t, NumberStage)
    ensures section.Company? && IsWord(section.company)
  {
    var w, rest := PrefixedNamedSound(s, "company/", "/blog/");
    section, t := Company(w), rest;
    CompanyText(w, rest);
  }

  lemma CompanyText(w: string, rest: string)
    ensures "company/" + (w + "/blog/" + rest) == SectionText(Company(w)) + "/" + rest
  {
    assert "/blog/" == "/blog" + "/";
  }

  /** What the path stage accepts is the path text of a well-formed form. */
  lemma PathSound(s: string) returns (f: UrlForm)
    requires Scan(s, PathStage).Some?
    ensures WellFormed(f) && PathText(f) == s && Some(f.number) == Scan(s, PathStage)
  {
    var section, t := SectionSound(s);
    var slash, newline := NumberSound(t);
    f := UrlForm("", false, false, false, '.', section, Scan(t, NumberStage).value, slash, newline);
  }

  /** What the site stage accepts is the site text of a well-formed form. */
  lemma SiteSound(s: string) returns (f: UrlForm)
    requires Scan(s, SiteStage).Some?
    ensures WellFormed(f) && SiteText(f) == s && Some(f.number) == Scan(s, SiteStage)
  {
    PrefixIs(s, "habr");
    PrefixIs(s[5..], "ru/");
    assert s[5..][3..] == s[8..];
    var g := PathSound(s[8..]);
    f := g.(dot := s[4]);
    assert PathText(f) == PathText(g);
    assert s == "habr" + [s[4]] + "ru/" + s[8..];
  }

  /** The optional groups, each present or absent as the scan took it. */
  lemma HostSound(s: string) returns (f: UrlForm)
    requires Scan(s, HabraStage).Some?
    ensures WellFormed(f) && HostText(f) == s && Some(f.number) == Scan(s, HabraStage)
  {
    if Prefix(s, "habra") && Scan(s[5..], SiteStage).Some? {
      PrefixIs(s, "habra");
      var g := SiteSound(s[5..]);
      f := g.(habra := true);
      assert SiteText(f) == SiteText(g);
    } else {
      var g := SiteSound(s);
      f := g.(habra := false);
      assert SiteText(f) == SiteText(g);
    }
  }

  lemma MobileSound(s: string) returns (f: UrlForm)
    requires Scan(s, MobileStage).Some?
    ensures WellFormed(f) && MobileText(f) == s && Some(f.number) == Scan(s, MobileStage)
  {
    if Prefix(s, "m.") && Scan(s[2..], HabraStage).Some? {
      PrefixIs(s, "m.");
      var g := HostSound(s[2..]);
      f := g.(mobile := true);
      assert HostText(f) == HostText(g);
    } else {
      var g := HostSound(s);
      f := g.(mobile := false);
      assert HostText(f) == HostText(g);
    }
  }

  lemma WwwSound(s: string) returns (f: UrlForm)
    requires Scan(s, WwwStage).Some?
    ensures WellFormed(f) && WwwText(f) == s && Some(f.number) == Scan(s, WwwStage)
  {
    if Prefix(s, "www.") && Scan(s[4..], MobileStage).Some? {
      PrefixIs(s, "www.");
      var g := MobileSound(s[4..]);
      f := g.(www := true);
      assert MobileText(f) == MobileText(g);
    } else {
      var g := MobileSound(s);
      f := g.(www := false);
      assert MobileText(f) == MobileText(g);
    }
  }

  lemma SchemeSound(s: string) returns (f: UrlForm)
    requires Scan(s, SchemeStage).Some?
    ensures WellFormed(f) && UrlText(f) == s && Some(f.number) == Scan(s, SchemeStage)
  {
    if Prefix(s, "https://") && Scan(s[8..], WwwStage).Some? {
      f := SchemeSoundWith(s, "https://");
    } else if Prefix(s, "http://") && Scan(s[7..], WwwStage).Some? {
      f := SchemeSoundWith(s, "http://");
    } else {
      f := SchemeSoundWith(s, "");
    }
  }

  /** What follows the scheme the stage took is the rest of a well-formed form. */
  lemma SchemeSoundWith(s: string, scheme: string) returns (f: UrlForm)
    requires scheme == "" || scheme == "http://" || scheme == "https://"
    requires Prefix(s, scheme) && Scan(s[|scheme|..], WwwStage).Some?
    ensures WellFormed(f) && UrlText(f) == s && Some(f.number) == Scan(s[|scheme|..], WwwStage)
  {
    PrefixIs(s, scheme);
    var g := WwwSound(s[|scheme|..]);
    f := g.(scheme := scheme);
    assert WwwText(f) == WwwText(g);
  }

  /** IsMyUrl accepts a URL, with Num group n, exactly when its lower-case form is a URL of
      the described shape whose number is n. */
  lemma UrlNumberIff(url: string, n: string)
    ensures UrlNumber(url) == Some(n) <==>
      exists f :: WellFormed(f) && ToLower(url) == UrlText(f) && f.number == n
  {
    if UrlNumber(url) == Some(n) {
      var f := SchemeSound(ToLower(url));
      assert WellFormed(f) && ToLower(url) == UrlText(f) && f.number == n;
    }
    if exists f :: WellFormed(f) && ToLower(url) == UrlText(f) && f.number == n {
      var f :| WellFormed(f) && ToLower(url) == UrlText(f) && f.number == n;
      RecognisesUrl(url, f);
    }
  }

  /** IsMyUrl(url) answers true exactly for the URLs whose lower-case form has the shape. */
  lemma IsMyUrlIff(url: string)
    ensures IsMyUrl(Some(url)) == Success(true) <==>
      exists f :: WellFormed(f) && ToLower(url) == UrlText(f)
  {
    if IsMyUrl(Some(url)) == Success(true) {
      UrlNumberIff(url, UrlNumber(url).value);
    }
    if exists f :: WellFormed(f) && ToLower(url) == UrlText(f) {
      var f :| WellFormed(f) && ToLower(url) == UrlText(f);
      RecognisesUrl(url, f);
    }
  }

  // ---------------------------------------------------------------------------------------
  // The canonical address
  // ---------------------------------------------------------------------------------------

  lemma CanonicalText(n: string, newline: bool)
    ensures UrlText(CanonicalForm(n, newline)) == Canonical(n) + (if newline then "\n" else "")
  {
  }

  /** The rewritten address is recognised again, with the same number. */
  lemma CanonicalRecognised(n: string, newline: bool)
    requires n != [] && AllDigits(n)
    ensures UrlNumber(Canonical(n) + (if newline then "\n" else "")) == Some(n)
  {
    CanonicalText(n, newline);
    RecognisesLowerForm(CanonicalForm(n, newline));
  }

  /** ProcessUrl's output is accepted by IsMyUrl whenever its input was, and rewriting it again
      changes nothing: calling ProcessUrl twice, as FullContent.Get does, fetches the same
      address as calling it once. */
  lemma ProcessUrlIdempotent(url: string)
    ensures UrlNumber(url).Some? ==> UrlNumber(Canonicalised(url)) == UrlNumber(url)
    ensures Canonicalised(Canonicalised(url)) == Canonicalised(url)
  {
    if UrlNumber(url).Some? {
      var n := UrlNumber(url).value;
      var nl := EndsWith(url, "\n");
      CanonicalRecognised(n, nl);
      var c := Canonicalised(url);
      assert c == Canonical(n) + (if nl then "\n" else "");
      assert c[|c| - 1] == (if nl then '\n' else '/');
      assert EndsWith(c, "\n") == nl;
    }
  }

  // ---------------------------------------------------------------------------------------
  // Examples
  // ---------------------------------------------------------------------------------------

  /** The six spellings of one post that HabrContent.Test() checks:
        http://habrahabr.ru/blogs/abcdefgh/123456
        http://habrahabr.ru/blogs/_abcd_efgh_/123456
        https://www.habrahabr.ru/blogs/abcdefgh/123456
        http://m.habrahabr.ru/blogs/abcdefgh/123456
        http://habrahabr.ru/blogs/abcdefgh/123456/
        http://habrahabr.ru/linker/go/123456/ */
  const TestForms: seq<UrlForm> := [
    UrlForm("http://", false, false, true, '.', Blogs("abcdefgh"), "123456", false, false),
    UrlForm("http://", false, false, true, '.', Blogs("_abcd_efgh_"), "123456", false, false),
    UrlForm("https://", true, false, true, '.', Blogs("abcdefgh"), "123456", false, false),
    UrlForm("http://", false, true, true, '.', Blogs("abcdefgh"), "123456", false, false),
    UrlForm("http://", false, false, true, '.', Blogs("abcdefgh"), "123456", true, false),
    UrlForm("http://", false, false, true, '.', LinkerGo, "123456", true, false)
  ]

  /** Each of them is a lower-case URL of the described shape, without a final line break. */
  lemma TestFormsShape(f: UrlForm)
    requires f in TestForms
    ensures WellFormed(f) && LowerCase(f) && f.number == "123456" && !f.newline
  {
    assert IsWord("abcdefgh") && NoUpper("abcdefgh");
    assert IsWord("_abcd_efgh_") && NoUpper("_abcd_efgh_");
    assert AllDigits("123456");
  }

  lemma CanonicalExample()
    ensures Canonical("123456") == "http://m.habr.ru/post/123456/"
  {
  }

  /** HabrContent.Test(): each of the six spellings is accepted with the number 123456 and
      rewritten to http://m.habr.ru/post/123456/. */
  lemma HabrTest(f: UrlForm)
    requires f in TestForms
    ensures UrlNumber(UrlText(f)) == Some("123456")
    ensures IsMyUrl(Some(UrlText(f))) == Success(true)
    ensures ProcessUrl(Some(UrlText(f))) == Success("http://m.habr.ru/post/123456/")
  {
    TestFormsShape(f);
    RecognisesLowerForm(f);
    CanonicalExample();
    assert Canonical("123456") + "" == Canonical("123456");
  }
}
