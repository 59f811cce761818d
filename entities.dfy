/** The entity rewrite of the older revision (ContentProcess.EntitiesHtmlToXml in the
    root-level ContentProcess.cs): each HTML named entity of a fixed table is replaced by the
    numeric XML entity at the same position of a second table. The tables are arrays of strings,
    so an entry is an `Option` (None for null). */
module Entities {
  import opened Wrappers
  import opened Strings

  /** The names of HTMLEntities, each written "&" + name + ";" ("amp" is listed twice). */
  const EntityNames: seq<string> :=
    ["quot", "amp", "amp", "lt", "gt", "nbsp", "iexcl", "cent", "pound", "curren", "yen", "brvbar",
     "sect", "uml", "copy", "ordf", "laquo", "not", "shy", "reg", "macr", "deg", "plusmn", "sup2",
     "sup3", "acute", "micro", "para", "middot", "cedil", "sup1", "ordm", "raquo", "frac14",
     "frac12", "frac34", "iquest", "Agrave", "Aacute", "Acirc", "Atilde", "Auml", "Aring", "AElig",
     "Ccedil", "Egrave", "Eacute", "Ecirc", "Euml", "Igrave", "Iacute", "Icirc", "Iuml", "ETH",
     "Ntilde", "Ograve", "Oacute", "Ocirc", "Otilde", "Ouml", "times", "Oslash", "Ugrave",
     "Uacute", "Ucirc", "Uuml", "Yacute", "THORN", "szlig", "agrave", "aacute", "acirc", "atilde",
     "auml", "aring", "aelig", "ccedil", "egrave", "eacute", "ecirc", "euml", "igrave", "iacute",
     "icirc", "iuml", "eth", "ntilde", "ograve", "oacute", "ocirc", "otilde", "ouml", "divide",
     "oslash", "ugrave", "uacute", "ucirc", "uuml", "yacute", "thorn", "yuml"]

  /** The numbers of XMLEntities, each written "&#" + number + ";". */
  const EntityNumbers: seq<string> :=
    ["34", "38", "38", "60", "62", "160", "161", "162", "163", "164", "165", "166", "167", "168",
     "169", "170", "171", "172", "173", "174", "175", "176", "177", "178", "179", "180", "181",
     "182", "183", "184", "185", "186", "187", "188", "189", "190", "191", "192", "193", "194",
     "195", "196", "197", "198", "199", "200", "201", "202", "203", "204", "205", "206", "207",
     "208", "209", "210", "211", "212", "213", "214", "215", "216", "217", "218", "219", "220",
     "221", "222", "223", "224", "225", "226", "227", "228", "229", "230", "231", "232", "233",
     "234", "235", "236", "237", "238", "239", "240", "241", "242", "243", "244", "245", "246",
     "247", "248", "249", "250", "251", "252", "253", "254", "255"]

  /** HTMLEntities */
  const HtmlEntities: seq<Option<string>> :=
    seq(|EntityNames|, k requires 0 <= k < |EntityNames| => Some("&" + EntityNames[k] + ";"))

  /** XMLEntities */
  const XmlEntities: seq<Option<string>> :=
    seq(|EntityNumbers|, k requires 0 <= k < |EntityNumbers| => Some("&#" + EntityNumbers[k] + ";"))

  /** The check that guards the loop: equal lengths and no null entry. */
  predicate TablesValid(html: seq<Option<string>>, xml: seq<Option<string>>)
  {
    |html| == |xml| && (forall k :: 0 <= k < |html| ==> html[k].Some?) &&
    (forall k :: 0 <= k < |xml| ==> xml[k].Some?)
  }

  /** The first n searched entries are non-empty, as String.Replace demands. */
  predicate Searchable(html: seq<Option<string>>, n: nat)
    requires n <= |html|
  {
    forall k :: 0 <= k < n ==> html[k].Some? && |html[k].value| > 0
  }

  /** The content after the first n replacements, applied in table order. */
  function Applied(content: string, html: seq<Option<string>>, xml: seq<Option<string>>, n: nat): string
    requires TablesValid(html, xml) && n <= |html| && Searchable(html, n)
  {
    if n == 0 then content
    else Replace(Applied(content, html, xml, n - 1), html[n - 1].value, xml[n - 1].value)
  }

  /** ContentProcess.EntitiesHtmlToXml: InvalidDataException when the tables are wrong; an
      empty searched entry makes String.Replace throw ArgumentException; otherwise every entry
      is replaced, in table order. The tables are parameters so that the guard can be stated. */
  method EntitiesHtmlToXml(content: string, html: seq<Option<string>>, xml: seq<Option<string>>)
    returns (r: Result<string>)
    ensures !TablesValid(html, xml) ==> r == Failure(InvalidData)
    ensures TablesValid(html, xml) && !Searchable(html, |html|) ==> r == Failure(Argument("oldValue"))
    ensures TablesValid(html, xml) && Searchable(html, |html|) ==> r == Success(Applied(content, html, xml, |html|))
  {
    if |html| != |xml| || None in html || None in xml {
      return Failure(InvalidData);
    }
    assert forall k :: 0 <= k < |html| ==> html[k] != None;
    assert forall k :: 0 <= k < |xml| ==> xml[k] != None;
    var text := content;
    var i := 0;
    while i < |html|
      invariant 0 <= i <= |html|
      invariant Searchable(html, i)
      invariant text == Applied(content, html, xml, i)
    {
      if |html[i].value| == 0 {
        return Failure(Argument("oldValue"));
      }
      text := Replace(text, html[i].value, xml[i].value);
      i := i + 1;
    }
    return Success(text);
  }

  /** Both built-in tables pass the guard, and every searched entry is a non-empty string that
      starts with '&'. */
  lemma BuiltInTablesValid()
    ensures |HtmlEntities| == |XmlEntities| == 101
    ensures TablesValid(HtmlEntities, XmlEntities)
    ensures Searchable(HtmlEntities, |HtmlEntities|)
    ensures forall k :: 0 <= k < |HtmlEntities| ==> HtmlEntities[k].value[0] == '&'
  {
  }

  /** Text that contains no '&' holds no entity and comes out as it went in. */
  lemma {:induction false} NoAmpersandUnchanged(content: string, html: seq<Option<string>>,
                                                 xml: seq<Option<string>>, n: nat)
    requires TablesValid(html, xml) && n <= |html| && Searchable(html, n)
    requires forall k :: 0 <= k < n ==> html[k].value[0] == '&'
    requires '&' !in content
    ensures Applied(content, html, xml, n) == content
  {
    if n > 0 {
      NoAmpersandUnchanged(content, html, xml, n - 1);
      ReplaceKeepsChar(content, html[n - 1].value, xml[n - 1].value, '&');
    }
  }

  /** The rewrite with the built-in tables never throws, and leaves text without '&' alone. */
  lemma BuiltInRewrite(content: string)
    ensures TablesValid(HtmlEntities, XmlEntities) && Searchable(HtmlEntities, |HtmlEntities|)
    ensures '&' !in content ==> Applied(content, HtmlEntities, XmlEntities, |HtmlEntities|) == content
  {
    BuiltInTablesValid();
    if '&' !in content {
      NoAmpersandUnchanged(content, HtmlEntities, XmlEntities, |HtmlEntities|);
    }
  }
}
