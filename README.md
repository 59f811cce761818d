# e2kindle content pipeline in Dafny

e2kindle turns entries of syndicated feeds into a FictionBook 2 (FB2) book for an e-reader.
This project models the part of it that transforms text. The model covers:

- the HTML-chunk to FB2 tag mapper (`HtmlUtils.CombineToFb2` and its copy `Fb2Utils.Combine`, and
  the older `ContentProcess.CombineToFb2`);
- the chunk clean-up in `HtmlToFb2`: filters, renaming links, and removing empty tag pairs until a
  fixed point;
- the rewriting of image references in `ProcessHtmlImages`, with its image counter;
- the entity table rewrite `EntitiesHtmlToXml`;
- the balanced sub-tree extraction: `TagContent`/`IsOpenTag`, and the older `SkipUntil`/`TakeUntil`/`Sum`
  pipeline;
- the Habr URL recogniser and canonicaliser, and the Habr article and comment extraction;
- the full-content registry `FullContent.Exists`/`Get`;
- the grouping, ordering and counting of `CreateFb2`;
- the helpers of `CollectionUtils.cs` and `Utils.cs`.

The repository holds two revisions side by side. The root-level `ContentProcess.cs` and `FullContent.cs`
are the older one; the files under `ContentProcess/` are the newer one. Both are modelled, and lemmas
relate them where they agree and where they part.

Modules, one per file:

| file | module | what it holds |
|---|---|---|
| wrappers.dfy | Wrappers | `Option` for nullable references, the .NET exceptions the core throws, `Result` |
| strings.dfy | Strings | the .NET string primitives the core relies on: Trim, ToLower, IndexOf/Contains, int formatting and `Int32.TryParse`, Replace, StringBuilder |
| collection_utils.dfy | CollectionUtils | the LINQ extensions of CollectionUtils.cs and the LINQ operators they wrap; `AddRange` on a `Collection` class |
| utils.dfy | Utils | the named `Format`, `TrimLines`, `ContainsCI` |
| html.dfy | Html | the chunk datatype `Token`, `IsOpenTag`, `TagContent`, the `^\d+.jpe?g$` image-source test |
| fb2_markup.dfy | Fb2Markup | the newer tag mapper, described as a sequence of output fragments, with a style-balance checker |
| legacy_markup.dfy | LegacyMarkup | the older tag mapper and the older `CombineToHtml` |
| entities.dfy | Entities | `EntitiesHtmlToXml` and its two tables |
| images.dfy | Images | `ProcessHtmlImages` of both revisions, on an `ImageExtractor` object holding the counter |
| cleanup.dfy | Cleanup | the filters, the `a`→`u` rename, the empty-pair loop |
| conversion.dfy | Conversion | `HtmlToFb2` of both revisions |
| habr_url.dfy | HabrUrls | the Habr URL pattern as a staged scanner, `IsMyUrl`, `ProcessUrl` |
| habr_content.dfy | HabrContent | the newer `HabrContent.ProcessContent` and its comment-rewrite loop |
| habr_legacy.dfy | LegacyHabrContent | the older `HabrContent.ProcessContent` |
| full_content.dfy | FullContent, LegacyFullContent | the registry of both revisions |
| assembly.dfy | Assembly | `CreateFb2` of both revisions, producing an abstract document |

Conventions:

- A null argument is `None` of an `Option`, wherever the source tests it or trips over it.
- An exception is the `Failure` of a `Result`.
- Code outside the model is a function parameter: the HTML parser, `WebUtility.HtmlEncode`,
  `ColorTranslator.FromHtml` for colour names, `GenerateHTML`, `GetBefore`, the page fetch, and the
  image download and recode.

## Model

| member | source | states |
|---|---|---|
| CollectionUtils.Any | CollectionUtils.cs:18 | `Any` holds exactly when some element satisfies the predicate |
| CollectionUtils.Empty | CollectionUtils.cs:16-19 | `Empty` is true iff the sequence has no elements |
| CollectionUtils.Where | ContentProcess/ContentProcess.cs:108-116 | the filtered sequence holds exactly the elements that satisfy the predicate, and is no longer than the source |
| CollectionUtils.WhereNot | CollectionUtils.cs:106-109 | `WhereNot` keeps exactly the elements failing the predicate |
| CollectionUtils.WhereNotIsSubsequence | CollectionUtils.cs:106-109 | `WhereNot` keeps the source order: its result is a subsequence of the source |
| CollectionUtils.WhereAppend | CollectionUtils.cs:106-109 | filtering distributes over concatenation |
| CollectionUtils.WherePartitionCounts | CollectionUtils.cs:106-109 | `Where(p)` and `WhereNot(p)` partition the source as multisets |
| CollectionUtils.WhereIsSubsequence | CollectionUtils.cs:106-109 | `Where` keeps the source order |
| CollectionUtils.SubsequenceReflexive | CollectionUtils.cs:106-109 | a sequence is a subsequence of itself |
| CollectionUtils.SubsequenceTransitive | CollectionUtils.cs:106-109 | subsequences of subsequences are subsequences |
| CollectionUtils.SubsequenceDelete | ContentProcess/ContentProcess.cs:142-143 | deleting one element (`RemoveAt`) leaves a subsequence |
| CollectionUtils.SubsequenceMembers | CollectionUtils.cs:106-109 | every element of a subsequence is an element of the source |
| CollectionUtils.WhileEnd | CollectionUtils.cs:58 | the index where a `SkipWhile`/`TakeWhile` scan stops: every earlier element passes the test, the element there fails it |
| CollectionUtils.SkipWhile | CollectionUtils.cs:58 | `SkipWhile` returns a suffix; the dropped elements pass the test; the first kept element fails it |
| CollectionUtils.TakeWhile | CollectionUtils.cs:83 | `TakeWhile` returns a prefix whose elements pass the test; the next element fails it |
| CollectionUtils.SkipUntil | CollectionUtils.cs:56-59 | `SkipUntil(p)` drops the longest prefix of elements failing p; the result's first element, if any, satisfies p |
| CollectionUtils.TakeUntil | CollectionUtils.cs:81-84 | `TakeUntil(p)` is the longest prefix none of whose elements satisfies p |
| CollectionUtils.TakeWhileThenSkipWhile | CollectionUtils.cs:58 | `TakeWhile` followed by `SkipWhile` gives back the source |
| CollectionUtils.TakeUntilThenSkipUntil | CollectionUtils.cs:56-84 | `TakeUntil(p)` followed by `SkipUntil(p)` gives back the source |
| CollectionUtils.FirstIndexFrom | CollectionUtils.cs:94-97 | the first index from k whose element and position satisfy the indexed test |
| CollectionUtils.SkipUntilIndexed | CollectionUtils.cs:69-72 | the indexed `SkipUntil` passes each element's source position; the result starts at the first position satisfying the test |
| CollectionUtils.TakeUntilIndexed | CollectionUtils.cs:94-97 | the indexed `TakeUntil` is the longest prefix in which no element satisfies the test at its source position |
| CollectionUtils.WhereIndexedFrom | CollectionUtils.cs:119-122 | the indexed `Where` from position k keeps exactly the elements whose (element, source position) passes the test, in source order, and nothing else |
| CollectionUtils.WhereNotIndexed | CollectionUtils.cs:119-122 | the indexed `WhereNot` keeps exactly the elements whose (element, source position) fails the test, in source order, and nothing else |
| CollectionUtils.WhereNotIndexedAgrees | CollectionUtils.cs:106-122 | with a test that ignores the position, the indexed `WhereNot` is the plain one |
| CollectionUtils.Reverse | ContentProcess/ContentProcess.cs:57 | `Reverse` puts element `|s|-1-i` at position i |
| CollectionUtils.ReverseStep | ContentProcess/ContentProcess.cs:57 | reversing a suffix from j adds s[j] after the reversed suffix from j+1 |
| CollectionUtils.FoldSnoc | CollectionUtils.cs:27-33 | folding one more element applies the action once more, last |
| CollectionUtils.ForEach | CollectionUtils.cs:27-33 | the loop leaves the state the left fold of the action over the elements gives |
| CollectionUtils.ForEachVisitsInOrder | CollectionUtils.cs:27-33 | an action that records what it sees records every element exactly once, in order |
| CollectionUtils.Collection.constructor | CollectionUtils.cs:41 | a new collection is empty |
| CollectionUtils.Collection.Add | CollectionUtils.cs:45 | `Add` appends one element |
| CollectionUtils.Collection.AddRange | CollectionUtils.cs:41-47 | `AddRange` appends every source element in source order and removes nothing |
| Strings.LeadingWhite | Utils.cs:135 | the length of the leading white-space run |
| Strings.TrailingStart | Utils.cs:135 | where the trailing white-space run starts |
| Strings.TrimStart | Utils.cs:135 | the suffix left after dropping leading white space; it starts with a non-space |
| Strings.TrimEnd | Utils.cs:135 | the prefix left after dropping trailing white space; it ends with a non-space |
| Strings.TrimEnds | Utils.cs:135 | a trimmed string is empty or starts and ends with a non-space |
| Strings.TrimNoOp | Utils.cs:135 | trimming a string that has no white space at its ends changes nothing |
| Strings.TrimEmptyIffBlank | ContentProcess/ContentProcess.cs:109 | `Trim()` is empty exactly when the text is all white space |
| Strings.TrimStartBlank | ContentProcess/ContentProcess.cs:109 | an all-space string trims to empty from the start |
| Strings.ToLowerChar | Utils.cs:141 | upper-case ASCII letters are lowered, everything else is kept |
| Strings.ToLower | Utils.cs:141 | `ToLower` lowers each character in place |
| Strings.ToLowerIdempotent | Utils.cs:141 | lowering twice is lowering once |
| Strings.IndexOfFrom | Utils.cs:141 | the first occurrence of t at or after `from`, or -1 when there is none |
| Strings.ContainsIff | Utils.cs:141 | `Contains` holds exactly when t occurs somewhere in s |
| Strings.DigitChar | ContentProcess/ContentProcess.cs:78 | a decimal digit value becomes a digit character |
| Strings.DigitValue | ContentProcess/ContentProcess.cs:78 | the value of a digit character, inverse to `DigitChar` |
| Strings.NatToString | ContentProcess/ContentProcess.cs:78 | the decimal form of a natural number: digits only, no leading zero |
| Strings.ParseNatToString | ContentProcess/ContentProcess.cs:78 | reading the decimal form back gives the number |
| Strings.NatToStringInjective | ContentProcess/ContentProcess.cs:78 | distinct numbers have distinct decimal forms |
| Strings.IntToString | ContentProcess/ContentProcess.cs:78 | the decimal form of an integer is non-empty and starts with '-' exactly for negatives |
| Strings.IntToStringInjective | ContentProcess/ContentProcess.cs:78 | distinct integers have distinct decimal forms |
| Strings.TrimNumberWhite | ContentProcess/HtmlUtils.cs:79 | the result has none of the white space `Int32.TryParse` allows at either end, and a string without such white space is returned unchanged |
| Strings.TryParseInt32 | ContentProcess/HtmlUtils.cs:79 | a parsed value lies in the Int32 range |
| Strings.TryParseNatToString | ContentProcess/HtmlUtils.cs:79 | the decimal form of an Int32 number parses back to it |
| Strings.ReplaceAbsent | ContentProcess.cs:95 | `Replace` changes nothing when the old value does not occur |
| Strings.ReplaceKeepsChar | ContentProcess.cs:95 | `Replace` changes nothing when the first character of the old value is absent |
| Strings.StringBuilder.constructor | ContentProcess/HtmlUtils.cs:28 | a new builder is empty |
| Strings.StringBuilder.Append | ContentProcess/HtmlUtils.cs:36 | `Append` adds the text at the end |
| Utils.RunEnd | Utils.cs:72 | the end of the run of one brace character starting at i |
| Utils.FirstClose | Utils.cs:72 | the first '}' at or after j (the end of `[^\}]+`) |
| Utils.Repeat | Utils.cs:98-99 | `new string(c, n)`: n copies of c |
| Utils.FieldName | Utils.cs:110 | the field name is the longest prefix of the format item without ':' or ',' |
| Utils.FormatSuffix | Utils.cs:112 | the field name followed by the format string gives back the format item |
| Utils.Step | Utils.cs:87-123 | one step of the regex Replace consumes at least one character |
| Utils.Format | Utils.cs:80-83 | a null format or a null arg throws `ArgumentNullException` naming it |
| Utils.FormatFromPlain | Utils.cs:72-87 | any character but '{', a lone '}' included, is copied unchanged ahead of the rest |
| Utils.FormatWithoutBraces | Utils.cs:87 | a format without braces is returned unchanged |
| Utils.FormatPlaceholder | Utils.cs:107-122 | `{name}` is replaced by the formatted property value, and the text after it is formatted on |
| Utils.StepPlaceholder | Utils.cs:107-122 | one step over `{name}` yields the property value and resumes after the '}' |
| Utils.FieldNameWhole | Utils.cs:110-112 | an item without ':' or ',' is all field name, with an empty format string |
| Utils.FirstCloseSkips | Utils.cs:72 | `[^\}]+` stops at the first '}' |
| Utils.LiteralStep | Utils.cs:87 | brace-free text is copied unchanged before what follows it |
| Utils.LiteralSegmentStep | Utils.cs:87 | a literal segment of a layout is copied unchanged |
| Utils.FieldSegmentStep | Utils.cs:107-122 | a field segment of a layout becomes its property value |
| Utils.FieldStep | Utils.cs:107-122 | `{n}` followed by anything but '}' becomes the value of property n |
| Utils.FormatLayout | Utils.cs:87-123 | formatting a layout of literals and `{field}` placeholders from position i fills in the property values |
| Utils.FormatOfLayout | Utils.cs:80-123 | `Format` of a layout whose fields all exist is the layout filled with the property values |
| Utils.FormatEscapedBraces | Utils.cs:89-105 | for every match whose two brace runs are even: half the opening braces, the inner text as it stands and half the closing braces, then the rest of the format (or its failure) |
| Utils.StepMatch | Utils.cs:87-123 | the scan replaces a match (opening run, inner text, closing run) by the evaluator's text for it and resumes after the closing run |
| Utils.FormatField | Utils.cs:97-122 | for every match whose two runs are odd and whose field names a property: half the opening braces rounded down, the property rendered with the item's format string, then the rest; the closing braces are dropped |
| Utils.EscapedExample | Utils.cs:98-105 | `{{x}}` formats to `{x}` |
| Utils.FormatUnbalanced | Utils.cs:87-96 | every format whose first match has brace runs of different parity throws `ArgumentException` for "format" |
| Utils.FormatMissingProperty | Utils.cs:107-119 | every format whose first match is a placeholder naming a property the argument lacks throws `ArgumentException` for "arg" |
| Utils.Split | Utils.cs:134 | `Split` on '\n' and '\r' yields one more piece than there are line breaks, none holding a line break, and putting the removed breaks back between the pieces gives the string back |
| Utils.TrimAll | Utils.cs:135 | each piece trimmed, in order |
| Utils.Lines | Utils.cs:134 | `RemoveEmptyEntries` keeps only non-empty pieces without line breaks |
| Utils.TrimLines | Utils.cs:131-137 | `TrimLines(null)` throws `ArgumentNullException` for "str", and only then |
| Utils.JoinOneLine | Utils.cs:136 | joining single-line strings gives a single line |
| Utils.JoinUnpadded | Utils.cs:136 | joining strings with non-space ends gives non-space ends |
| Utils.ConcatTrimmed | Utils.cs:136 | the concatenation of trimmed single lines is a single trimmed line |
| Utils.TrimIsInfix | Utils.cs:135 | `Trim` returns a contiguous part of its input |
| Utils.TrimmedLine | Utils.cs:135 | a trimmed line is a single line with non-space ends |
| Utils.TrimLinesIdempotent | Utils.cs:131-137 | `TrimLines` never fails on a string, its output holds no '\n' or '\r', and applying it again changes nothing |
| Utils.OneLineSplit | Utils.cs:134 | splitting a single line yields that line |
| Utils.ContainsCIIff | Utils.cs:139-142 | `ContainsCI(s, t)` holds iff lower(t) occurs in lower(s) |
| Utils.ContainsCICaseBlind | Utils.cs:139-142 | lowering either argument does not change `ContainsCI`, and every string contains itself |
| Html.FirstOpener | ContentProcess/HtmlUtils.cs:264-265 | the position of the first chunk passing `IsOpenTag`; no earlier chunk passes |
| Html.IsOpenTagConjoins | ContentProcess/HtmlUtils.cs:299-306 | a list of parameter pairs accepts exactly what each of its parts accepts, so more pairs only narrow the match; with no pairs every opening tag of the name matches |
| Html.IsOpenTagExtraParameter | ContentProcess/HtmlUtils.cs:299-306 | a parameter none of the listed pairs names does not change whether a chunk matches |
| Html.TagContent | ContentProcess/HtmlUtils.cs:262-297 | the skip-then-balance loop yields `Enclosed`: the chunks strictly between the first matching opener and its balancing closer |
| Html.YieldUntilClosed | ContentProcess/HtmlUtils.cs:270-296 | the balance loop from 1 yields the chunks before the closer that brings the balance to 0 |
| Html.UntilClosedStep | ContentProcess/HtmlUtils.cs:277-295 | one chunk of the balance loop: stop at a same-name tag that brings the balance to 0, otherwise keep the chunk and update the balance |
| Html.UntilClosedStop | ContentProcess/HtmlUtils.cs:291 | the loop's `yield break` ends the result |
| Html.UntilClosedAdvance | ContentProcess/HtmlUtils.cs:295 | the loop's `yield return` appends the chunk |
| Html.UntilClosedSpec | ContentProcess/HtmlUtils.cs:270-296 | the result is a prefix of the body; the balance stays positive inside it; it stops only at a same-name Close tag with balance 1 before it |
| Html.UntilClosedPrefix | ContentProcess/HtmlUtils.cs:270-296 | the result is a prefix of the body |
| Html.UntilClosedLevels | ContentProcess/HtmlUtils.cs:270-296 | the balance stays positive over the result, and the chunk after it is the balancing closer |
| Html.PositiveAfterStep | ContentProcess/HtmlUtils.cs:280-291 | a chunk the loop keeps leaves the balance positive |
| Html.LevelsCons | ContentProcess/HtmlUtils.cs:280-288 | the balance over a chunk and what follows is the balance over the rest from the updated count |
| Html.EnclosedSpec | ContentProcess/HtmlUtils.cs:257-297 | no match yields nothing; otherwise the result is the chunks right after the opener, balance-positive throughout, ending at the balancing closer or at the end when there is none |
| Html.EnclosedRange | ContentProcess/HtmlUtils.cs:262-297 | the content is the contiguous run of chunks right after the opener, or nothing without one |
| Html.EnclosedAgree | ContentProcess/HtmlUtils.cs:262-297 | two chunk lists that agree up to past the balancing closer yield the same content: later chunks are never read |
| Html.EnclosedExample | ContentProcess/HtmlUtils.cs:262-297 | a nested div: the content stops at the closer that matches the first opener |
| Html.UntilClosedExample | ContentProcess/HtmlUtils.cs:270-296 | a nested opener and closer are kept inside the content |
| Html.GeneratedNameMatches | ContentProcess/HtmlUtils.cs:198-203 | every image name the extractor generates passes `^\d+.jpe?g$` |
| Html.ImgSrcLoose | ContentProcess/HtmlUtils.cs:200 | the unescaped dot matches any character, and `$` matches before a final newline: "1234jpg", "7xjpeg" and "1.jpg\n" pass |
| Html.ImgSrcStrict | ContentProcess/HtmlUtils.cs:200 | a source without leading digits or with anything before them fails |
| Fb2Markup.RenderAppend | ContentProcess/HtmlUtils.cs:28-44 | the text of appended fragments is the concatenation of their texts |
| Fb2Markup.HexDigitUpper | ContentProcess/HtmlUtils.cs:233 | `ToString("X")` of a value below 16 is one upper-case hex digit of that value |
| Fb2Markup.Luminance | ContentProcess/HtmlUtils.cs:233 | the weighted luminance of a colour is at most 255 |
| Fb2Markup.HtmlColorToGray | ContentProcess/HtmlUtils.cs:228-239 | one upper-case hex digit '0'-'F' equal to luminance/16, or '0' when the colour does not parse; ContentProcess/Fb2Utils.cs:226-237 has the same code |
| Fb2Markup.GrayLevels | ContentProcess/HtmlUtils.cs:228-239 | black gives '0', white 'F', and #222222 (the link colour) '2' |
| Fb2Markup.ShortFormGray | ContentProcess/HtmlUtils.cs:232 | `#xyz` is read as `#xxyyzz` |
| Fb2Markup.GrayMonotone | ContentProcess/HtmlUtils.cs:233 | a lighter colour never gets a darker grey bucket |
| Fb2Markup.FlatMapCons | ContentProcess/HtmlUtils.cs:30-42 | the output of a chunk list is the chunk's output followed by the rest's |
| Fb2Markup.FlatMapSnoc | ContentProcess/HtmlUtils.cs:30-42 | one more chunk appends its output |
| Fb2Markup.FragmentsCons | ContentProcess/HtmlUtils.cs:30-42 | the fragments of a chunk list start with the first chunk's fragments |
| Fb2Markup.AppendStyle | ContentProcess/HtmlUtils.cs:218-221 | appends `<style name="…">` |
| Fb2Markup.AppendCloseStyle | ContentProcess/HtmlUtils.cs:223-226 | appends `</style>` |
| Fb2Markup.AppendColorStyle | ContentProcess/HtmlUtils.cs:241-244 | appends the style `col` + grey digit |
| Fb2Markup.AppendFontOpen | ContentProcess/HtmlUtils.cs:73-93 | appends the font opener the table prescribes |
| Fb2Markup.AppendOpen | ContentProcess/HtmlUtils.cs:51-139 | appends the opening-tag part of the table |
| Fb2Markup.AppendBlockOpen | ContentProcess/HtmlUtils.cs:100-138 | appends the list-item, heading, code and pass-through openers |
| Fb2Markup.AppendClose | ContentProcess/HtmlUtils.cs:141-191 | appends the closing-tag part of the table |
| Fb2Markup.AppendDefault | ContentProcess/HtmlUtils.cs:195-214 | appends the part every tag kind reaches: img, hr, br/ol/ul |
| Fb2Markup.AppendKindPart | ContentProcess/HtmlUtils.cs:49-194 | appends the part chosen by the tag kind |
| Fb2Markup.ConcatRender | ContentProcess/HtmlUtils.cs:140-192 | the kind part followed by the default part is their joint text |
| Fb2Markup.AppendConvertedChunk | ContentProcess/HtmlUtils.cs:47-216 | appends exactly the text of the tag's fragments |
| Fb2Markup.AppendChunk | ContentProcess/HtmlUtils.cs:32-41 | a text chunk appends its encoded text, a tag its converted form, others nothing |
| Fb2Markup.RenderFragmentsStep | ContentProcess/HtmlUtils.cs:30-42 | one loop step appends one chunk's text |
| Fb2Markup.CombineToFb2 | ContentProcess/HtmlUtils.cs:24-45 | `CombineToFb2(null)` throws; otherwise the output is the in-order concatenation of the chunks' conversions; ContentProcess/Fb2Utils.cs:21-42 has the same code |
| Fb2Markup.StyleFamily | ContentProcess/HtmlUtils.cs:54-153 | each of strike/s/u/b/strong/i/em/big emits exactly one style opener, its closer exactly one `</style>`, and its self-closing form nothing; ContentProcess/Fb2Utils.cs:51-151 has the same code |
| Fb2Markup.LinkRule | ContentProcess/HtmlUtils.cs:95-162 | `a` opens `u` and the colour style of #222222; `</a>` emits two closers; ContentProcess/Fb2Utils.cs:93-160 has the same code |
| Fb2Markup.HeadingRule | ContentProcess/HtmlUtils.cs:106-172 | h1 opens xxlarge+b, h2-h3 xlarge+b, h4-h6 large+b; each `</hN>` emits two closers; ContentProcess/Fb2Utils.cs:104-170 has the same code |
| Fb2Markup.FontRules | ContentProcess/HtmlUtils.cs:73-93 | colour wins over size; a numeric size maps <3 to small, 4 to large, 5-6 to xlarge, ≥7 to xxlarge and 3 to nothing; a missing or non-numeric size emits a bare `<style>`; ContentProcess/Fb2Utils.cs:70-91 has the same code |
| Fb2Markup.CodeNesting | ContentProcess/HtmlUtils.cs:122-179 | code/pre/tt emit `<code>` then the mono style, and close with `</style>` then `</code>`; ContentProcess/Fb2Utils.cs:120-177 has the same code |
| Fb2Markup.DefaultForEveryKind | ContentProcess/HtmlUtils.cs:140-214 | for every tag kind: img yields an image only when its src passes `^\d+.jpe?g$`, hr a separator, br/ol/ul an empty line; ContentProcess/Fb2Utils.cs:138-211 has the same code |
| Fb2Markup.RunAppend | ContentProcess/HtmlUtils.cs:218-226 | checking the style stack over two runs of output is checking them one after the other |
| Fb2Markup.DefaultNeutral | ContentProcess/HtmlUtils.cs:195-214 | the default part opens and closes nothing |
| Fb2Markup.OpenPart | ContentProcess/HtmlUtils.cs:51-139 | an opening tag other than `font size=3` and a literal `hALL` tag pushes exactly the markers it opens |
| Fb2Markup.OpenStep | ContentProcess/HtmlUtils.cs:51-140 | the whole output of such an opening tag pushes exactly those styles |
| Fb2Markup.ClosePart | ContentProcess/HtmlUtils.cs:141-191 | the closing tag of a name pops exactly what its opener pushed |
| Fb2Markup.CloseStep | ContentProcess/HtmlUtils.cs:141-192 | the whole output of the matching closer pops what the opener pushed |
| Fb2Markup.ChunkStep | ContentProcess/HtmlUtils.cs:30-42 | each chunk that nests properly and is neither `font size=3` nor `hALL` keeps the marker stack in step with the open tags |
| Fb2Markup.NestRun | ContentProcess/HtmlUtils.cs:30-42 | over properly nested chunks the style stack mirrors the open-tag stack |
| Fb2Markup.BalancedOutput | ContentProcess/HtmlUtils.cs:24-216 | properly nested chunks without a `font size=3` or `hALL` opener produce output whose every `</style>` and `</code>` closes the innermost open one, with nothing left open |
| Fb2Markup.FontSizeThreeUnbalanced | ContentProcess/HtmlUtils.cs:81-157 | `<font size=3></font>` is nested properly yet emits a lone `</style>` |
| LegacyMarkup.LegacyFailureIff | ContentProcess.cs:159-161 | the older conversion throws `KeyNotFoundException` exactly when some img tag has no src |
| LegacyMarkup.AppendText | ContentProcess.cs:145-151 | appends the encoded text, and a space when it holds none |
| LegacyMarkup.AppendAnyKind | ContentProcess.cs:156-169 | img/hr/br emit their element for open and close tags alike; img without src throws |
| LegacyMarkup.AppendPaired | ContentProcess.cs:171-216 | a style-like tag emits `<X>` or `</X>`, nothing when self-closing |
| LegacyMarkup.PairedRender | ContentProcess.cs:154-216 | the paired text is "<" + slashIfClose + element + ">" for a table tag, empty otherwise |
| LegacyMarkup.AppendTag | ContentProcess.cs:152-217 | a tag chunk appends its any-kind part, then its paired part |
| LegacyMarkup.AppendChunk | ContentProcess.cs:143-218 | one chunk of the older loop |
| LegacyMarkup.CombineToFb2 | ContentProcess.cs:137-222 | the loop yields the concatenation of the chunks' conversions, or the first `KeyNotFoundException` |
| LegacyMarkup.Prefixed | ContentProcess.cs:141-219 | the loop's accumulated text stays a prefix of the result |
| LegacyMarkup.LegacyStep | ContentProcess.cs:141-219 | one loop step either fails with the chunk's exception or extends the accumulated text |
| LegacyMarkup.AnyKindNeutral | ContentProcess.cs:156-169 | img/hr/br output opens and closes nothing |
| LegacyMarkup.LegacyOpenStep | ContentProcess.cs:171-216 | an opening tag pushes its element |
| LegacyMarkup.LegacyCloseStep | ContentProcess.cs:171-216 | the matching closing tag pops it |
| LegacyMarkup.ClosePops | ContentProcess.cs:154-216 | the close output uses the same element name as the open output |
| LegacyMarkup.LegacyNeutralStep | ContentProcess.cs:145-172 | text and self-closing tags leave the element stack alone |
| LegacyMarkup.LegacyChunkStep | ContentProcess.cs:141-219 | each chunk of properly nested input keeps the element stack in step with the open tags |
| LegacyMarkup.LegacyNestRun | ContentProcess.cs:141-219 | over properly nested chunks the element stack mirrors the open-tag stack |
| LegacyMarkup.LegacyBalancedOutput | ContentProcess.cs:137-222 | properly nested chunks whose conversion succeeds produce balanced elements, with no exception for any tag |
| LegacyMarkup.TextSpace | ContentProcess.cs:145-151 | a text chunk emits its encoding plus one space exactly when the encoding has none, so the output always holds a space |
| LegacyMarkup.LegacySingle | ContentProcess.cs:141-219 | the conversion of a single chunk |
| LegacyMarkup.PairedTagRule | ContentProcess.cs:172-216 | a style-like tag gives `<X>` on open and `</X>` with the same X on close, nothing when self-closing |
| LegacyMarkup.AnyKindRule | ContentProcess.cs:157-169 | img, hr and br emit output for every tag kind; img without src throws |
| LegacyMarkup.LegacyHtmlAppend | ContentProcess.cs:224-243 | the older `CombineToHtml` of concatenated chunks is the concatenation |
| LegacyMarkup.LegacyHtmlSkipsHidden | ContentProcess.cs:229-240 | comment and script chunks contribute nothing |
| LegacyMarkup.CombineToHtml | ContentProcess.cs:224-243 | the loop yields text encoded and open and close tags generated, in order |
| Entities.EntitiesHtmlToXml | ContentProcess.cs:86-98 | tables of different length or holding null throw `InvalidDataException`; an empty HTML entity makes `Replace` throw `ArgumentException` for "oldValue"; otherwise every `HTMLEntities[i]` becomes `XMLEntities[i]`, in table order |
| Entities.BuiltInTablesValid | ContentProcess.cs:78-88 | the built-in tables have 101 entries each, contain no null, and every HTML entity starts with '&' |
| Entities.NoAmpersandUnchanged | ContentProcess.cs:93-97 | content without '&' is left unchanged by the rewrite |
| Entities.BuiltInRewrite | ContentProcess.cs:86-98 | with the built-in tables the rewrite never throws and leaves content without '&' unchanged |
| Images.Increment | ContentProcess/ContentProcess.cs:78 | `Interlocked.Increment` adds one, wrapping from Int32.MaxValue to Int32.MinValue |
| Images.AdvanceNoWrap | ContentProcess/ContentProcess.cs:78 | k increments without reaching the top add k |
| Images.AdvanceAdd | ContentProcess/ContentProcess.cs:78 | advancing the counter a times and then k times is advancing it a + k times |
| Images.ImageName | ContentProcess/ContentProcess.cs:78 | an image name ends in ".jpg" |
| Images.ImageNameInjective | ContentProcess/ContentProcess.cs:78 | different counter values give different names |
| Images.Urls | ContentProcess/ContentProcess.cs:60 | the URL of each match is its text in the content |
| Images.Unblocked | ContentProcess/ContentProcess.cs:49-51 | the positions kept are exactly the matches whose URL contains no blocked string, in order |
| Images.OrderedTail | ContentProcess/ContentProcess.cs:49-51 | dropping the first match keeps the rest ordered |
| Images.OrderedCons | ContentProcess/ContentProcess.cs:49-51 | filtering ordered matches keeps them ordered |
| Images.Successes | ContentProcess/ContentProcess.cs:64-75 | the number of successful downloads from position j on |
| Images.Replacements | ContentProcess/ContentProcess.cs:84-86 | one replacement text per match |
| Images.GapEnd | ContentProcess/ContentProcess.cs:84-86 | the end of the unchanged text after a match |
| Images.SpliceStep | ContentProcess/ContentProcess.cs:57-86 | working back to front, each match is still at its original offset when it is read and replaced |
| Images.SpliceUnfold | ContentProcess/ContentProcess.cs:84-86 | the text after the replacements from j on, split around match j |
| Images.CutAround | ContentProcess/ContentProcess.cs:84-86 | `Remove` then `Insert` at a position replaces exactly that span |
| Images.CountStep | ContentProcess/ContentProcess.cs:64-81 | a failed download changes nothing; a successful one takes the next counter value as its name and adds the image |
| Images.ImageExtractor.constructor | ContentProcess/ContentProcess.cs:36 | the counter starts at 0 and nothing was downloaded |
| Images.ImageExtractor.RewriteSpans | ContentProcess/ContentProcess.cs:57-87 | the reverse loop yields the content with each downloaded URL replaced by its name and the images; the counter advances by the number of successes; the URLs are downloaded last to first |
| Images.ImageExtractor.ProcessHtmlImages | ContentProcess/ContentProcess.cs:43-90 | null content throws and changes nothing; otherwise only the unblocked, downloadable URLs are rewritten, with names from the counter |
| Images.ImageExtractor.ProcessHtmlImagesLegacy | ContentProcess.cs:40-76 | the older method blocks two strings, skips images whose recode fails, and stores base64 data |
| Images.Base64Fetch | ContentProcess.cs:58-61 | the older download-and-encode succeeds exactly when the recode does |
| Images.ImageNamesSequential | ContentProcess/ContentProcess.cs:57-81 | one image per successful download; the i-th image of the returned list (the last match comes first) is named from the counter advanced i+1 times |
| Images.ImageNamesDistinct | ContentProcess/ContentProcess.cs:78-81 | the names of one call are pairwise distinct |
| Images.SplicedOriginals | ContentProcess/ContentProcess.cs:84-86 | text outside the replaced spans is untouched: replacing spans by their own text gives back the content |
| Images.NothingDownloaded | ContentProcess/ContentProcess.cs:64-75 | when every download fails the content is unchanged and no image is returned |
| Images.NoSuccesses | ContentProcess/ContentProcess.cs:64-75 | no successful download, no count |
| Images.BlockedNeverDownloaded | ContentProcess/ContentProcess.cs:50-66 | no URL containing a blocked string reaches the downloader |
| Images.BlockedStrings | ContentProcess/ContentProcess.cs:31 | the newer revision blocks "doubleclick.net/"; the older revision (ContentProcess.cs:29) also blocks "feeds.feedburner.com/" |
| Images.OneImageExample | ContentProcess/ContentProcess.cs:43-90 | a single image reference is renamed "1.jpg" and returned |
| Cleanup.Filtered | ContentProcess/ContentProcess.cs:108-116 | no whitespace-only text, comment, script, or img without a `^\d+.jpe?g$` src remains, and every other chunk is kept |
| Cleanup.FilteredIsSubsequence | ContentProcess/ContentProcess.cs:108-116 | filtering keeps the order |
| Cleanup.Renamed | ContentProcess/ContentProcess.cs:119-127 | every `a` becomes `u` with its parameters cleared; every other chunk is unchanged |
| Cleanup.RenameFold | ContentProcess/ContentProcess.cs:119-127 | the `ForEach` over the list performs the rename |
| Cleanup.RenamedCons | ContentProcess/ContentProcess.cs:119-127 | renaming works chunk by chunk |
| Cleanup.RenamedKept | ContentProcess/ContentProcess.cs:108-127 | renaming keeps the filtered property |
| Cleanup.RemovePair | ContentProcess/ContentProcess.cs:142-143 | removing a pair shortens the list by 2 |
| Cleanup.PassFrom | ContentProcess/ContentProcess.cs:135-147 | a pass that changes nothing leaves the list as it was; one that changes something shortens it |
| Cleanup.RemoveEmptyPairs | ContentProcess/ContentProcess.cs:131-149 | the do/while loop over the list computes `Collapse` |
| Cleanup.PassFromUnchanged | ContentProcess/ContentProcess.cs:135-147 | a pass reports no change exactly when no empty pair is left from i on |
| Cleanup.CollapseFixedPoint | ContentProcess/ContentProcess.cs:131-149 | the result has no adjacent Open/Close pair of the same name, and the loop leaves a list unchanged exactly when it has none |
| Cleanup.CollapseShorter | ContentProcess/ContentProcess.cs:131-149 | the loop only shortens the list |
| Cleanup.CollapseIdempotent | ContentProcess/ContentProcess.cs:131-149 | running the loop twice equals running it once |
| Cleanup.ShrinksTransitive | ContentProcess/ContentProcess.cs:131-149 | removals compose |
| Cleanup.RemovePairNest | ContentProcess/ContentProcess.cs:142-143 | removing an empty pair does not change how the tags nest |
| Cleanup.RemovePairWhere | ContentProcess/ContentProcess.cs:142-143 | removing an empty pair keeps every text and self-closing chunk |
| Cleanup.RemovePairShrinks | ContentProcess/ContentProcess.cs:142-143 | removing a pair only deletes: it reorders nothing |
| Cleanup.PassFromShrinks | ContentProcess/ContentProcess.cs:135-147 | one pass only deletes |
| Cleanup.CollapseShrinks | ContentProcess/ContentProcess.cs:131-149 | the loop only deletes, keeping order, nesting and every standalone chunk |
| Cleanup.CollapseNestedExample | ContentProcess/ContentProcess.cs:129-149 | nested empty pairs disappear on a later pass; a Close before an Open is kept |
| Cleanup.PreparedClean | ContentProcess/ContentProcess.cs:108-149 | after the clean-up: only kept chunks, no `a`, every chunk but a `u` taken from the input, no empty pair, and the nesting and standalone chunks of the filtered, renamed list |
| Conversion.HtmlToFb2 | ContentProcess/ContentProcess.cs:97-155 | null content or binaries throws before anything changes; otherwise binaries grow by exactly the images returned, in that order, and the result is the cleaned-up, converted content |
| Conversion.ConvertedBalanced | ContentProcess/ContentProcess.cs:108-152 | the conversion keeps styles balanced when the cleaned chunks nest properly and hold no unbalancing font |
| Conversion.BinaryTemplatePlain | ContentProcess.cs:258 | the binary template is literal text and two placeholders |
| Conversion.FilledTwoFields | ContentProcess.cs:258-259 | a five-part template filled from two properties |
| Conversion.BinaryTemplateFormat | ContentProcess.cs:258-259 | `Format` of the binary template gives `<binary id="name" content-type="image/jpeg">data</binary>` |
| Conversion.BinaryElement | ContentProcess.cs:256-261 | the binary element of one image |
| Conversion.BinaryElements | ContentProcess.cs:256-261 | one binary element per image |
| Conversion.HtmlToFb2Legacy | ContentProcess.cs:250-309 | the older conversion: images first; a null list throws only after that; binaries grow by one element per image; the conversion of the cleaned chunks |
| Conversion.LegacyConverts | ContentProcess.cs:159-274 | the older conversion of cleaned chunks cannot throw, because the filter removed every img without src |
| Conversion.LegacyConvertedBalanced | ContentProcess.cs:263-308 | the older conversion of properly nested chunks produces balanced elements |
| HabrUrls.Prefix | ContentProcess/HabrContent.cs:16 | a matched prefix is no longer than the text |
| HabrUrls.Scan | ContentProcess/HabrContent.cs:15-17 | a successful scan of the pattern yields a non-empty run of digits |
| HabrUrls.SchemeScan | ContentProcess/HabrContent.cs:16 | the scan from `(https?://)?` on yields, when it succeeds, a non-empty digit string |
| HabrUrls.WwwScan | ContentProcess/HabrContent.cs:16 | the scan from `(www\.)?` on yields, when it succeeds, a non-empty digit string |
| HabrUrls.MobileScan | ContentProcess/HabrContent.cs:16 | the scan from `(m\.)?` on yields, when it succeeds, a non-empty digit string |
| HabrUrls.HabraScan | ContentProcess/HabrContent.cs:16 | the scan from `(habra)?` on yields, when it succeeds, a non-empty digit string |
| HabrUrls.SiteScan | ContentProcess/HabrContent.cs:16 | the scan from `habr.ru/` on yields, when it succeeds, a non-empty digit string |
| HabrUrls.PathScan | ContentProcess/HabrContent.cs:16 | the scan from the four path alternatives on yields, when it succeeds, a non-empty digit string |
| HabrUrls.NamedScan | ContentProcess/HabrContent.cs:16 | the scan from `\w+` followed by a separator on yields, when it succeeds, a non-empty digit string |
| HabrUrls.NumberScan | ContentProcess/HabrContent.cs:16 | the scan from `(?<Num>\d+)/?$` on yields, when it succeeds, a non-empty digit string |
| HabrUrls.IsMyUrl | ContentProcess/HabrContent.cs:19-23 | `IsMyUrl(null)` throws `ArgumentNullException`, and only null does; FullContent.cs:19-23 has the same code |
| HabrUrls.ProcessUrl | ContentProcess/HabrContent.cs:25-29 | `ProcessUrl(null)` throws `ArgumentNullException`, and only null does; FullContent.cs:25-29 has the same code |
| HabrUrls.WhileEndPrefix | ContentProcess/HabrContent.cs:16 | a greedy run stops where the run of passing characters ends |
| HabrUrls.NumberLayer | ContentProcess/HabrContent.cs:16 | digits followed by an optional '/' and the end yield the digits |
| HabrUrls.NamedLayer | ContentProcess/HabrContent.cs:16 | a word followed by a separator is consumed whole |
| HabrUrls.BlogsLayer | ContentProcess/HabrContent.cs:16 | `blogs/\w+/` is accepted |
| HabrUrls.LinkerLayer | ContentProcess/HabrContent.cs:16 | `linker/go/` is accepted |
| HabrUrls.CompanyLayer | ContentProcess/HabrContent.cs:16 | `company/\w+/blog/` is accepted |
| HabrUrls.PostLayer | ContentProcess/HabrContent.cs:16 | `post/` is accepted |
| HabrUrls.SiteLayer | ContentProcess/HabrContent.cs:16 | `habr` + any character but a newline + `ru/`: the dot is unescaped |
| HabrUrls.SiteShape | ContentProcess/HabrContent.cs:16 | text the site stage accepts starts with "ha" |
| HabrUrls.HabraShape | ContentProcess/HabrContent.cs:16 | text after the optional `habra` starts with "ha" |
| HabrUrls.MobileShape | ContentProcess/HabrContent.cs:16 | text after the optional `m.` starts with 'm' or "ha" |
| HabrUrls.WwwShape | ContentProcess/HabrContent.cs:16 | text after the optional `www.` starts with 'w', 'm' or "ha" |
| HabrUrls.HabraTaken | ContentProcess/HabrContent.cs:16 | a present `habra` is skipped |
| HabrUrls.HabraSkipped | ContentProcess/HabrContent.cs:16 | an absent `habra` is not needed |
| HabrUrls.MobileTaken | ContentProcess/HabrContent.cs:16 | a present `m.` is skipped |
| HabrUrls.MobileSkipped | ContentProcess/HabrContent.cs:16 | an absent `m.` is not needed |
| HabrUrls.WwwTaken | ContentProcess/HabrContent.cs:16 | a present `www.` is skipped |
| HabrUrls.WwwSkipped | ContentProcess/HabrContent.cs:16 | an absent `www.` is not needed |
| HabrUrls.SchemeTaken | ContentProcess/HabrContent.cs:16 | a present `http://` or `https://` is skipped |
| HabrUrls.SchemeSkipped | ContentProcess/HabrContent.cs:16 | an absent scheme is not needed |
| HabrUrls.SectionLayer | ContentProcess/HabrContent.cs:16 | every path alternative followed by the number is recognised |
| HabrUrls.SiteForm | ContentProcess/HabrContent.cs:16 | the site and path are recognised |
| HabrUrls.HostForm | ContentProcess/HabrContent.cs:16 | the host with or without `habra` is recognised |
| HabrUrls.MobileForm | ContentProcess/HabrContent.cs:16 | with or without `m.` |
| HabrUrls.WwwForm | ContentProcess/HabrContent.cs:16 | with or without `www.` |
| HabrUrls.RecognisesForm | ContentProcess/HabrContent.cs:16 | every URL of the pattern's form, lower case, yields its number |
| HabrUrls.IgnoresCase | ContentProcess/HabrContent.cs:17 | the match ignores case |
| HabrUrls.ToLowerOfLower | ContentProcess/HabrContent.cs:17 | lowering lower-case text changes nothing |
| HabrUrls.RecognisesUrl | ContentProcess/HabrContent.cs:15-29 | every URL of the form, in any case, is accepted, and `ProcessUrl` rewrites it to `http://m.habr.ru/post/<digits>/`, keeping the number (and a final newline `$` lets through); the converse is `UrlNumberIff` |
| HabrUrls.UrlNumberIff | ContentProcess/HabrContent.cs:15-17 | the pattern yields the number n exactly when the lower-cased URL is the text of a well-formed form whose number is n |
| HabrUrls.IsMyUrlIff | ContentProcess/HabrContent.cs:15-24 | `IsMyUrl` accepts exactly the URLs that, lower-cased, are the text of a well-formed form |
| HabrUrls.NoUpperAppend | ContentProcess/HabrContent.cs:17 | lower-case texts concatenate to lower case |
| HabrUrls.EndsAppend | ContentProcess/HabrContent.cs:16 | whether a URL ends in a newline depends on its last part |
| HabrUrls.NumberFacts | ContentProcess/HabrContent.cs:16 | the number part is lower case and ends in a newline exactly when the form says so |
| HabrUrls.SectionFacts | ContentProcess/HabrContent.cs:16 | a lower-case path part has no upper case |
| HabrUrls.SiteNoUpper | ContentProcess/HabrContent.cs:16 | a lower-case site part has no upper case |
| HabrUrls.SiteEnds | ContentProcess/HabrContent.cs:16 | the site part ends in a newline exactly when the form says so |
| HabrUrls.UrlNoUpper | ContentProcess/HabrContent.cs:16 | a lower-case form prints without upper case |
| HabrUrls.UrlEnds | ContentProcess/HabrContent.cs:16 | a printed form ends in a newline exactly when the form says so |
| HabrUrls.RecognisesLowerForm | ContentProcess/HabrContent.cs:15-29 | a lower-case URL of the form is accepted and canonicalised to its number |
| HabrUrls.CanonicalText | ContentProcess/HabrContent.cs:28 | the canonical URL is itself a URL of the form |
| HabrUrls.CanonicalRecognised | ContentProcess/HabrContent.cs:15-28 | the output of `ProcessUrl` is accepted and carries the same number |
| HabrUrls.ProcessUrlIdempotent | ContentProcess/HabrContent.cs:15-28 | `ProcessUrl` maps its own output to itself, so the double call in `FullContent.Get` is harmless |
| HabrUrls.TestFormsShape | FullContent.cs:56-61 | the six URLs of the test are well-formed, lower-case forms of number 123456 |
| HabrUrls.CanonicalExample | FullContent.cs:54 | the canonical URL of 123456 is `http://m.habr.ru/post/123456/` |
| HabrUrls.HabrTest | FullContent.cs:51-69 | the test's six URLs (blogs, underscore names, https+www, m., trailing slash, linker/go) are accepted and canonicalise to `http://m.habr.ru/post/123456/`; the commented-out copy of the test at ContentProcess/HabrContent.cs:72-90 holds too |
| HabrContent.Italic | ContentProcess/HabrContent.cs:54-55 | renaming a chunk's tag to `i` keeps its kind and parameters and leaves non-tags alone |
| HabrContent.Byline | ContentProcess/HabrContent.cs:57 | a text chunk becomes "-> " + the text before the first comma + "<br/>" |
| HabrContent.AfterHeadHeads | ContentProcess/HabrContent.cs:51-59 | a rewrite leaves fewer heads ahead |
| HabrContent.RewriteComments | ContentProcess/HabrContent.cs:46-60 | the for loop over the growing list of chunk references computes `SlotsRewritten`: the chunks as `CommentsRewritten` leaves them, each marked as the page's own object or the inserted one |
| HabrContent.SlotsRender | ContentProcess/HabrContent.cs:46-60 | what the rewritten references read is the rewritten comment list |
| HabrContent.SharedKept | ContentProcess/HabrContent.cs:46-60 | the loop inserts only fresh chunks: as many of the page's own chunk objects remain in the list as before |
| HabrContent.EditedPage | ContentProcess/HabrContent.cs:40-60 | the page as the lazy article query reads it after the loop: same length, and unchanged when there is no comment block |
| HabrContent.EditedPageOutside | ContentProcess/HabrContent.cs:40-60 | the edited page differs from the page only inside the comment block, which holds the page's own chunks as the loop left them |
| HabrContent.ArticleUnaffected | ContentProcess/HabrContent.cs:40-69 | when the article closes before the comment block opens, the article is that of the unedited page |
| HabrContent.NestedPageEdited | ContentProcess/HabrContent.cs:46-60 | on a page whose comment block sits inside the article, the loop renames the comment header to `i` and rewrites the author line in the page itself; the inserted chunk does not enter the page |
| HabrContent.NestedCommentsExample | ContentProcess/HabrContent.cs:40-69 | on that page the article read after the loop holds the edited comment and ends one closer earlier than the article of the page as parsed, because the renamed header no longer opens a div |
| HabrContent.NestedComments | ContentProcess/HabrContent.cs:46-47 | on the nested page the comment block opens at the third chunk and holds the header, author line, text and the header's closer |
| HabrContent.NestedArticle | ContentProcess/HabrContent.cs:40-41 | on the page as parsed the article runs past the comment block to the closer balancing `div class=txt` |
| HabrContent.EditedArticle | ContentProcess/HabrContent.cs:40-66 | once the header and author line open no div, the article ends at the comment block's closer |
| HabrContent.HeadStep | ContentProcess/HabrContent.cs:51-59 | the loop's rewrite at a head (chunks i and i+2 renamed `i`, chunk i+1 turned into a byline, an empty chunk inserted) keeps the final result unchanged and shrinks the remaining work |
| HabrContent.PlainStep | ContentProcess/HabrContent.cs:51-52 | passing over any other chunk keeps the final result unchanged and adds no heads |
| HabrContent.CommentsPrefix | ContentProcess/HabrContent.cs:49-60 | chunks before the first head are untouched |
| HabrContent.CommentsWithoutHeads | ContentProcess/HabrContent.cs:49-60 | without heads the comments are unchanged |
| HabrContent.CommentsGrow | ContentProcess/HabrContent.cs:58 | the list only grows, and keeps its length exactly when nothing changes |
| HabrContent.ShortComments | ContentProcess/HabrContent.cs:51 | a list of at most three chunks is untouched (i + 3 < Count) |
| HabrContent.NoHeadsLeft | ContentProcess/HabrContent.cs:49-60 | afterwards no head remains with three chunks after it |
| HabrContent.OneComment | ContentProcess/HabrContent.cs:49-60 | a comment `<div class=m>`, author, body and next chunk becomes `<i>`, the byline, an empty chunk, the body renamed, and the next chunk |
| HabrContent.CombineToHtmlAppend | ContentProcess/HtmlUtils.cs:251-255 | the HTML of concatenated chunks is the concatenation |
| HabrContent.ProcessContent | ContentProcess/HabrContent.cs:31-70 | null content throws for "content"; a page the parser rejects throws for "source"; otherwise the HTML of the article read lazily from the page after the comment loop edited the shared chunks, then the separator and the rewritten comments |
| HabrContent.ResultLayout | ContentProcess/HabrContent.cs:40-69 | the HTML is that of the `div class=txt` content of the edited page, then of one `hr` chunk, then of the rewritten comment-block content |
| HabrContent.PlainComments | ContentProcess/HabrContent.cs:40-66 | without comment heads the loop edits nothing: the page is unchanged and the result chunks are the article, the separator and the comments as found |
| LegacyHabrContent.DivSumSnoc | FullContent.cs:43-46 | the running div sum over one more chunk |
| LegacyHabrContent.ArticleEndFrom | FullContent.cs:40-46 | from any position the `TakeUntil` scan collects what the reference walk collects from the count so far |
| LegacyHabrContent.ArticleIsDivUntil | FullContent.cs:36-46 | the article is the chunks after the `div class=txt` opener up to, not including, the first closing div whose preceding div sum is 0, any non-open div counting -1 |
| LegacyHabrContent.DivUntilIsUntilClosed | FullContent.cs:43-46 | without self-closing divs the older count from c is the newer balance from c+1 |
| LegacyHabrContent.SkipUntilAgrees | FullContent.cs:36-38 | `SkipUntil` stops at the same place for tests that agree |
| LegacyHabrContent.OpenerAgrees | FullContent.cs:37-38 | away from self-closing divs the older opener test is the newer `IsOpenTag` |
| LegacyHabrContent.SameOpener | FullContent.cs:36-39 | both revisions find the same opener on pages without self-closing divs |
| LegacyHabrContent.BodyKeepsNoSelfClosing | FullContent.cs:36-39 | the body after the opener has no self-closing div either |
| LegacyHabrContent.ArticleIsUntilClosed | FullContent.cs:36-46 | without self-closing divs the article is the newer balance walk of the body |
| LegacyHabrContent.ArticleAgreesWithTagContent | FullContent.cs:31-49 | on pages without a self-closing div both revisions extract the same article |
| LegacyHabrContent.EnclosedOfBody | ContentProcess/HtmlUtils.cs:262-297 | once it finds the same opener, the newer extraction balances the older body from 1 |
| LegacyHabrContent.SelfClosingOpener | FullContent.cs:37-38 | the revisions part at `<div class="txt"/>`: it starts the older article but not the newer one |
| LegacyHabrContent.ProcessContent | FullContent.cs:31-49 | null content throws; a page the parser rejects throws for "source"; otherwise the older HTML of the article |
| FullContent.MatchingHabr | ContentProcess/FullContent.cs:12-23 | the registry holds one extractor, Habr: exactly one accepts a URL iff the Habr pattern matches it |
| FullContent.Exists | ContentProcess/FullContent.cs:20-24 | `Exists(null)` is false; otherwise true iff exactly one registered extractor accepts the URL |
| FullContent.Single | ContentProcess/FullContent.cs:34 | `Single` returns the accepting extractor when `Exists` holds, and throws `InvalidOperationException` otherwise |
| FullContent.Get | ContentProcess/FullContent.cs:30-48 | null throws; without a unique match `Single` throws; otherwise the processed page fetched from the canonical URL, and null for any failure of fetch or processing |
| FullContent.FetchedAddress | ContentProcess/FullContent.cs:36-39 | the second `ProcessUrl` changes nothing and keeps the article number |
| FullContent.GetNullIff | ContentProcess/FullContent.cs:37-47 | `Get` yields null exactly when the fetch or the processing fails |
| LegacyFullContent.Exists | FullContent.cs:80-84 | the older `Exists(null)` throws; otherwise true iff the Habr pattern matches |
| LegacyFullContent.ExistsAcrossRevisions | FullContent.cs:80-84 | the revisions agree except on null, where the older throws and the newer says false |
| LegacyFullContent.Get | FullContent.cs:86-104 | null throws; `Single` needs a unique match; a failed download yields null; exceptions of `ProcessContent` are not caught |
| Assembly.TitleLeTotal | ContentProcess/ContentProcess.cs:193 | the title order is total |
| Assembly.TitleLeTransitive | ContentProcess/ContentProcess.cs:193 | the title order is transitive |
| Assembly.TitleLeAntisymmetric | ContentProcess/ContentProcess.cs:193 | the title order is antisymmetric |
| Assembly.Insert | ContentProcess/ContentProcess.cs:193 | inserting adds exactly one element |
| Assembly.SortBy | ContentProcess/ContentProcess.cs:193-242 | sorting permutes the sequence |
| Assembly.InsertSorted | ContentProcess/ContentProcess.cs:193 | inserting into a sorted sequence keeps it sorted |
| Assembly.SortBySorted | ContentProcess/ContentProcess.cs:193-242 | the result of sorting is sorted |
| Assembly.NewestFirstOrder | ContentProcess/ContentProcess.cs:242 | newest-first is a total, transitive order |
| Assembly.TitleFirstOrder | ContentProcess/ContentProcess.cs:193 | by-title is a total, transitive order |
| Assembly.EntryCountAppend | ContentProcess/ContentProcess.cs:216 | the entry count of one more group |
| Assembly.EntryCountUpdate | ContentProcess/ContentProcess.cs:216 | the entry count after a group changes |
| Assembly.TitleIndex | ContentProcess/ContentProcess.cs:192 | the position of the group with a title, or the end |
| Assembly.WhereNone | ContentProcess/ContentProcess.cs:192 | no entry of a feed, no members |
| Assembly.GroupByCovers | ContentProcess/ContentProcess.cs:192 | every entry's feed has a group |
| Assembly.TitleIndexFinds | ContentProcess/ContentProcess.cs:192 | a group's title is found at or before it |
| Assembly.GroupByDistinct | ContentProcess/ContentProcess.cs:192 | group titles are distinct |
| Assembly.GroupByMembers | ContentProcess/ContentProcess.cs:192 | each group holds exactly the entries of its feed, in source order |
| Assembly.GroupByCount | ContentProcess/ContentProcess.cs:192-216 | grouping keeps every entry: the sizes add up to the entry count |
| Assembly.MapSections | ContentProcess/ContentProcess.cs:242 | every group's entries are put newest first |
| Assembly.BodyOrdered | ContentProcess/ContentProcess.cs:193-252 | groups ordered by title ascending, entries of each group by `Published` descending |
| Assembly.BodySections | ContentProcess/ContentProcess.cs:193 | ordering the groups permutes them |
| Assembly.ComposeBinaries | ContentProcess/ContentProcess.cs:256-268 | the image binaries in collection order, then the cover |
| Assembly.DistinctOnce | ContentProcess/ContentProcess.cs:192 | a group appears at most once when titles are distinct |
| Assembly.TwiceCounted | ContentProcess/ContentProcess.cs:192 | a repeated group counts twice |
| Assembly.DistinctPermuted | ContentProcess/ContentProcess.cs:192-193 | distinct titles survive the ordering |
| Assembly.ConvertAll | ContentProcess/ContentProcess.cs:171-191 | every entry converted, in order, keeping its feed title, title and date; the first entry is converted with the counter as it stands |
| Assembly.ConvertAllSnoc | ContentProcess/ContentProcess.cs:171-191 | one more entry is converted with the counter advanced once per image of the entries before it, and its images follow theirs |
| Assembly.ConvertAllEntry | ContentProcess/ContentProcess.cs:171-191 | entry k is converted with the counter advanced by the image count of the entries before it |
| Assembly.ConvertAllNames | ContentProcess/ContentProcess.cs:36-191 | when each conversion names its images from the counter, the images of all entries are named from one counter in sequence |
| Assembly.SequenceDistinct | ContentProcess/ContentProcess.cs:78 | images named in sequence from the counter have pairwise distinct names while the counter does not wrap |
| Assembly.RewritingNames | ContentProcess/ContentProcess.cs:43-90 | the conversion built on `ProcessHtmlImages` names its i-th image from the counter advanced i+1 times |
| Assembly.CreateFb2 | ContentProcess/ContentProcess.cs:162-216 | null entries throw; the annotation counts the groups and every entry |
| Assembly.FeedBodyDistinct | ContentProcess/ContentProcess.cs:192-193 | one section per feed |
| Assembly.FeedBodyMembers | ContentProcess/ContentProcess.cs:192-242 | each section holds its feed's entries, newest first |
| Assembly.FeedBodyCovers | ContentProcess/ContentProcess.cs:192-193 | every entry's feed has a section |
| Assembly.CreateFb2Body | ContentProcess/ContentProcess.cs:171-252 | sections ordered by title, one per feed, holding exactly that feed's converted entries newest first, and every entry placed |
| Assembly.CreateFb2Binaries | ContentProcess/ContentProcess.cs:169-268 | binaries are the images of every conversion in order, followed by the cover |
| Assembly.CreateFb2ImageNames | ContentProcess/ContentProcess.cs:162-268 | every binary but the last is an image named from the one counter in sequence across the document, and the names are pairwise distinct while the counter does not wrap |
| Assembly.LegacyConvertGroup | ContentProcess.cs:322-328 | a group converts when each of its entries does, keeping its feed title |
| Assembly.LegacyConvertAll | ContentProcess.cs:321-328 | every group converted, with its title and entry count |
| Assembly.LegacyGroupNames | ContentProcess.cs:321-328 | the images of one group are named from the counter in sequence |
| Assembly.LegacyConvertAllNames | ContentProcess.cs:321-328 | the images of all groups are named from one counter in sequence |
| Assembly.SizesKept | ContentProcess.cs:348 | equal group sizes give equal entry counts |
| Assembly.LegacyCreateFb2 | ContentProcess.cs:316-348 | a null list throws `ArgumentNullException` for "source" (the `Sum` at ContentProcess.cs:318); otherwise it succeeds exactly when every group converts, and the annotation counts the groups and the entries |
| Assembly.LegacyCreateFb2Body | ContentProcess.cs:329-393 | the older body: groups by title, entries newest first |
| Assembly.LegacyCreateFb2ImageNames | ContentProcess.cs:316-348 | the cover comes last, every other binary is an image named from the counter in sequence, and the names are distinct while the counter does not wrap |
| Assembly.FailedFetchAcrossRevisions | ContentProcess.cs:326 | on a failed full fetch the older revision keeps the feed content and appends its notice, while the newer one is left with the notice alone |

## Left out

- The HTML parser (Majestic-12) is not part of this model: functions take chunks, and a parse failure is `None`.
- `WebUtility.HtmlEncode`, `ColorTranslator.FromHtml` for named colours, `GenerateHTML`, `GetBefore` and `string.Format` value formatting are parameters.
- Downloading pages, downloading and recoding images (GDI+, JPEG, base64 bytes) and the network are parameters that may fail.
- The regular expression that finds img sources is not modelled: callers pass its matches as ordered, non-overlapping spans.
- The Habr URL pattern is a hand-written scanner with an ASCII `\w`/`\d` and ASCII case folding; the .NET engine's Unicode classes and culture rules are not modelled.
- `Strings.ToLower`: ASCII letters only; the culture-sensitive `ToLower` of .NET is not modelled.
- `Fb2Markup.HtmlColorToGray`: integer luminance (30R+59G+11B)/100 instead of the floating-point sum, so agreement at bucket boundaries is not claimed.
- Assembly.TitleLe: ordinal comparison instead of the culture-sensitive default of `OrderBy` on strings.
- Assembly.SortBy: stable, but stability of `OrderByDescending` among equal dates is not stated.
- Concurrency: the older `AsParallel().ForAll`, the shared `binaries` list and `Interlocked` are sequential here. The order of binaries and which exception surfaces under parallel runs are not modelled.
- The XmlWriter calls, `DateTime` formatting, the stylesheet and reading `Resources/cover.png` are left out. The document is an abstract structure.
- `CreateFb2`: the `TextWriter` null check is left out, and the conversion and full-content fetch are parameters. `FeedEntry` content is assumed non-null. The feed classes are not part of this model.
- The older `bEndClosure` is a `SelfClose` kind; a CloseTag with `bEndClosure` set cannot be represented.
- Chunk lists the source mutates in place (`RemoveAt`, `Insert`, renaming) are modelled as sequence values that a method reassigns.
- In the newer comment loop a rewritten Tag chunk at i+1 changes only its `oHTML`, which `GenerateHTML` does not render; the model leaves it unchanged.
- LegacyHabrContent.ClosesArticle: the `TakeUntil` closure reads the reassigned variable; the model reads the body, which agrees on every position the closure is asked about.
- `AddComments` (newer) and `INCLUDE_COMMENTS` (older) are constants; only their fixed values are modelled.
- `HtmlUtils.CombineToHtml` (newer) folds each chunk's HTML; the per-chunk HTML is a parameter.
- `Utils.RecodeImage`, `Utils.Download`, `InternetUtils.Fetch` and `ImageUtils` are not part of this model.
- Images.ImageNamesDistinct: proved while the counter does not wrap past Int32.MaxValue within one call.
- Html.ImgSrcMatches: `\d` in `^\d+.jpe?g$` is read as the ASCII digits; the .NET engine also accepts any other Unicode decimal digit (such as "١٢.jpg"), which the model rejects.
- Cleanup.Filtered: keeps an img only when its src passes the ASCII reading of `^\d+.jpe?g$`, so an img named with other Unicode digits is dropped where the source keeps it.
- Fb2Markup.DefaultForEveryKind: emits an image only for a src that passes the ASCII reading of `^\d+.jpe?g$`; a src with other Unicode digits gets none where the source emits one.
- `HtmlUtils.ParseHtml` is not part of this model. Its result is tested against null (ContentProcess/ContentProcess.cs:108), so it is taken to be a materialised list whose chunk objects every query over the page shares.
- HabrContent.ProcessContent: object identity is modelled by a mark on each list entry saying whether it is one of the page's own chunks; the loop's edits reach the lazily read article through their page positions.
- Assembly.CreateFb2: the counter is an input; its value after the call is not returned, so the numbering across successive calls is not chained.
- Assembly.CreateFb2ImageNames: distinct names are proved only while the counter does not pass Int32.MaxValue within one document; Assembly.LegacyCreateFb2ImageNames likewise.
- Utils.Format: a property value is rendered by a parameter; the .NET format-string language is not modelled.
