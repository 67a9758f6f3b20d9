# slack-vsts link previews, modelled in Dafny

slack-vsts is a serverless handler that turns links to work items of a
Visual Studio Team Services (Azure DevOps) tracker, posted in a Slack
channel, into preview cards ("unfurls"). For each shared link it extracts
the work-item id, fetches the work item from the tracker's REST API,
builds an attachment card from the work item's fields, and posts the cards
back to Slack.

This project models the logic of `src/index.js` that decides what a card
says, and proves properties of it:

- `wrappers.dfy`: `Option` (JavaScript `undefined` or a value), `Result`,
  and the `Error` kinds for the three places where the source throws a
  `TypeError`.
- `sanitizer.dfy` (module `Sanitizer`): `removeHTML`, `decodeHTMLEntities`
  and `formatText`. The tag-stripping regular expression is modelled as the
  scan `StripTags`. The global literal `replace` of JavaScript is modelled
  as `ReplaceAll`: leftmost, non-overlapping, with no rescan of the
  replacement text. The entity loop is a method with a `for` loop, proved
  against the fold `DecodePasses` over the ten-entry table.
- `contact.dfy` (module `Contact`): `toMailto`. The regular expression
  `(.*[^<]) (<.*@{1}.*>)` is modelled by a scan. It takes the leftmost
  match start, the longest first group (greedy `.*`), and a second group
  that ends at the last `>` of the line. `.` does not match the four
  ECMAScript line terminators, while `[^<]` does. The scan is proved equal
  to the match semantics stated as predicates (`ContactMatch`).
- `fetcher.dfy` (module `WorkItemFetcher`): the id found by `idMatcher` and
  the request URL `getWorkitem` builds from it.
- `preview.dfy` (module `Preview`): `createAttachment`, a method following
  the source's statements in order, with its colour and emoji tables.

Where the source throws, the model returns `Failure`:

- `url.match(idMatcher)` finds nothing: `MissingWorkItemId`.
- `workType.toUpperCase()` runs on a missing type: `MissingWorkItemType`.
- `str.match(...)` in `toMailto` finds nothing: `MalformedContact`.

`createAttachment` evaluates `author_name` before the `Created By` field,
so a missing type is reported before a malformed creator.

The model follows the code, including these details a reader might not
expect:

- The card title is the literal `"Discription"`, not "Description".
- A work-item type outside the tables gives no colour. It also gives an
  author line that starts with the text `undefined`, because string
  concatenation renders the missing emoji that way.
- `decodeHTMLEntities` runs its passes in table order with `&amp;` first.
  So `&amp;lt;` decodes to `<` and `&amp;amp;` decodes to `&amp;`
  (`Sanitizer.DecodesAmpersandFirst`, `Sanitizer.DecodesAmpersandOnce`).
- `&nbsp;` decodes to a plain space (U+0020), as written in the table.

## Model

| member | source | states |
|---|---|---|
| Sanitizer.SkipPastGt | src/index.js:30 | what follows the `[^>]+(>\|$)` tail of a tag: the text after a `>`, or `""` (always `""` when there is no `>`); never longer than the input. `SkipPastGtAfter` shows the `>` is the first one |
| Sanitizer.StripTags | src/index.js:30 | stripping tags never lengthens the text |
| Sanitizer.RemoveHtml | src/index.js:28-31 | a missing or empty string gives `""`; otherwise the result is no longer than the input |
| Sanitizer.StripTagsIsSubsequence | src/index.js:30 | the stripped text is a subsequence of the input: characters are only deleted, never changed or reordered |
| Sanitizer.StripTagsKeepsPlainText | src/index.js:30 | a prefix without `<` is copied unchanged |
| Sanitizer.DeletesClosedTag | src/index.js:30 | `<body>` with a non-empty body without `>` is deleted together with its closing `>` |
| Sanitizer.DeletesUnclosedTag | src/index.js:30 | an unclosed `<body` at the end of the text is deleted (the `$` alternative) |
| Sanitizer.KeepsEmptyBrackets | src/index.js:30 | `<>` is not a tag (`[^>]+` needs a character) and is kept |
| Sanitizer.KeepsTrailingLt | src/index.js:30 | a `<` at the end of the text is kept (`[^>]+` needs a character after it) |
| Sanitizer.SkipPastGtAfter | src/index.js:30 | the tail of a tag ends exactly after the first `>` |
| Sanitizer.StripTagsHead | src/index.js:30 | a text not starting with `<` keeps its first character |
| Sanitizer.StripTagsIsTagFree | src/index.js:30 | after stripping, no `<` is followed by a character other than `>` |
| Sanitizer.StripTagsOfTagFree | src/index.js:30 | text with no tag start is left unchanged |
| Sanitizer.StripTagsIdempotent | src/index.js:30 | stripping twice equals stripping once |
| Sanitizer.RemoveHtmlIdempotent | src/index.js:28-31 | `removeHTML` applied to its own result changes nothing |
| Sanitizer.RemoveHtmlOfPlainText | src/index.js:28-31 | a string without `<` is returned unchanged |
| Sanitizer.Reference | src/index.js:23 | the pattern of an entry is `&`, the name, `;` |
| Sanitizer.ReplaceAll | src/index.js:23 | definition without a contract: the global replace of a literal pattern, leftmost, non-overlapping, without rescanning the replacement; its properties are the `ReplaceAll…` and `Pass…` lemmas |
| Sanitizer.DecodePasses | src/index.js:22-25 | definition without a contract: the text after the first `n` iterations of the loop; `DecodeHtmlEntities` is proved equal to it |
| Sanitizer.Decoded | src/index.js:8-26 | definition without a contract: the value `decodeHTMLEntities` returns, all ten passes; its properties are the `Decode…` lemmas |
| Sanitizer.DecodeHtmlEntities | src/index.js:8-26 | the loop returns the text after all ten replace passes, in table order |
| Sanitizer.FormatText | src/index.js:33-36 | the result is the entity decoding of the tag-stripped text; missing or empty input gives `""` |
| Sanitizer.ReplaceAllWithoutAmpersand | src/index.js:23 | a pass changes nothing in a text without `&` |
| Sanitizer.ReplaceAllCopiesPrefix | src/index.js:23 | a pass copies a prefix without `&` and continues after it |
| Sanitizer.PassesWithoutAmpersand | src/index.js:22-23 | once no `&` is left, the later passes change nothing |
| Sanitizer.DecodeWithoutAmpersand | src/index.js:8-26 | text without `&` decodes to itself |
| Sanitizer.EntityTableFacts | src/index.js:9-20 | the entity names are distinct and contain none of `&`, `;`, `<`; only the first value, `&`, contains `&` |
| Sanitizer.ReferencesDiffer | src/index.js:23 | the reference to one name never starts with the reference to another |
| Sanitizer.PassSkipsReference | src/index.js:23 | the pass for one name copies a reference to another name unchanged |
| Sanitizer.PassReplacesReference | src/index.js:23 | the pass for a name replaces a leading reference to it by its value |
| Sanitizer.RenderKeepsSpelling | src/index.js:22-23 | decoding never creates a name: text made of name characters at the start of partly decoded pieces is already at the start of the source text |
| Sanitizer.BareAmpersandPass | src/index.js:23 | a pass copies a `&`, bare or left by `&amp;`, when no name of that pass and `;` follow it |
| Sanitizer.PassDecodesOneEntry | src/index.js:22-23 | on unambiguous pieces, pass `n` turns the text after `n` passes into the text after `n + 1`: it decodes exactly the references to entry `n` |
| Sanitizer.PassesFollowStages | src/index.js:22-25 | when each pass turns one stage's text into the next, the loop's passes `m` to `n - 1` take stage `m` to stage `n` |
| Sanitizer.DecodesListedEntities | src/index.js:8-26 | for every unambiguous text (no `&amp;` directly followed by another entry's name and `;`): every listed reference, `&amp;` included, becomes its table value; plain characters, a bare `&` included, and references to unlisted names stay |
| Sanitizer.DecodesAdjacentReferences | src/index.js:8-26 | `&&amp;&lt;` decodes to `&&<`: a bare `&`, `&amp;` and `&lt;` side by side do not interact |
| Sanitizer.ReplaceAllShortens | src/index.js:23 | replacing a pattern by a value no longer than it never lengthens the text |
| Sanitizer.DecodePassesShortens | src/index.js:22-23 | decoding never lengthens the text |
| Sanitizer.DecodesAmpersand | src/index.js:10 | `&amp;` decodes to `&` |
| Sanitizer.AmpersandPass | src/index.js:23 | the first pass turns `&amp;` between text without `&` into `&` |
| Sanitizer.LaterPassKeepsAmpersand | src/index.js:22-23 | every pass after the first keeps a lone `&` that no `;` follows |
| Sanitizer.LoneAmpersandKept | src/index.js:22-23 | `&amp;` is decoded once, by the first pass; the `&` it leaves is kept by the later passes when no `;` follows it |
| Sanitizer.ReferenceSurvives | src/index.js:22-23 | a reference to a name no remaining pass handles is kept |
| Sanitizer.DecodesAmpersandFirst | src/index.js:9-25 | `&amp;lt;` decodes to `<`: the `&` produced by the first pass starts a reference for a later pass |
| Sanitizer.DecodesAmpersandOnce | src/index.js:9-25 | `&amp;amp;` decodes to `&amp;`: the `amp` pass runs only once |
| Sanitizer.FormatTextOfMarkupFreeText | src/index.js:33-36 | unambiguous text without `<` is decoded reference by reference |
| Sanitizer.FormatTextKeepsEscapedMarkup | src/index.js:33-36 | `&lt;b&gt;` gives `<b>`: escaped markup survives stripping, which runs first |
| Sanitizer.DeletesEndTag | src/index.js:30 | a closing tag `</t>` is deleted |
| Sanitizer.StripsElement | src/index.js:30 | an element `<t>x</t>` around text without `<` is stripped down to `x` |
| Sanitizer.FormatTextRemovesMarkup | src/index.js:33-36 | `<t>x</t>` gives `x` for every tag name `t` and every text `x` without `<` or `&` |
| Sanitizer.FormatTextDecodesAmpersand | src/index.js:33-36 | `p&amp;q` gives `p&q` when `p` and `q` hold no `<` or `&` and `q` holds no `;` (so `a &amp; b` gives `a & b`) |
| Contact.LineEnd | src/index.js:41 | the extent of `.*`: the first line terminator at or after a position, or the end |
| Contact.LastIndexOf | src/index.js:41 | the last occurrence of a character in a range, or none in it |
| Contact.AddressEnd | src/index.js:41 | a match of the second group spans at least `<@>` |
| Contact.LastSplit | src/index.js:41 | what it reports is a split point in the range |
| Contact.LastSplitIsLast | src/index.js:41 | every split point in the range is reported or lies before the reported one: the greedy `.*` of the first group |
| Contact.SplitLimit | src/index.js:41 | the bound on the end of a first group that starts at `i` lies after `i` and within the text; `MatchIsSplit` and `ScanFindsMatch` show it is the end of the line plus the one terminator `[^<]` may take |
| Contact.FirstMatch | src/index.js:41 | the match found starts at or after `i` and splits at the greatest split point of its line |
| Contact.ToMailto | src/index.js:39-43 | a missing or empty string gives `""`; the only error is a malformed contact |
| Contact.LinkAt | src/index.js:42 | definition without a contract: the link built from the groups of the match at `i` that splits at `q`; `ToMailtoOfMatch` states it |
| Contact.MailtoLink | src/index.js:42 | definition without a contract: `'<mailto:' + address.substr(1, length - 2) + '\|' + name + '>'`; `MailtoLinkOfBracketed` states what it does to a bracketed address |
| Contact.AddressEndSound | src/index.js:41 | the computed end is a match of the second group |
| Contact.AddressEndGreatest | src/index.js:41 | no match of the second group ends later than the computed end |
| Contact.MatchIsSplit | src/index.js:41 | every match of the whole pattern splits at a point the scan considers |
| Contact.FirstMatchFindsSplit | src/index.js:41 | a start where the first group can split is found, or an earlier one |
| Contact.FirstMatchFinds | src/index.js:41 | if the pattern matches at or after `i`, the scan finds a match starting no later |
| Contact.NoSplitBeforeFirst | src/index.js:41 | the first group cannot split at any start the scan passes over |
| Contact.FirstMatchIsLeftmost | src/index.js:41 | no match starts before the one the scan finds |
| Contact.ScanFindsMatch | src/index.js:41 | the split the scan picks at a start is a match of the whole pattern there |
| Contact.NoLongerFirstGroup | src/index.js:41 | no match from the same start has a longer first group |
| Contact.NoLongerSecondGroup | src/index.js:41 | no match of the second group is longer than the scan's |
| Contact.FirstMatchIsPreferred | src/index.js:41 | the scan's match is a match; it is the leftmost, has the longest first group at its start, and then the longest second group |
| Contact.ToMailtoFailsIff | src/index.js:41-42 | a non-empty string fails exactly when it contains no ` <…@…>` segment after a character other than `<` |
| Contact.ToMailtoOfMatch | src/index.js:41-42 | on a match, the link is built from the first group and the second group |
| Contact.MailtoLinkOfBracketed | src/index.js:42 | `substr(1, length - 2)` drops exactly the angle brackets around an address |
| Contact.RoundTripMatch | src/index.js:41 | on `name <address>` the match starts at 0, splits after the name and runs to the end |
| Contact.ToMailtoRoundTrip | src/index.js:39-43 | `Name <addr@host>` gives `<mailto:addr@host\|Name>` |
| WorkItemFetcher.DigitsEnd | src/index.js:5 | `\d+` takes the maximal run of digits |
| WorkItemFetcher.FindId | src/index.js:5 | the leftmost position where `_workitems/edit/` followed by a digit occurs, or none |
| WorkItemFetcher.ExtractId | src/index.js:48 | fails with a missing id exactly when no edit path followed by a digit occurs; otherwise a non-empty run of digits |
| WorkItemFetcher.RequestUrl | src/index.js:46-49 | the request fails exactly when no id is found |
| WorkItemFetcher.RequestUrlOfId | src/index.js:46-49 | for every link whose leftmost edit path followed by a digit is at `i` and whose digit run ends at `e`, the request is `https://<server>/DefaultCollection/_apis/wit/workitems/<url[i + 16..e]>?api-version=1.0`, 16 being the length of `_workitems/edit/` |
| WorkItemFetcher.ExtractIdIsLeftmostLongest | src/index.js:5 | the id is the maximal digit run after the leftmost edit path followed by a digit |
| WorkItemFetcher.ExtractIdFromLink | src/index.js:48 | a link `base + "_workitems/edit/" + id + rest` with no `_` in `base` yields `id` |
| WorkItemFetcher.RequestUrlForLink | src/index.js:49 | for such a link the request is `https://<server>/DefaultCollection/_apis/wit/workitems/<id>?api-version=1.0` |
| Preview.ColorsAreHexCodes | src/index.js:89-96 | every colour of the table is `#` and six hexadecimal digits |
| Preview.EmojiAreShortcodes | src/index.js:98-105 | every emoji of the table is a shortcode `:name:` |
| Preview.Get | src/index.js:107-141 | a read of `workitem.fields[key]` gives the field's value, and `undefined` exactly when the field is missing |
| Preview.ConcatText | src/index.js:113 | string concatenation renders `undefined` as the text `undefined` and a string as itself |
| Preview.Lookup | src/index.js:111 | a property read gives the table's value for a listed key and `undefined` otherwise |
| Preview.UpperAscii | src/index.js:113 | upper-casing keeps the length, maps each lower-case letter to its capital and leaves every other character |
| Preview.NatToDecimal | src/index.js:113 | the id is rendered as a non-empty string of digits |
| Preview.NatToDecimalRoundTrip | src/index.js:113 | the rendered digits denote the id and have no leading zero |
| Preview.IntToDecimal | src/index.js:113 | the rendering is non-empty and starts with `-` exactly for a negative id |
| Preview.CreateAttachment | src/index.js:88-147 | fails exactly for a missing type or a malformed creator, in that order. Otherwise: colour from the table; author line of emoji, upper-cased type and id; title as pretext; text formatted from the repro steps for a Bug and the description otherwise; State, Severity and Created By fields; a fourth field, Deployed To, exactly for a Bug or User Story whose state is not `New`; no field short |
| Preview.TablesListTheSameTypes | src/index.js:89-105 | the colour and emoji tables list the same six work-item types |

## Left out

- The HTTP requests (`rq.get` to the tracker, `rq.post` to Slack's `chat.unfurl`) and `console.log`: I/O. The request URL is modelled, the sending is not.
- `exports.handler` (the event parsing with `JSON.parse`, the `challenge` reply, the `Promise.all` fan-out over links, `postToSlack` and the `JSON.stringify` of the unfurls): I/O and asynchrony around the modelled functions.
- The `Authorization` header built from `config` with Base64, and `config` itself: configuration and credentials; the server name is a parameter.
- The card's `ts` field: it parses a date with `new Date`, which depends on the host's date parser.
- Preview.UpperAscii: models `toUpperCase` on ASCII only; non-ASCII letters (and special cases such as `ß`) are left unchanged.
- Preview.IntToDecimal: models the rendering of integer ids only, not JavaScript's rendering of non-integral numbers or of numbers at or above 10^21.
- Preview.Lookup: the colour and emoji tables are plain object literals, so a type named like an `Object.prototype` member (`constructor`, `toString`) would read an inherited value; the model treats such keys as missing.
- Work-item field values are strings and the work item has a numeric `id`. A missing `id` (which the author line would render as `undefined`), non-string JSON values (numbers, objects) and a missing `fields` object are not modelled.
- Sanitizer.RemoveHtml: `!str` is modelled for a missing or empty string only, not for other falsy values such as `0` or `null` of other types.
- Sanitizer.DecodesListedEntities: holds for unambiguous texts only. It excludes a `&amp;` directly followed by the name of another entry and `;` (such as `&amp;lt;`), which the source decodes twice: `&amp;lt;` gives `<`, as `DecodesAmpersandFirst` shows. A bare `&` followed by a listed name and `;` is that entry's own reference and is covered as a `Listed` piece; `&amp;amp;` is covered too and decodes to `&amp;`.
- Strings are sequences of Unicode scalar values, not of UTF-16 code units, so a lone surrogate cannot be represented. Otherwise the results agree with JavaScript: every character the code compares against is ASCII, and the only characters `substr` drops in `toMailto` are the ASCII `<` and `>`.
