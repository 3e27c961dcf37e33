# A verified model of the free-state-party site builder's text pipeline

`build.py` turns a few markdown-like source texts into the pages of a small
static site. This project models its four text-to-HTML pieces in Dafny and
proves properties of them.

- `md_to_html` is the prose renderer. It drops headings and takes the
  last `## ` heading as the section title. It cuts the rest into
  paragraphs at blank lines and drops one-line `key:` metadata
  paragraphs. It applies bold, italic and em-dash rewriting and wraps
  each paragraph in `<p>`.
- `parse_events` is the event-list parser and card renderer. It is a
  line-driven state machine that files records under an open and a
  closed section. It has two nested helpers: `make_link`, which makes
  site-absolute links relative through `{{base}}`, and `render_cards`,
  which turns records into card markup.
- `parse_words` returns the stripped non-blank lines of a text.
- `build_page` fills the `{{name}}` placeholders of the base template in
  a fixed order.

Files and modules:

- `options.dfy` (`Options`): the `Option` type.
- `text.dfy` (`Text`): the Python string primitives the script uses, with
  their laws. These are `str.strip` over the exact `str.isspace`
  character set, `split('\n')`, `join`, ASCII `lower`, and `str.replace`
  with leftmost non-overlapping matches.
- `markdown.dfy` (`Markdown`): `md_to_html`. There is a specification
  function for each of its two loops. The two loops are methods proved
  equal to those functions. There are scanners for `re.split(r'\n\s*\n')`,
  `re.match(r'^[a-z_]+:')` and the lazy `re.sub` emphasis patterns.
- `events.dfy` (`Events`): the parse half of `parse_events`. Each line is
  first classified (`Classify`). Then a pure fold (`Run`) and a loop
  method (`ParseRecords`) over the Python variables `section`, `current`
  and the two lists compute the same records.
- `cards.dfy` (`Cards`): `make_link`, `render_cards` (a pure renderer and
  the loop method), and the outer `parse_events` method.
- `page.dfy` (`Page`): `build_page` as an ordered list of substitutions.
- `words.dfy` (`Words`): `parse_words`.

Three behaviours of the code are easy to miss, and the model keeps them:

- A record need not have a title. Field lines fill a record that no
  `- title:` line started, and `- title:` with nothing after it gives an
  empty title. Both records are filed like any other record once a section
  is chosen, and the card shows an empty title.
- The open-events marker only chooses the section. It does not file the
  record being built (build.py:89-91). `Events.OpenMarkerKeepsCurrent` and
  `Events.ReopenRefiles` state what happens instead.
- Only a one-line paragraph that starts with `[a-z_]+:` is dropped as
  metadata (build.py:66). A paragraph of several lines is always kept.

## Model

| member | source | states |
|---|---|---|
| Text.TrimLeft | build.py:41 | `lstrip` gives a suffix of the input that is empty or starts with a non-space |
| Text.TrimLeftShape | build.py:41 | what `lstrip` removes is all whitespace, and the rest is kept as it is |
| Text.TrimRightShape | build.py:41 | what `rstrip` removes is all whitespace, and the rest is kept as it is |
| Text.Strip | build.py:41 | `strip()` leaves no whitespace at either end and never lengthens the text |
| Text.StripShape | build.py:41 | `strip()` removes a whitespace prefix and a whitespace suffix, and nothing in between |
| Text.StripEmptyIff | build.py:51 | a line strips to `''` exactly when it is all whitespace |
| Text.StripIdempotent | build.py:30-35 | stripping twice is stripping once, so the second `strip()` of a file's text changes nothing |
| Text.Lower | build.py:89 | `lower()` keeps the length, leaves no ASCII capital, and leaves a text without capitals unchanged |
| Text.LowerIdempotent | build.py:89 | lowering a lowered text changes nothing |
| Text.Split | build.py:35 | `split('\n')` gives at least one piece, and no piece holds a newline |
| Text.JoinSplit | build.py:35 | joining the pieces of a split with the separator gives back the text |
| Text.SplitJoin | build.py:162 | splitting newline-free parts joined by newlines gives back the parts |
| Text.JoinAppend | build.py:156 | joining two non-empty runs puts one separator between the two joins |
| Text.ReplaceAll | build.py:73-74 | `str.replace`: leftmost occurrence first, scanning on after each one; its laws are the lemmas below |
| Text.ReplaceAllAbsent | build.py:73-74 | `replace` on a text without the pattern changes nothing |
| Text.ReplaceAllPrefixFree | build.py:169 | a prefix without the pattern's first character is copied unchanged |
| Text.ReplaceAllAvoids | build.py:176 | after `replace(q, r)` with an `r` that cannot complete `p`, `p` does not occur if it was `q` or was absent |
| Markdown.LastH2 | build.py:47-50 | there is no title exactly when no stripped line starts with `## ` |
| Markdown.LastH2IsLast | build.py:47-50 | the title is the stripped text after the last `## ` line |
| Markdown.KeptLines | build.py:40-55 | no heading line reaches the body |
| Markdown.ScanStep | build.py:41-55 | one turn of the first loop on the title, the body lines and `skip_blank` |
| Markdown.Scan | build.py:40-55 | the first loop as a fold over the lines; ScanMeaning states its meaning |
| Markdown.ScanMeaning | build.py:40-55 | the scan gives the last heading's title and the kept lines; a blank line is swallowed only right after a heading |
| Markdown.ScanLines | build.py:36-55 | the first loop computes the last `## ` title and exactly the kept lines |
| Markdown.WsRunEnd | build.py:58 | the end of the maximal whitespace run from a position |
| Markdown.LastNewline | build.py:58 | a newline in a range with no newline after it in the range, or none exactly when the range has no newline |
| Markdown.BlankBreak | build.py:58 | a `\n\s*\n` match starts with a newline, ends after a newline, and has only whitespace inside |
| Markdown.BlankBreakLongest | build.py:58 | the greedy `\s*`: a match ends right after the last newline that only whitespace separates from its start, and there is none when no such newline exists |
| Markdown.BreakFromBlank | build.py:58 | wherever a blank line starts, the pattern matches |
| Markdown.SplitParagraphsIff | build.py:58 | the body splits into several paragraphs exactly when it holds a blank line, and is otherwise one paragraph, unchanged |
| Markdown.ParagraphsHaveNoBlankLine | build.py:58 | no paragraph contains a blank line |
| Markdown.SplitBlankFrom | build.py:58 | the scan that splits the text gives at least one piece |
| Markdown.SplitParagraphs | build.py:58 | `re.split(r'\n\s*\n')` as the scan from the start; its meaning is given by SplitParagraphsSlices |
| Markdown.SplitParagraphsSlices | build.py:58 | the paragraphs are consecutive slices of the text: each gap between two of them is exactly a `\n\s*\n` match, no match starts inside a paragraph, and the last one runs to the end |
| Markdown.KeyLen | build.py:66 | the longest `[a-z_]` prefix |
| Markdown.MetadataIff | build.py:66 | `re.match(r'^[a-z_]+:')` succeeds exactly when a non-empty run of `[a-z_]` is followed by `:` |
| Markdown.ParagraphDroppedIff | build.py:62-67 | a paragraph is dropped exactly when it strips to `''` or is one line starting with `[a-z_]+:` |
| Markdown.FindClose | build.py:69-71 | the lazy search returns the first closing delimiter, with no newline before it, and finds none exactly when no delimiter starts before the next newline or the end |
| Markdown.MatchEmphasis | build.py:69-71 | a match has a non-empty, newline-free inner text between two delimiters, and it is the shortest one: no delimiter starts inside it after its first character |
| Markdown.MatchEmphasisComplete | build.py:69-71 | every run of delimiter, non-empty newline-free text, delimiter at the start of a paragraph is matched, so no match means there is no such run |
| Markdown.Emphasize | build.py:69-71 | `re.sub` with a lazy emphasis pattern: leftmost matches, left to right; its meaning is given by EmphasizeAbsent and EmphasisWraps |
| Markdown.EmphasizeAbsent | build.py:69-71 | a paragraph without the delimiter is not rewritten |
| Markdown.FindCloseScan | build.py:69-71 | past characters that neither start the delimiter nor are newlines, the lazy search stops at the first closing delimiter |
| Markdown.MatchDelimited | build.py:69-71 | a delimited run with a non-empty inner text free of the delimiter and of newlines matches, closing right after it |
| Markdown.EmphasisWraps | build.py:69-71 | such a run is wrapped in the tags, and the rest is rewritten on |
| Markdown.Dashes | build.py:73-74 | the two em-dash `replace` calls, in order; NoBareDashLeft states what they achieve |
| Markdown.Inline | build.py:68-74 | bold, then italic, then the dash rewrites; InlinePlain and NoBareDashLeft state what they do |
| Markdown.InlinePlain | build.py:68-74 | a paragraph with no `*` and no em dash is left unchanged |
| Markdown.NoBareDashLeft | build.py:73-74 | after the dash rewrites no em dash is followed by a space |
| Markdown.KeptParagraphs | build.py:61-67 | every surviving paragraph is stripped and not dropped |
| Markdown.Fragments | build.py:61-75 | the `<p>` fragments of the second loop, as a fold; FragmentsOfKept states its meaning |
| Markdown.FragmentsOfKept | build.py:61-75 | each surviving paragraph gives exactly one `<p>` fragment, in source order |
| Markdown.RenderParagraphs | build.py:59-75 | the second loop computes exactly those fragments |
| Markdown.DocumentTitle | build.py:35-50 | the title `md_to_html` returns: the last `## ` heading's text, or `''` |
| Markdown.DocumentBody | build.py:57-77 | the body `md_to_html` returns: the joined fragments of the paragraphs of the kept lines |
| Markdown.MdToHtml | build.py:33-77 | `md_to_html` returns the last-heading title and the joined fragments of the kept paragraphs |
| Markdown.BlankDocument | build.py:33-77 | a blank document gives an empty title and an empty body |
| Events.FieldOf | build.py:105-114 | a field line sets a field other than the title to a stripped value |
| Events.Classify | build.py:88-114 | a title or field value is stripped, and no field line sets the title |
| Events.Step | build.py:88-114 | one turn of the loop on `section`, `current` and the two lists, by line kind |
| Events.Run | build.py:87-114 | the loop as a fold of Step over the lines' kinds; the Run lemmas below state its properties |
| Events.Flush | build.py:116-117 | the pending record is filed under the chosen section, only when both exist |
| Events.Parse | build.py:82-117 | the loop from no section and no record, then the final flush |
| Events.ParseRecords | build.py:82-117 | the loop and the final flush compute the records of the pure fold |
| Events.StepFiles | build.py:93-104 | a line files at most one record, the pending one, under the section chosen before it |
| Events.RunExtends | build.py:87-114 | filed records stay filed, in place, at the front of the lists |
| Events.RunSnoc | build.py:87-114 | the loop handles one more line by one more step on the state it had reached |
| Events.RunAppend | build.py:87-114 | running the loop over two runs of lines is running it over the second from where the first left off |
| Events.RunWithoutMarker | build.py:89-104 | with no section chosen and no marker line, no section is chosen and neither list changes |
| Events.ParsedRecordsNonEmpty | build.py:93-117 | no filed record is an empty dictionary |
| Events.NoMarkerNoEvents | build.py:89-117 | without a section marker no record is ever filed |
| Events.DroppedBeforeMarker | build.py:101-104 | a pending record replaced while no section is chosen is dropped |
| Events.OpenMarkerKeepsCurrent | build.py:89-91 | the open-events marker leaves the pending record and the lists alone |
| Events.ReopenRefiles | build.py:89-104 | a record pending from the closed section is filed under open by the next title |
| Events.ClosedMarkerAdopts | build.py:92-97 | a record built before any marker survives the closed-events marker and is filed as closed |
| Events.LastValueNotTitle | build.py:105-114 | no field line sets the title |
| Events.RunInRecord | build.py:105-114 | inside one record, a field with a line is present and holds its last line's value, a field without one is as it was, and nothing else changes |
| Events.OpenTail | build.py:87-117 | a record started under the open marker with no later marker or title is filed exactly once, last in the open list, with its title and with exactly the other fields that have a line, each holding its last value |
| Cards.MakeLink | build.py:119-123 | `{{base}}` is prepended exactly when the link starts with `/`; the link itself is always kept at the end |
| Cards.Details | build.py:128-132 | the details hold the time, then the location, each only when non-empty |
| Cards.DetailsLine | build.py:128-135 | the details line is present exactly when the time or the location is non-empty; it shows time, bullet, location |
| Cards.Anchors | build.py:137-144 | the title is wrapped in an anchor, and the "Learn more" link is shown, exactly when the link is non-empty |
| Cards.Card | build.py:128-154 | the card of one record, as the f-string lays it out; Anchors, DetailsLine and EmptyLikeMissing state its properties |
| Cards.EmptyLikeMissing | build.py:129-152 | an empty field value renders exactly like a missing key |
| Cards.SameFieldsSameCard | build.py:128-154 | a card shows nothing of a record but its six field values, so records with the same values get the same card |
| Cards.Cards | build.py:126-155 | one card per record |
| Cards.CardsAppend | build.py:126-155 | the cards of two runs of records are the first run's cards followed by the second run's |
| Cards.CardsSnoc | build.py:127-155 | one more record adds its card at the end |
| Cards.CardsHtml | build.py:126-156 | `render_cards`: the cards joined with the line separator; CardsInOrder and CardsSingle state its properties |
| Cards.CardsInOrder | build.py:126-156 | the cards of two runs of records come in record order |
| Cards.CardsSingle | build.py:156 | one record gives its card alone, and no records give `''` |
| Cards.RenderCard | build.py:128-155 | the loop body builds the record's card |
| Cards.RenderCards | build.py:125-156 | the loop builds the cards of all records and joins them |
| Cards.ParseEvents | build.py:80-158 | `parse_events` returns the cards of the parsed open and closed records |
| Page.Placeholder | build.py:169 | a token starts with two opening braces and ends with a closing one |
| Page.NavSubs | build.py:179-181 | one substitution per navigation entry, in order, with its class |
| Page.SubstituteAppend | build.py:168-181 | substituting two runs of pairs is substituting the second after the first |
| Page.SubstituteNoBrace | build.py:168-181 | a text without an opening brace is not changed |
| Page.SubstituteAvoids | build.py:168-181 | a text that does not occur before the chain, and that no value can complete, does not occur after it |
| Page.SubstituteKeeps | build.py:168-181 | a token that no pair names passes through the whole chain unchanged |
| Page.KeepToken | build.py:169-181 | substituting one name leaves another name's token in place |
| Page.HitToken | build.py:169-181 | a token between brace-free texts is replaced by its value |
| Page.SubstituteFills | build.py:168-181 | a token is replaced by the value of the first pair that names it, once earlier pairs name other tokens |
| Page.SubstituteNested | build.py:168-181 | a value that brings in the token of a later pair has that token resolved by the later pair |
| Page.SubstituteHitsAt | build.py:168-181 | a token named by the k-th pair, and by no earlier pair, becomes that pair's value |
| Page.NoTokenAfter | build.py:168-181 | once the k-th pair has replaced its token, no later value can bring it back |
| Page.NavPairs | build.py:179-181 | the navigation loop makes one pair for `about`, then one for `events` |
| Page.PageSubsNames | build.py:168-181 | the chain fills eight brace-free names in source order: the content fourth, `{{base}}` sixth with `.` or `..`, then the two navigation classes |
| Page.MadeLink | build.py:121-122 | a link that `make_link` made relative is the `{{base}}` token followed by the link |
| Page.SubstituteHits | build.py:168-181 | a token becomes the value of the first pair that names it |
| Page.NoBaseLeft | build.py:168-181 | after `build_page` no `{{base}}` is left |
| Page.BaseResolvedBetweenText | build.py:176 | a `{{base}}` of the template between brace-free texts becomes `..` in a sub-directory page and `.` otherwise, whatever the values |
| Page.BaseResolved | build.py:168-183 | in any template, a `{{base}}` after text in which every `{` starts a whole token becomes `..` in a sub-directory page and `.` otherwise, and both sides are built on their own |
| Page.NoNavTokenLeft | build.py:178-181 | after `build_page` no navigation token is left |
| Page.NavResolvedBetweenText | build.py:178-181 | a navigation token between brace-free texts becomes `nav-active` for the active entry and `text-dark-200` otherwise, whatever the values |
| Page.UnknownTokenKeptBetweenText | build.py:168-183 | a token the page does not fill, between brace-free texts, passes through unchanged, whatever the values |
| Page.ContentLinkResolvedBetweenText | build.py:172-176 | a link that `make_link` made relative, inside brace-free content, resolves to `.` or `..` plus the link |
| Page.ReplaceSplit | build.py:169 | replacing a token distributes over a text in which every `{` starts a whole token, and whatever follows it |
| Page.FillReplaces | build.py:169 | replacing a token by a well-formed value is filling that token's places, and the result is well-formed again |
| Page.SubstituteSplit | build.py:168-181 | the chain of replacements distributes over a well-formed prefix and whatever follows it, when every value is well-formed |
| Page.BuildPage | build.py:165-183 | the template with the page's tokens replaced in the order of the code; the Page lemmas state its properties |
| Page.BuildPageSplit | build.py:168-183 | with values in which every `{` starts a whole token, the page of a template is the page of such a prefix followed by the page of the rest |
| Page.BuildPageAround | build.py:168-183 | the page of a template is the page of the text before a token, of the token alone and of the text after it |
| Page.NavResolved | build.py:178-181 | in any template, a navigation token after text in which every `{` starts a whole token becomes `nav-active` for the active entry and `text-dark-200` otherwise, and both sides are built on their own |
| Page.UnknownTokenKept | build.py:168-183 | in any template, a token the page does not fill, after text in which every `{` starts a whole token, passes through unchanged |
| Page.ContentLinkResolved | build.py:172-176 | in any template, a link that `make_link` made relative, inside the content, resolves to `.` or `..` plus the link, and the rest of the content gets the later pairs |
| Words.NonBlank | build.py:162 | every word is non-empty and stripped, and there are no more words than lines |
| Words.ParseWords | build.py:161-162 | the stripped non-blank lines of the stripped text; NonBlank and ParseWordsRoundTrip state its properties |
| Words.ParseWordsRoundTrip | build.py:161-162 | writing words one per line and reading them back gives the same words |
| Words.NonBlankSkipsBlank | build.py:162 | a whitespace-only line adds nothing to the list |

## Left out

- `read_file`, all of `build()`, the video copy and the `print` output (build.py:28-30, 186-464) are left out. They read and write files.
- `watch()` and the command-line entry point (build.py:467-507) are left out. They poll modification times and sleep.
- The embedded JavaScript, `json.dumps` and the page-layout literals inside `build()` are left out. They are constant data. The markup of `render_cards` is kept: `Cards.Markup` holds its fixed pieces as a `Cards.Layout` value, and the renderers and their lemmas are stated for any layout.
- The hero and Saturdays metadata loops and the maps URL inside `build()` are left out. They sit inside the I/O function.
- `render_cards`' `is_open` parameter is not modelled. The code never reads it.
- Text.Lower: lowers ASCII letters only, not all of Unicode as `str.lower()` does. It is used only to compare with the two all-ASCII markers. The one non-ASCII character that lowers to an ASCII letter is the Kelvin sign (to `k`), and neither marker has a `k`. So the comparison gives the same answer.
- Text.IsWs: is the fixed set of characters for which `str.isspace()` holds. The model takes it to be the same set as `\s` in `re` for text patterns.
- Strings are sequences of code points. No encoding or decoding is modelled.
- Python dictionaries keep insertion order, and `Events.Record` is an unordered map. No output depends on the order of a record's keys.
- Events.LastValue and `Events.RunInRecord`: the last-value property is stated for runs of lines inside one record, not across a closed-events marker that clears the record.
- Page.BuildPageSplit: holds only when every `{` of the prefix and of every value starts a whole `{{name}}` token. A value that ends in `{{` could otherwise complete a token with the text after it, and then the page does not split.
- Page.NavResolved: is stated for values in which every `{` starts a whole token, which excludes page scripts with braces in them. For any values, Page.NavResolvedBetweenText covers brace-free surroundings, and Page.NoNavTokenLeft covers every page.
- Page.UnknownTokenKept: has the same condition on the values, and Page.UnknownTokenKeptBetweenText covers any values.
- Page.BaseResolved: has the same condition on the values, and Page.BaseResolvedBetweenText covers any values.
- Page.ContentLinkResolved: has the same condition on the values and the content, and Page.ContentLinkResolvedBetweenText covers any values. Page.NoBaseLeft covers every page.
