# Invoice field extraction, modelled in Dafny

This project models the decision logic of an invoice-processing web
service. It covers two pieces:

- `extractInvoiceData`: turns the plain text of an invoice into a record of
  six optional fields. The fields are invoice number, date, due date,
  vendor, total and currency.
- `buildUrl`: fills `:key` placeholders in a route template.

The text is a `seq<char>`. Each field is an `Option<string>`, with `None`
standing for the source's `null`.

Modules, in dependency order:

- `Wrappers`: the `Option` type.
- `Text`: the string primitives the code relies on.
  - Whitespace is ECMAScript's `WhiteSpace` and `LineTerminator` code points,
    as used by `\s` and `trim()`.
  - ASCII case folding for the `/i` patterns.
  - `includes` and `indexOf`.
  - `trim`, and `split('\n')` with its inverse.
- `LineEndings`: the CR LF to LF normalisation.
- `Matchers`: the four label patterns as hand-written matchers.
  - A pattern is tried at each start position from left to right, and the
    first success wins (`String.prototype.match` without `g`).
  - At one position the label alternatives are tried in source order.
    Where two of them both read a value (`date` and `dated`, `no` and
    `no.`), they read the same one, so the order does not change the result.
  - The separator `\s*[:.]?\s*` (plus the optional currency symbol for the
    total) is read greedily.
  - The value group is read greedily.
  - The module's doc comment argues why no backtracking path can succeed
    where this one fails.
  - Each pattern also has a declarative description: label language,
    separator language, value language. The matchers are proved sound
    against it.
- `AlternativeOrder`: at one start position, every label alternative whose
  separator and value read gives the same hit.
- `MatcherFacts`: properties of the matchers.
  - Date reading is complete.
  - A due date implies a date.
  - An amount never contains the currency symbol.
  - The leftmost `total` wins.
- `MatcherCompleteness`: the converse of soundness. Wherever a label, a
  separator and a value of the field's shape occur, the matcher succeeds at
  the label's start. Every value reader returns the longest value at its
  position. A field found therefore follows the leftmost labelled
  occurrence in the text and is read greedily there.
- `Vendor`: the vendor line heuristic.
- `Currency`: the USD, EUR, GBP presence scan.
- `Extraction`: the record and `ExtractInvoiceData`, with the properties of
  the whole extraction.
- `Urls`: `buildUrl`, both the literal substitution and the code's
  `String.prototype.replace` behaviour (see Findings).

The date value `\d{1,4}[-/.]\d{1,2}[-/.]\d{2,4}` can only be followed by a
separator when it took its whole digit run. So a run of five digits before
the first separator, or three before the second, gives no date there. The
last group takes at most four digits of its run. Date tokens are therefore
6 to 12 characters long.

## Model

| member | source | states |
|---|---|---|
| LineEndings.Normalize | server/routes.ts:86 | The result is never longer, has the same characters as the input once carriage returns are dropped, and equals the input when it holds no CR. |
| LineEndings.NormalizeKeepsPairFree | server/routes.ts:86 | A text holding no CR LF pair comes back unchanged, lone carriage returns included. |
| LineEndings.NormalizeAtCrlf | server/routes.ts:86 | Each CR LF pair becomes LF, and the text on either side of it is normalised on its own; a CR just before the pair stays. With NormalizeKeepsPairFree this fixes the result for every input. |
| LineEndings.NormalizeToCrlf | server/routes.ts:86 | Normalising a CR-free text written with CR LF line endings gives back the text. |
| LineEndings.NormalizeNotIdempotent | server/routes.ts:86 | The replacement is a single left-to-right pass: `\r\r\n\n` becomes `\r\n\n`, which a second pass would turn into `\n\n`. |
| Text.IndexOf | shared/routes.ts:49-50 | `indexOf` returns a value exactly when `includes` holds, and the value is the first index where the pattern occurs. |
| Text.Trim | server/routes.ts:122 | `trim()` returns a slice that neither starts nor ends with whitespace, and only whitespace is cut off either side. |
| Text.SplitLines | server/routes.ts:122 | `split('\n')` gives at least one piece, and no piece holds a newline. `JoinSplit` and `SplitJoin` show that it inverts joining with newlines. |
| Text.JoinSplit | server/routes.ts:122 | Joining the pieces of `split('\n')` with newlines gives back the text. |
| Text.SplitJoin | server/routes.ts:122 | Splitting newline-free pieces joined by newlines gives back the pieces. |
| Matchers.LabelEnds | server/routes.ts:99 | Every label end found at a position spans a word of the pattern's label alternation, such as `invoice` or `inv`, then whitespace, then `no.`, `no`, `number` or `#`. |
| Matchers.InvoiceNumberAt | server/routes.ts:99 | The greedy `[a-zA-Z0-9-]{3,}` reads the whole identifier run, at least three characters, and fails exactly when the run is shorter. |
| Matchers.DateTokenAt | server/routes.ts:104 | What the date reader returns occurs at the position and is a three-group date token. |
| Matchers.AmountAt | server/routes.ts:112 | What the amount reader returns occurs at the position and is an amount; it fails exactly when no digit or comma is there. |
| Matchers.CaptureAt | server/routes.ts:112 | After a label end, the separator read (`\s*[:.]?\s*`, with an optional `$€£¥` for the total) is in the separator language, and the value found has the field's shape. That the value is the longest one there is stated by `MatcherCompleteness.CaptureAtLongest`. |
| Matchers.FirstCapture | server/routes.ts:99 | Of the label ends tried in the alternation's order, the capture of the first one whose separator and value read is returned; there is none exactly when no capture succeeds. |
| Matchers.ValueStart | server/routes.ts:99-112 | The greedy scan of `\s*[:.]?\s*` (for the total, followed by an optional `$€£¥` and more whitespace) ends inside the text, and what it skipped is in the separator language. `MatcherCompleteness.SeparatorEnd` and `MatcherCompleteness.ValueStartsSolid` show it stops exactly where any value of the field can start. |
| AlternativeOrder.CapturesAgree | server/routes.ts:99-112 | At one start position, any two label ends whose captures both succeed give the same hit. |
| AlternativeOrder.MatchAtIsAnyCapture | server/routes.ts:99-112 | The match at a position equals the capture of any label end there whose capture succeeds, whichever alternative of the label alternation it belongs to. |
| AlternativeOrder.InvoiceEndsClose | server/routes.ts:99 | Two label ends of the invoice-number pattern at one position are equal, or they are `no` and `no.` one apart across a dot. |
| AlternativeOrder.InvoiceBlocksInv | server/routes.ts:99 | Where `invoice` starts, the `inv` alternative has no label end: its tail would have to start at the `o`. |
| AlternativeOrder.DotEndsAgree | server/routes.ts:99 | The invoice-number captures after `no` and after `no.` are equal whenever both succeed. |
| AlternativeOrder.DatedBlocksDate | server/routes.ts:104 | Where `dated` starts, the capture after `date` fails, because a date cannot start with the letter `d`. |
| AlternativeOrder.DateEndsAgree | server/routes.ts:104 | Two date label ends at one position whose captures both succeed are the same end. |
| AlternativeOrder.DueDateEndsOne | server/routes.ts:108 | The due-date pattern has at most one label end at a position. |
| AlternativeOrder.TotalEndsOne | server/routes.ts:112 | The total pattern has at most one label end at a position, since its alternatives start with different letters. |
| Matchers.MatchAt | server/routes.ts:99 | A match at a position returns a value occurring in the text that has the field's shape. That the value is the greedy capture is stated by `MatcherCompleteness.MatchAtLongest`. |
| MatcherCompleteness.LabelEndsComplete | server/routes.ts:99 | Every span of the label language that starts at a position is among the label ends tried there. |
| MatcherCompleteness.SeparatorEnd | server/routes.ts:112 | Whenever a separator is followed by a character that can start a value, the greedy separator scan stops exactly at that character. |
| MatcherCompleteness.CaptureAtComplete | server/routes.ts:99-113 | After a label end, a separator and a value of the field's shape make the capture succeed, with the value starting where the separator ends and read at least in full. |
| MatcherCompleteness.MatchAtComplete | server/routes.ts:99-113 | The pattern matches at every position where a label, a separator and a value of the field's shape occur. |
| MatcherCompleteness.FieldValueComplete | server/routes.ts:99-113 | Whenever a label, separator and value occur, the field is found, from a match that starts no later than that label. |
| MatcherCompleteness.AmountAtComplete | server/routes.ts:112 | Wherever some prefix of the text is an amount, the amount reader succeeds and reads at least that much, so it returns the longest amount there. |
| MatcherCompleteness.InvoiceNumberAtComplete | server/routes.ts:99 | Wherever an identifier of three or more characters starts, the invoice-number reader succeeds and reads at least that much. |
| MatcherCompleteness.ValueAtComplete | server/routes.ts:99-113 | Each field's value reader misses no value of the field's shape and reads at least as far. |
| MatcherCompleteness.ValueAtLongest | server/routes.ts:99-113 | Each field's value reader returns the longest value of the field's shape at its position. |
| MatcherCompleteness.CaptureAtLongest | server/routes.ts:99-113 | The capture after a label end is the longest value of the field's shape where the separator ends, as a greedy group takes it. |
| MatcherCompleteness.MatchAtLongest | server/routes.ts:99-113 | A match at a position captures the longest value of the field's shape where its separator ends. |
| MatcherCompleteness.NothingLabelledBefore | server/routes.ts:99-113 | Where the pattern matches at no position before `p`, no label, separator and value of the field's shape start before `p`. |
| MatcherCompleteness.MatchAtEveryLabel | server/routes.ts:99-113 | Every label at a matching position whose separator and value read gives the value of the match. |
| MatcherCompleteness.FieldValueLeftmostLongest | server/routes.ts:99-113 | The field found follows a label at the leftmost position where a label, a separator and a value of the field's shape occur. Every label at that position that reads a value gives this one, and it is the longest such value there. |
| MatcherCompleteness.ValueStartsSolid | server/routes.ts:99-113 | Every value starts with a character that no separator can consume: not whitespace, `:`, `.` or a currency symbol. |
| Matchers.MatchAtSound | server/routes.ts:99-113 | A match at `p` is a label starting at `p`, then a separator, then the captured value. |
| Matchers.Search | server/routes.ts:99-113 | `match` returns the leftmost position where the pattern matches; no earlier position matches; there is no result exactly when no position matches. |
| Matchers.FieldValue | server/routes.ts:99-113 | The captured group has its field's shape and comes from the leftmost position where the pattern matches, with no match before it; it is absent exactly when the pattern matches nowhere. |
| MatcherFacts.FieldValueSound | server/routes.ts:99-113 | Every extracted value is the value part of a label, separator, value occurrence in the text. |
| MatcherFacts.DateTokenAtComplete | server/routes.ts:104 | Wherever some prefix of the text is a date token, the date reader succeeds there and reads at least that much. |
| MatcherFacts.TwoGroupsIsNotDate | server/routes.ts:104 | `2024-1` is not a date token. |
| MatcherFacts.DateTokenShape | server/routes.ts:104 | A date token is 6 to 12 characters long. |
| MatcherFacts.NoCalendarCheck | server/routes.ts:104 | `99/99/9999` is a date token: no calendar validation is done. |
| MatcherFacts.AmountHasNoSymbol | server/routes.ts:112 | An amount holds only digits, commas and at most one dot, so the currency symbol is never part of it. |
| MatcherFacts.LeftmostTotalWins | server/routes.ts:112 | The `total` inside `Subtotal` is a label: the leftmost `total` whose value reads, with no total match before it, supplies the total. |
| MatcherFacts.DueDateMatchHasDateMatch | server/routes.ts:104-108 | The word `date` of a due-date match starts a date match with the same value. |
| MatcherFacts.DueDateImpliesDate | server/routes.ts:104-109 | If the due-date pattern matches, the date pattern matches too, at or before the `date` of the due-date label. |
| Currency.DetectCurrency | server/routes.ts:117-119 | The currency is USD when `$` or `USD` occurs; otherwise EUR when `€` or `EUR` occurs; otherwise GBP when `£` or `GBP` occurs; otherwise none. |
| Currency.NoTriggerNoCurrency | server/routes.ts:117-119 | Text without any of the trigger characters gets no currency. |
| Currency.AppendNonTrigger | server/routes.ts:117-119 | A trailing character such as `¥` that is not a trigger never changes the currency. |
| Currency.LowerCaseCodesIgnored | server/routes.ts:117-119 | The tests are case-sensitive: `usd eur gbp` gets no currency. |
| Currency.DollarWins | server/routes.ts:117 | A `$` gives USD even when `€` and `£` are present. |
| Vendor.TrimAll | server/routes.ts:122 | `map(l => l.trim())` keeps the number of lines and replaces each line, in place, by its trimmed form. |
| Vendor.NonEmpty | server/routes.ts:122 | `filter(l => l.length > 0)` keeps exactly the non-empty lines. `FindNonEmpty` shows the order is kept for the search that follows. |
| Vendor.Find | server/routes.ts:123-128 | `find` returns a line of the list that passes the vendor test, and no earlier line passes it; there is none exactly when no line passes. |
| Vendor.HasBillToIff | server/routes.ts:126 | The scan for `bill\s*to` succeeds exactly when `bill`, whitespace and `to` occur in a line, case-insensitively. |
| Vendor.FindNonEmpty | server/routes.ts:122-128 | Filtering out empty lines and then finding gives the first line that is non-empty and passes the vendor test, and nothing only when no line does. |
| Vendor.VendorOf | server/routes.ts:122-129 | Carries no ensures of its own. Its properties are stated by `VendorIsFirstQualifyingLine`, `NoVendorWhenNoneQualifies` and `NoneQualifiesWhenNoVendor`. |
| Vendor.PickVendor | server/routes.ts:122-129 | The vendor chosen from the trimmed lines is the first qualifying one; there is none exactly when no line qualifies. |
| Vendor.VendorIsFirstQualifyingLine | server/routes.ts:122-129 | The vendor is a trimmed line of the text; it is non-empty, shorter than 50 characters and free of `invoice`, `date` and any match of `bill\s*to`; every earlier trimmed line fails one of these tests. |
| Vendor.NoVendorWhenNoneQualifies | server/routes.ts:122-129 | If no trimmed line qualifies, there is no vendor. |
| Vendor.NoneQualifiesWhenNoVendor | server/routes.ts:122-129 | If there is no vendor, no trimmed line qualifies. |
| Vendor.TotalLineTakenForVendor | server/routes.ts:122-129 | For an invoice whose lines are invoice number, date, due date, `Total: $1,250.00` and `Acme Corp`, the vendor is `Total: $1,250.00`: the first line that passes, not the company name. |
| Vendor.TrimmedOfJoin | server/routes.ts:122 | Lines that are already trimmed come back unchanged from splitting and trimming their join. |
| Extraction.ExtractInvoiceData | server/routes.ts:84-132 | Carries no ensures of its own. Its properties are stated field by field: `LabelFieldFound`, `LabelFieldLeftmost`, `FoundFieldsAreLabelled`, `LabelledFieldIsFound`, `DueDateNeedsDate`, `CurrencyIsFirstMentioned`, `VendorIsFirstQualifying`, `NoVendorIffNoneQualifies`, `EmptyTextFindsNothing` and `CrlfEquivalence`. |
| Extraction.LabelFieldLeftmost | server/routes.ts:97-113 | Each label field found is the value after the leftmost label of its field in the normalised text that a separator and a value of its shape follow. Every label at that position that reads a value gives the same one, and it is the longest value of that shape there. |
| Extraction.LabelFieldFound | server/routes.ts:97-113 | Each label field found has its field's shape, and is absent exactly when its pattern matches nowhere in the normalised text. |
| Extraction.FoundFieldsAreLabelled | server/routes.ts:99-113 | Each label field found is the value part of a label, separator, value occurrence in the normalised text. |
| Extraction.LabelledFieldIsFound | server/routes.ts:97-113 | Conversely, a label field is found whenever the normalised text holds a label of it, a separator and a value of its shape. |
| Extraction.VendorIsFirstQualifying | server/routes.ts:122-129 | The record's vendor is non-empty, shorter than 50 characters and free of `invoice`, `date` and any match of `bill\s*to`, and it is the first trimmed line of the normalised text that passes. |
| Extraction.NoVendorIffNoneQualifies | server/routes.ts:122-129 | The record has no vendor exactly when no trimmed line of the normalised text qualifies. |
| Extraction.DueDateNeedsDate | server/routes.ts:104-109 | A due date is never extracted without a date. |
| Extraction.CurrencyIsFirstMentioned | server/routes.ts:117-119 | The record's currency is the first of USD, EUR, GBP mentioned in the normalised text. |
| Extraction.EmptyTextFindsNothing | server/routes.ts:88-95 | The empty text gives the record with all six fields absent. |
| Extraction.CrlfEquivalence | server/routes.ts:86 | A CR-free text and the same text with every LF written as CR LF give the same record. |
| Urls.Substitute | shared/routes.ts:49-50 | If `:key` does not occur, the url is unchanged. Otherwise, at the first occurrence: the text before it is kept, the value is inserted, the text after it is kept, and the length grows by the value's length and shrinks by the placeholder's length (the key's length plus one). |
| Urls.FirstAtIsIndexOf | shared/routes.ts:50 | The first occurrence that `replace` with a string pattern acts on is exactly the index `indexOf` returns. |
| Urls.SubstituteAt | shared/routes.ts:50 | At the first occurrence `i`, the result is the url up to `i`, then the value, then the url after the placeholder. |
| Urls.LaterCopySurvives | shared/routes.ts:50 | Only the first occurrence is replaced; a later copy of the placeholder survives, shifted by the change in length. |
| Urls.RepeatedPlaceholderExample | shared/routes.ts:50 | `/invoices/:id/:id` with `id = 7` becomes `/invoices/7/:id`. |
| Urls.AbsentKeyIsSkipped | shared/routes.ts:49 | A pair whose placeholder does not occur leaves the url unchanged. |
| Urls.ApplyAll | shared/routes.ts:48-52 | Pairs are applied in order, each with the literal substitution; a url without `:` comes out unchanged. |
| Urls.BuildUrlOnePair | shared/routes.ts:45-55 | With a single pair, `buildUrl` is exactly one substitution of that pair. |
| Urls.ApplyAllConcat | shared/routes.ts:48-52 | Applying `ps` then `qs` is the same as applying `ps + qs`: each pair acts on the previous pair's result. |
| Urls.BuildUrl | shared/routes.ts:45-55 | The corrected `buildUrl`, with values inserted literally: without params the path is returned as it is; a path without `:` is returned as it is for any params; otherwise the pairs are applied in order. |
| Urls.Expand | shared/routes.ts:50 | The replacement text `replace` inserts for a template. A template without `$` is inserted verbatim. |
| Urls.SubstituteAsWritten | shared/routes.ts:49-50 | The code's `url.replace(":" + key, value)` leaves the url unchanged when `:key` does not occur, and agrees with the literal substitution whenever the value holds no `$`. |
| Urls.ApplyAllAsWritten | shared/routes.ts:48-52 | The code's fold of `replace` over the pairs, in order; a url without `:` comes out unchanged. |
| Urls.BuildUrlAsWritten | shared/routes.ts:45-55 | `buildUrl` exactly as written, values expanded as replacement templates: without params the path is returned as it is, and so is a path without `:` for any params. |
| Urls.DollarValueCounterexample | shared/routes.ts:50 | With the value `$&`, the code leaves `/a/:id` unchanged, where the literal substitution gives `/a/$&`. |
| Urls.ApplyAllAgrees | shared/routes.ts:48-52 | The code's fold of `replace` over the pairs equals the literal fold whenever no value holds `$`. |
| Urls.BuildUrlAgrees | shared/routes.ts:45-55 | `buildUrl` as written equals the literal `BuildUrl` for every path and every params whose values hold no `$`. |
| Urls.BuildUrlDollarCounterexample | shared/routes.ts:45-55 | With params `{ id: "$&" }`, `buildUrl` as written returns `/a/:id` unchanged, where the literal version gives `/a/$&`. |

## Left out

- Text extraction from PDF files, file upload handling, the HTTP handler, its response envelope and the 500-character preview are not part of this model. They are I/O and request plumbing. The model starts from the extracted text.
- Persistence, the database configuration and all client code are not part of this model. They are storage, UI and network code.
- The zod and drizzle schema declarations are not modelled. Only the six-field record shape of `extractedData` (shared/schema.ts:9-16) appears, as `ExtractedData`.
- Lengths are sequence lengths, not UTF-16 code-unit counts. This affects the `< 50` vendor test only for characters outside the Basic Multilingual Plane.
- The whitespace set is the one ECMAScript defines today. Its dependence on the Unicode version of the JavaScript engine is not modelled.
- `String(value)` in `buildUrl` is not modelled. Values are taken as already-converted strings.
- `Object.entries` ordering is not modelled. The params arrive as a sequence already in that order.
- Matchers.Search: the reduction of each regular expression to a deterministic scan is argued in the doc comment of `Matchers`, not proved against a general regex semantics. The matchers are proved sound and complete against the declarative label, separator and value languages, but those languages are transcribed from the patterns by hand.
- Urls.ApplyAll, Urls.BuildUrl: these compute the corrected, literal substitution. The code's own fold is `Urls.BuildUrlAsWritten`, which equals `BuildUrl` whenever no value holds `$` (`Urls.BuildUrlAgrees`); see Findings.
- Urls.Substitute: the length change of `|value| - |key| - 1` holds for the code as written only when the value has no `$`; see Findings.

## Findings

| source | as written | input that shows it | evidently intended | confidence | as-written member | corrected member |
|---|---|---|---|---|---|---|
| shared/routes.ts:50 | `url.replace(":" + key, String(value))` reads the value as a replacement template, so `$&`, `$'`, `` $` `` and `$$` in a value are expanded | path `/a/:id`, params `{ id: "$&" }` gives `/a/:id` | the value inserted literally, giving `/a/$&` | medium (not executed) | Urls.SubstituteAsWritten, Urls.DollarValueCounterexample, Urls.BuildUrlDollarCounterexample | Urls.Substitute, Urls.BuildUrl |
