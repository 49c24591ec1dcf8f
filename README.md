# csv-to-json in Dafny

A model of the CSV-to-records core of the csv-to-json web tool. Pasted or
uploaded CSV text goes through `parseCSV`, a character-by-character scanner
with quoted fields. When the first pass looks wrong, `parseCSV` sniffs a
different delimiter and reads the text again. `csvToJson` then turns the
rows into records: row 0 gives the trimmed header names, blank rows are
skipped, and every other row becomes an object from header name to cell
text. The model also covers the two pure helpers that name an uploaded
file: `sanitizeFilename` and `uniqueFilename`.

Modules, one per file:

- `Text` (`text.dfy`): JavaScript's `String.prototype.trim`, implemented
  with the full ECMAScript whitespace set (U+FEFF included). Also `indexOf`,
  and splitting at a character. The source never splits or joins. `Split`
  is the independent reference reading that `TokenizerProps.PlainTextIsSplit`
  compares the scanner with. `Join` with the lemmas `JoinSplit` and
  `SplitJoin` (split and join are inverses) checks that this reference
  loses nothing.
- `Tokenizer` (`tokenizer.dfy`): the scanner state machine as functions
  over the unread text (`Step`, `Scan`, `ParseOnce`), the reference
  delimiter choice `Sniff`, and the one-retry `Parse`. Two methods are the
  source's loops, each proved to compute its function:
  - `ParseCSV` is the `while` loop over index `i`, plus the recursive retry;
  - `DetectDelimiter` is the loop over the candidates.
- `TokenizerProps` (`tokenizer_props.dfy`):
  - what each branch of the loop does;
  - that a table written with every field quoted is read back exactly;
  - that text without quotes or carriage returns is split at line feeds,
    then at the delimiter;
  - how the retry behaves.
- `RecordBuilder` (`records.dfy`): `csvToJson`. The methods `CsvToJson`,
  `BuildRecords` (the row loop) and `RecordOfRow` (the column loop) are
  proved against the functions `Convert`, `Build` and `RecordOf`. Lemmas
  say which rows are kept, which keys a record has, and which value wins
  for a duplicate header.
- `Uploads` (`uploads.dfy`):
  - `sanitizeFilename`, proved equal to an independent
    character-by-character definition;
  - the timestamp and the stored name, with `new Date().toISOString()`,
    `path.basename` and `path.extname` passed in as strings.

Where the code and its comments differ, the model follows the code:

- The comment at app/page.tsx:303 says `\r\n` is handled. In the code, a
  carriage return ends the row by itself. The line feed after it then
  closes a second row that holds one empty field. Only `\n\r` counts as a
  single line break. `TokenizerProps.CarriageReturnLineFeed` and
  `TokenizerProps.LineFeedCarriageReturn` state both cases.
- The comment above `csvToJson` says the tool "trims UTF-8 BOM". The code
  removes only one U+FEFF character, and only at position 0. A second
  U+FEFF stays in the text and lands at the front of the first header
  cell, where `trim()` removes it, since it treats U+FEFF as whitespace. So
  the records are the same either way (`RecordBuilder.BomIgnored`).

## Model

| member | source | states |
|---|---|---|
| Text.Trim | app/page.tsx:223 | the result is a contiguous slice of the input with only whitespace before it and after it, starts and ends with a non-whitespace character, and is empty exactly when every character is whitespace |
| Text.IsSpace | app/page.tsx:223 | definition of the whitespace `trim()` strips (ECMAScript WhiteSpace and LineTerminator, U+FEFF included), also used at lines 233 and 239; no contract of its own (relied on by `Text.Trim`, `TrimAfterSpace`, `RecordBuilder.IsBlankRow`, `BomIgnored`) |
| Text.TrimAfterSpace | app/page.tsx:233 | a whitespace character in front of a cell (U+FEFF among them) does not change the trimmed cell |
| Tokenizer.Step | app/page.tsx:268-315 | one turn of the scanning loop never runs past the end and consumes two characters exactly for a doubled quote inside quotes, or for a line feed followed by a carriage return outside quotes when the line feed is not the delimiter; otherwise it consumes one |
| Tokenizer.Start | app/page.tsx:252-256 | definition of the initial state: no rows, empty field and row, outside quotes; no contract of its own (relied on by `Tokenizer.ParseOnce`, `TokenizerProps.UnterminatedQuoteText`, `QuotedTableRoundTrip`) |
| Tokenizer.PushField | app/page.tsx:258-261 | definition of the `pushField` closure; no contract of its own (characterised by `Tokenizer.ScanKeepsRows` and the branch lemmas `TokenizerProps.ScanDelimiter`, `ScanLineFeed`, `ScanCarriageReturn`) |
| Tokenizer.PushRow | app/page.tsx:262-266 | definition of the `pushRow` closure; no contract of its own (characterised by `Tokenizer.ScanKeepsRows`, `TokenizerProps.ScanLineFeed`, `ScanCarriageReturn`) |
| Tokenizer.Scan | app/page.tsx:268-315 | definition of the scanning loop over the unread text; no contract of its own (characterised by `Tokenizer.ScanKeepsRows`, the `TokenizerProps.Scan…` branch lemmas, `PlainTextIsSplit` and `QuotedTableRoundTrip`; `Tokenizer.ParseCSV` is proved to compute it) |
| Tokenizer.Flush | app/page.tsx:316-318 | definition of the final `pushField(); pushRow()`; no contract of its own (characterised by `Tokenizer.ParseOnce`, `TokenizerProps.UnterminatedQuote`) |
| Tokenizer.ScanKeepsRows | app/page.tsx:258-266 | scanning only appends finished rows, and each appended row holds at least one field |
| Tokenizer.ParseOnce | app/page.tsx:251-318 | one pass always gives at least one row, and every row has at least one field |
| Tokenizer.Degenerate | app/page.tsx:321 | definition of the retry condition `rows.length <= 1 \|\| rows[0].length === 1`; no contract of its own (characterised by `TokenizerProps.RetryOnce`, `NoRetry`) |
| Tokenizer.Count | app/page.tsx:330-332 | definition of `(sample.match(/c/g) \|\| []).length` as the multiset count of `c`; no contract of its own (used by `TokenizerProps.SniffIsStrictMaximum`, `SniffedOccurs`) |
| Tokenizer.Candidates | app/page.tsx:335 | definition of the candidates comma, semicolon, tab in the order that decides ties; no contract of its own (relied on by `Tokenizer.DetectDelimiter`, `TokenizerProps.SniffIsStrictMaximum`) |
| Tokenizer.Sniff | app/page.tsx:328-346 | reference definition of the delimiter choice; no contract of its own (characterised by `TokenizerProps.SniffIsStrictMaximum`, `SniffedOccurs`; `Tokenizer.DetectDelimiter` is proved to compute it) |
| Tokenizer.Parse | app/page.tsx:320-325 | `parseCSV` with its retry gives at least one row, each with at least one field |
| Tokenizer.ParseCSV | app/page.tsx:251-326 | the imperative scanner, including its recursive retry, returns exactly `Parse(input, delimiter)` |
| Tokenizer.DetectDelimiter | app/page.tsx:328-346 | the counting loop returns exactly the reference choice `Sniff(sample)` |
| TokenizerProps.ScanEscapedQuote | app/page.tsx:272-278 | inside quotes, `""` adds one quote to the field and stays in quoted mode |
| TokenizerProps.ScanClosingQuote | app/page.tsx:279-281 | inside quotes, a single quote leaves quoted mode and is dropped |
| TokenizerProps.ScanQuotedCharacter | app/page.tsx:283-285 | inside quotes, any other character, delimiters and line breaks included, is kept verbatim |
| TokenizerProps.ScanOpeningQuote | app/page.tsx:289-293 | outside quotes, a quote enters quoted mode wherever it stands in the field, and is dropped |
| TokenizerProps.ScanDelimiter | app/page.tsx:294-298 | outside quotes, the delimiter closes the field |
| TokenizerProps.ScanLineFeed | app/page.tsx:299-306 | outside quotes, a line feed closes the field and the row, and swallows one carriage return right after it |
| TokenizerProps.ScanCarriageReturn | app/page.tsx:307-312 | outside quotes, a carriage return closes the field and the row |
| TokenizerProps.ScanPlainCharacter | app/page.tsx:313-314 | outside quotes, any other character is appended to the field |
| TokenizerProps.CarriageReturnLineFeed | app/page.tsx:299-312 | `\r\n` is two line breaks, and the second one closes an extra row `[""]` |
| TokenizerProps.LineFeedCarriageReturn | app/page.tsx:299-305 | `\n\r` is a single line break |
| TokenizerProps.ScanInsideEscaped | app/page.tsx:271-286 | inside quotes, the escape of any field (each quote doubled) is read back as that field, and the scanner stays inside quotes |
| TokenizerProps.UnterminatedQuote | app/page.tsx:268-318 | from any state outside quotes, `"` followed by `Escape(f)` puts `f`, line breaks and delimiters included, into the current field, and that field ends the last row |
| TokenizerProps.UnterminatedQuoteText | app/page.tsx:251-318 | the text `"` followed by `Escape(f)` is one field `f` of one row |
| TokenizerProps.StaysQuoted | app/page.tsx:271-286 | definition of a text read wholly inside quotes (every quote starts a doubled pair, else line 279 leaves quoted mode); no contract of its own (characterised by `StaysQuotedIsEscape`, `EscapeStaysQuoted`) |
| TokenizerProps.Unescape | app/page.tsx:272-278 | definition of reading each doubled quote as one; no contract of its own (characterised by `StaysQuotedIsEscape`, `EscapeStaysQuoted`) |
| TokenizerProps.StaysQuotedIsEscape | app/page.tsx:271-286 | every text that never closes the quote is the escape `Escape(Unescape(s))` of a field |
| TokenizerProps.EscapeStaysQuoted | app/page.tsx:271-286 | conversely every escape never closes the quote and unescapes to its field, so these texts are exactly the escapes |
| TokenizerProps.UnterminatedQuoteAny | app/page.tsx:268-318 | from any state outside quotes, an opening quote that is never closed puts the whole rest of the text into the current field, each doubled quote read as one, and that field ends the last row |
| TokenizerProps.UnterminatedQuoteTextAny | app/page.tsx:251-318 | a text that opens with a quote it never closes is one field of one row, holding the rest of the text with each doubled quote read as one |
| TokenizerProps.UnterminatedWithEscapedQuote | app/page.tsx:268-318 | the text `"a""b` is one row with the one field `a"b` |
| TokenizerProps.QuotedTableRoundTrip | app/page.tsx:216-219 | a table written with every field quoted, quotes doubled and rows joined by line feeds is read back exactly by one pass, for any delimiter other than `"` and line feed |
| TokenizerProps.ParseQuotedTable | app/page.tsx:251-326 | the same holds for `parseCSV` whenever the table is not degenerate (more than one row, and a first row of more than one field) |
| TokenizerProps.PlainTextIsSplit | app/page.tsx:268-318 | one pass over text with no quotes and no carriage returns equals the reference reading: split at line feeds, then each line at the delimiter |
| TokenizerProps.SniffedDelimiterText | app/page.tsx:320-325 | quote-free text without commas, read with the default comma, comes out split at the sniffed semicolon or tab |
| TokenizerProps.SniffIsStrictMaximum | app/page.tsx:328-346 | the chosen delimiter occurs, beats every earlier candidate strictly and is beaten by no later one; there is none exactly when no candidate occurs |
| TokenizerProps.SniffedOccurs | app/page.tsx:345 | a sniffed delimiter occurs in the text |
| TokenizerProps.RetryOnce | app/page.tsx:321-323 | a degenerate first pass with a different sniffed delimiter gives the parse with that delimiter, and that call retries no more |
| TokenizerProps.NoRetry | app/page.tsx:321-325 | otherwise the first pass is the result |
| RecordBuilder.StripBom | app/page.tsx:225-228 | definition of the one-character BOM removal at position 0; no contract of its own (characterised by `RecordBuilder.BomIgnored`) |
| RecordBuilder.HeaderNames | app/page.tsx:233 | definition of the trimmed header row; no contract of its own (characterised by `RecordBuilder.HeaderNamesMark`, `RecordsKeyedByHeaders` and the contract of `Text.Trim`) |
| RecordBuilder.IsBlankRow | app/page.tsx:239 | definition of "every cell trims to empty"; no contract of its own (characterised by `RecordBuilder.KeptRowsAreNonBlank` and, through `Text.Trim`'s contract, equal to the source's test) |
| RecordBuilder.FallbackKey | app/page.tsx:243 | definition of `field_${c + 1}`; no contract of its own (characterised by `RecordBuilder.FallbackKeysDistinct`, `Decimal`, `DecimalRoundTrip`) |
| RecordBuilder.Cell | app/page.tsx:244 | definition of `r[c] ?? ""`; no contract of its own (characterised by `RecordBuilder.RecordValue`, `ExtraCellsIgnored`) |
| RecordBuilder.RecordOf | app/page.tsx:241-245 | definition of the object after the first `n` turns of the column loop; no contract of its own (characterised by `RecordBuilder.RecordKeys`, `RecordValue`, `ExtraCellsIgnored`; `RecordBuilder.RecordOfRow` is proved to compute it) |
| RecordBuilder.Build | app/page.tsx:233-247 | definition of the headers-then-rows step; no contract of its own (characterised by `RecordBuilder.BuildDataIsKeptRows`, `RecordsKeyedByHeaders`; `RecordBuilder.BuildRecords` is proved to compute it) |
| RecordBuilder.Convert | app/page.tsx:222-249 | reference definition of `csvToJson`; no contract of its own (characterised by `RecordBuilder.BomIgnored`, `BlankTextNoRecords`, `RecordCountBound`; `RecordBuilder.CsvToJson` is proved to compute it) |
| RecordBuilder.Decimal | app/page.tsx:243 | the numeral of `c + 1` is non-empty and all digits |
| RecordBuilder.DecimalRoundTrip | app/page.tsx:243 | reading the numeral back gives the number |
| RecordBuilder.FallbackKeysDistinct | app/page.tsx:243 | different columns get different `field_<n>` keys |
| RecordBuilder.ColumnKey | app/page.tsx:243 | the key a column writes is never empty |
| RecordBuilder.RecordKeys | app/page.tsx:241-245 | a record's keys are exactly the keys of its header columns |
| RecordBuilder.RecordValue | app/page.tsx:244 | the value under a key is the cell of the last column with that key, or empty text past the row's end |
| RecordBuilder.ExtraCellsIgnored | app/page.tsx:242-244 | cells beyond the header count do not affect the record |
| RecordBuilder.BuildData | app/page.tsx:236-247 | there are never more records than data rows |
| RecordBuilder.BuildDataNext | app/page.tsx:236-247 | one more data row adds its record at the end unless the row is blank, and otherwise adds nothing |
| RecordBuilder.RecordOfRow | app/page.tsx:241-245 | the column loop builds exactly `RecordOf(headers, r, \|headers\|)` |
| RecordBuilder.BuildRecords | app/page.tsx:233-248 | the row loop builds exactly `Build(rows)` |
| RecordBuilder.CsvToJson | app/page.tsx:222-249 | the whole function returns exactly `Convert(text)` |
| RecordBuilder.KeptRows | app/page.tsx:239 | every kept index is an index of a data row |
| RecordBuilder.KeptRowsIncrease | app/page.tsx:236 | kept rows come in input order |
| RecordBuilder.KeptRowsAreNonBlank | app/page.tsx:239 | a data row is kept exactly when some cell of it is not all whitespace |
| RecordBuilder.BuildDataIsKeptRows | app/page.tsx:236-247 | record `j` is built from the `j`-th kept row, and there is one record per kept row |
| RecordBuilder.KeptRowsAllIndices | app/page.tsx:239 | when no row is blank, every row is kept |
| RecordBuilder.NoBlankRows | app/page.tsx:236-247 | when no row is blank, record `k` is built from row `k` |
| RecordBuilder.RecordsKeyedByHeaders | app/page.tsx:233-245 | every record has exactly the keys derived from the header row |
| RecordBuilder.BlankTextNoRecords | app/page.tsx:223 | empty or whitespace-only text gives no records |
| RecordBuilder.RecordCountBound | app/page.tsx:230-247 | there are at most as many records as parsed rows minus the header row |
| RecordBuilder.ParseOnceMark | app/page.tsx:268-318 | a U+FEFF in front of the text is an ordinary character: a pass gives the same rows with U+FEFF at the front of the first cell |
| RecordBuilder.SniffMark | app/page.tsx:328-346 | a U+FEFF in front of the text does not change the sniffed delimiter |
| RecordBuilder.ParseMark | app/page.tsx:251-326 | a U+FEFF in front of the text changes the parsed rows only by standing at the front of the first cell, retry included |
| RecordBuilder.HeaderNamesMark | app/page.tsx:233 | the header trim removes a U+FEFF at the front of the first cell |
| RecordBuilder.BomIgnored | app/page.tsx:225-233 | a leading byte-order mark never changes the records: the first is removed, and a second one is trimmed off the first header |
| Uploads.IsForbidden | lib/server/uploads.ts:13 | definition of the class `[\\/\0\x00-\x1F\x7F]`: backslash, slash, U+0000 to U+001F and DEL; no contract of its own (relied on by `Uploads.Sanitize`, `SanitizeIsLocal`, `SafeBase`, `UniqueFilenameClean`) |
| Uploads.Clean | lib/server/uploads.ts:13 | definition of a name with no forbidden character; no contract of its own (relied on by `Uploads.Sanitize`, `SanitizeClean`, `SafeBase`, `UniqueFilenameClean`) |
| Uploads.Sanitize | lib/server/uploads.ts:13 | the result contains no backslash, slash, control character or DEL; it is no longer than the input; it is empty exactly when the input is |
| Uploads.SanitizeIsLocal | lib/server/uploads.ts:13 | the replace equals the character-by-character definition: each maximal run of forbidden characters becomes one `_`, and every other character is kept in order |
| Uploads.SanitizeClean | lib/server/uploads.ts:13 | a name with no forbidden character comes back unchanged |
| Uploads.SanitizeIdempotent | lib/server/uploads.ts:13 | sanitizing twice is the same as sanitizing once |
| Uploads.SanitizeCleanPrefix | lib/server/uploads.ts:13 | a clean prefix passes through, and only the rest is rewritten |
| Uploads.SanitizeRun | lib/server/uploads.ts:13 | a run of forbidden characters of any length, followed by a kept character or the end, becomes exactly one `_` |
| Uploads.DashColonsAndDots | lib/server/uploads.ts:23 | every `:` and `.` becomes `-`, and nothing else changes |
| Uploads.ReplaceFirst | lib/server/uploads.ts:24 | only the first occurrence, if there is one, is replaced |
| Uploads.Take19 | lib/server/uploads.ts:25 | the result is the first `min(19, length)` characters |
| Uploads.Stamp | lib/server/uploads.ts:21-25 | the stamp has at most 19 characters and contains no `:` or `.` |
| Uploads.StampOfIso | lib/server/uploads.ts:21-25 | for an ISO time `YYYY-MM-DDTHH:mm:ss...`, the stamp is `YYYY-MM-DD_HH-mm-ss` |
| Uploads.StampsDistinguishSeconds | lib/server/uploads.ts:21-25 | two ISO times give the same stamp exactly when they agree to the second |
| Uploads.StampClean | lib/server/uploads.ts:21-25 | a time string with no forbidden character gives a stamp with none |
| Uploads.SafeBase | lib/server/uploads.ts:19 | the base is never empty and never contains a forbidden character; `file` is used exactly when the original base is empty |
| Uploads.UniqueFilename | lib/server/uploads.ts:16-27 | the name is the safe base, then `__`, then the stamp, then the sanitized extension, each in its own place |
| Uploads.UniqueFilenameClean | lib/server/uploads.ts:16-27 | with a clean time string, the stored name contains no path separator and no control character |
| Uploads.UniqueFilenamePerSecond | lib/server/uploads.ts:16-27 | for the same original name, two ISO upload times give the same stored name exactly when they fall in the same second |

## Left out

- The React page, its hooks, clipboard, drag and drop, file reading, the
  fetch upload, the summary of fields and the JSON download
  (app/page.tsx:1-214). These are user interface and asynchronous I/O.
- `ensureUploadDir`, `listUploadedFiles` and `resolveSafeInUploadDir`
  (lib/server/uploads.ts:6-10, 29-60). These are filesystem calls, Node's
  `path.resolve` semantics and a sort on floating-point modification times.
- app/api/upload/route.ts and app/api/uploaded are not part of this model.
  They are HTTP handlers. Their copies of `sanitizeFilename` and
  `uniqueFilename` (app/api/upload/route.ts:14-30) match
  lib/server/uploads.ts:12-27, which is modelled once.
- `Uploads.UniqueFilename` takes the base and the extension as given.
  `path.basename` and `path.extname` are those of Node and are not
  modelled. The clock is a parameter.
- `Uploads.StampOfIso` covers years 0000 to 9999 only. For extended years,
  `toISOString` returns a `±YYYYYY` prefix, so the 19 characters kept no
  longer end at the seconds.
- Text is modelled as a sequence of Unicode characters. JavaScript strings
  are UTF-16 code units, so indices and lengths differ for characters
  outside the Basic Multilingual Plane. No character that the scanner,
  `trim` or the sanitizer tests is outside the Basic Multilingual Plane, so
  they decide their branches the same way.
- `Tokenizer.ParseCSV` takes its delimiter as one character. In the source
  the delimiter is a string, but callers only ever pass `,`, `;` or tab.
- `RecordBuilder.Record` is a map. A JavaScript object lists integer-like
  keys first and the rest in insertion order, and a key written as
  `__proto__` sets the prototype instead of a property. Neither key order
  nor that quirk is modelled.
- `RecordBuilder.CsvToJson` leaves out the branches for `rows.length === 0`
  and `!r`. Neither can be taken, because the scanner always returns at
  least one row and every row is an array.
- `RecordBuilder.BuildRecords` calls `RecordOfRow` for the column loop. In
  the source that loop is written inline in the row loop; the behaviour is
  the same. Its row loop runs over `rows[1..]` from index 0, where the
  source runs over `rows` from index 1.
- `String(h ?? "")` and `r[c] ?? ""` are modelled only for strings and a
  missing cell. The scanner's rows hold only strings, so `null` and
  `undefined` can arise only as a cell past the end of a row, which
  `RecordBuilder.Cell` covers.
