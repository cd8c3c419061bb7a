# Data-conversion utilities: a Dafny model

This project models the string-processing core of a small web toolbox of
converters and viewers:

- **CSV line tokenizer** (`parseCSVLine`). A single pass over the characters
  with an "inside quotes" flag. A doubled quote inside quotes stands for one
  literal quote. Commas outside quotes end a field.
- **CSV to JSON** (`csvToJson`):
  - splits the text on `\r?\n` and drops whitespace-only lines;
  - parses the first line as the header row;
  - parses each trimmed data line, zips its values with the headers by
    position, and infers each value's type.
  - The result is modelled as a sequence of records. A record is an ordered
    key list plus a map, so a repeated header keeps its first position and
    takes the later column's value. A record also tracks whether it still
    inherits the `__proto__` accessor, because an assignment to a header named
    `__proto__` goes to that accessor rather than creating a key.
- **JSON to CSV** (`jsonToCsv`):
  - checks the shape of the parsed value;
  - collects the union of keys in first-seen order;
  - writes a quoted header row and one row per element;
  - doubles quotes in every non-null cell.
- **XML re-indenter** (`formatXml`):
  - splits the serialized document on `>`, optional whitespace, `<`;
  - writes each fragment on its own line, indented by a running indent of
    2-space units;
  - passes the text through an escape, replace and unescape clean-up chain;
  - the viewer then shows each line with a 1-based number, an indentation
    level and a closing-tag flag.
- **JSON viewer rows** (`parsedLines` in the JSON viewer). Each line of the
  pretty-printed JSON becomes a row. A row carries:
  - its trimmed content;
  - its indent level;
  - a 1-based line number and a `line-N` path;
  - open- and close-bracket flags.

  The collapsible body of a row is every later row with a greater indent.

How each file is modelled:

- `conversion.ts` is imperative. Its three functions become methods with
  loops:
  - `ParseCsvLine`, `CsvToJson` with `MakeRecord`;
  - `JsonToCsv` with `AllObjects`, `CollectHeaders`, `AddKeys` and
    `WriteTable`.

  Each method is proved equal to a specification function. The properties
  are proved about those functions.
- `formatXml`'s loop is the method `XmlFormat.FormatXml`. Its clean-up
  chain and the viewer's line classification are functions.
- The JSON viewer is pure: functions and lemmas.

The capstone `CsvRoundTrip.RoundTripRecords` connects the two converters. Take
a CSV table written by `jsonToCsv` where:

- there is at least one header;
- no header name holds a quote or a line break;
- no cell text holds a line break;
- no row is written as an empty line;
- no header is named `__proto__`.

`csvToJson` reads such a table back to one record per element, with the
headers as keys and each cell's text type-inferred.

Foreign calls are parameters of the model:

- `Number(value)` is `parseNumber: string -> Option<Number>`.
- `JSON.stringify` of a nested value is `stringify: Json -> string`.
- `JSON.parse` is `parse: string -> Parsed`, where `Parsed` is a value or a
  syntax error carrying the thrown message.
- In the viewer, `JSON.stringify(_, null, 2)` is `pretty: Json -> string`.

Modules:

| module | what it holds |
|---|---|
| `Wrappers` | `Option` |
| `Text` | whitespace, `trim`, `split`, `join`, decimal rendering, ASCII lower-casing |
| `Seqs` | first/last index, first-seen deduplication, flattening |
| `JsonValue` | the JSON value datatype, `Object.keys`, property lookup, parse outcome |
| `CsvLine` | `parseCSVLine`, cell rendering and the quote round trip |
| `CsvToJson` | `csvToJson` |
| `JsonToCsv` | `jsonToCsv` |
| `CsvRoundTrip` | JSON to CSV and back |
| `XmlSplit` | the split on `>\s*<` |
| `XmlCleanup` | the clean-up chain of `formatXml` |
| `XmlFormat` | the re-indenting loop of `formatXml` |
| `XmlLines` | the viewer's per-line numbers, indentation and closing-tag flag |
| `XmlTree` | what the formatter does to a serialized well-formed element tree |
| `JsonViewer` | the JSON viewer's rows and collapsible bodies |

## Model

| member | source | states |
|---|---|---|
| CsvLine.Scan | src/utils/conversion.ts:159-186 | definition of the character loop as a function of the unread rest and the quote state; each branch is pinned down by `ScanOpenQuote`, `ScanDoubledQuote`, `ScanCloseQuote`, `ScanComma` and `ScanText` |
| CsvLine.ParseCsvLine | src/utils/conversion.ts:154-189 | the loop's result is the field list of the character-by-character scan, whatever the line |
| CsvLine.ScanOpenQuote | src/utils/conversion.ts:163-165 | a quote outside quoted mode enters quoted mode and is not copied into the field |
| CsvLine.ScanDoubledQuote | src/utils/conversion.ts:166-170 | a doubled quote in quoted mode adds one literal quote and consumes both characters |
| CsvLine.ScanCloseQuote | src/utils/conversion.ts:171-174 | a quote in quoted mode not followed by another quote leaves quoted mode and is not copied |
| CsvLine.ScanComma | src/utils/conversion.ts:175-178 | a comma outside quotes ends the current field and starts an empty one |
| CsvLine.ScanText | src/utils/conversion.ts:179-181 | any other character, including a comma inside quotes, is appended to the current field |
| CsvLine.Fields | src/utils/conversion.ts:154-189 | the number of fields is one more than the number of commas met outside quoted mode; there is always at least one field |
| CsvLine.FieldCount | src/utils/conversion.ts:159-186 | from any scanner state, the fields produced are those already done, plus one, plus the unquoted commas ahead |
| CsvLine.NoQuotesIsSplit | src/utils/conversion.ts:154-189 | on a line without quotes the fields are exactly the split on every comma |
| CsvLine.ScanUnquoted | src/utils/conversion.ts:175-186 | outside quotes on quote-free text, the scan finishes the current field with the first comma-piece and adds the rest as fields |
| CsvLine.ScanUnclosedQuote | src/utils/conversion.ts:179-186 | in quoted mode on quote-free text, everything, commas included, goes into the last field, which is still pushed |
| CsvLine.QuotesOnlyFromPairs | src/utils/conversion.ts:163-174 | a field contains a quote only if the line contains two adjacent quotes; opening and closing quotes are never copied |
| CsvLine.Quote | src/utils/conversion.ts:54-56 | definition of a quoted field with its quotes doubled; pinned down by `QuoteRoundTrip` |
| CsvLine.EscapeQuotes | src/utils/conversion.ts:54-56 | every quote is doubled and nothing else is added: the text grows by exactly its number of quotes |
| CsvLine.EscapeQuotesUndouble | src/utils/conversion.ts:54-56 | reading each pair of quotes in the escaped text as one quote gives back the original text |
| CsvLine.EscapeQuoteFree | src/utils/conversion.ts:54-56 | quote doubling leaves quote-free text unchanged |
| CsvLine.RowRoundTrip | src/utils/conversion.ts:51-58 | a non-empty row of blank, quoted (quotes doubled) and comma-free bare cells joined by commas parses back to the cells' texts; an empty row does not, since `Fields("") == [""]` |
| CsvLine.QuoteRoundTrip | src/utils/conversion.ts:54-58 | quoting every field of a non-empty list (quotes doubled) and joining with commas parses back to exactly the original fields |
| CsvLine.UnbalancedQuoteTolerated | src/utils/conversion.ts:163-186 | a line ending in an unclosed quoted field parses to the earlier cells plus the unclosed field's text |
| CsvLine.QuotedCommaExample | src/utils/conversion.ts:163-178 | `a,"b,c",d` parses to `a`, `b,c`, `d` |
| CsvLine.DoubledQuoteExample | src/utils/conversion.ts:166-170 | `a,"b""c",d` parses to `a`, `b"c`, `d` |
| CsvToJson.DropCarriageReturn | src/utils/conversion.ts:79 | a piece changes exactly when it ends in a carriage return, and then only that last character is removed |
| CsvToJson.SplitLines | src/utils/conversion.ts:79 | splitting on `\r?\n` gives one line per newline-separated piece, free of newlines; every line but the last loses a trailing carriage return, and the last piece is kept as it is |
| CsvToJson.NonBlankLines | src/utils/conversion.ts:79 | definition of the `\r?\n` split followed by the blank filter; pinned down by `BlankInputNoRecords`, `RecordsOfLines` and `CsvRoundTrip.TableKeptLines` |
| CsvToJson.NonBlank | src/utils/conversion.ts:79 | the filter never adds lines, and a line is kept exactly when it is one of the input lines and its trimmed text is non-empty |
| CsvToJson.NonBlankKeepsNonBlank | src/utils/conversion.ts:79 | every kept line has non-empty trimmed text |
| CsvToJson.NonBlankOfBlanks | src/utils/conversion.ts:79 | lines that are all whitespace are all dropped |
| CsvToJson.BlankInputNoRecords | src/utils/conversion.ts:79-84 | text with no non-whitespace character converts to no records |
| CsvToJson.Infer | src/utils/conversion.ts:103-127 | an inferred value is never an object or an array |
| CsvToJson.InferPriority | src/utils/conversion.ts:105-127 | `""` stays `""`; a non-blank numeric value becomes that number; otherwise case-insensitive true/false become booleans and null becomes null; anything else stays the same string |
| CsvToJson.Assign | src/utils/conversion.ts:101-131 | definition of `jsonObject[header] = value`, with the `__proto__` accessor; pinned down by `BuildRecordValue`, `ProtoKeysStep` and `ProtoOnceStep` |
| CsvToJson.BuildRecord | src/utils/conversion.ts:97-132 | after the first n assignments the record's keys are distinct, and the names holding a value are exactly the keys |
| CsvToJson.BuildRecordValue | src/utils/conversion.ts:100-131 | each header's value comes from the column of its last occurrence among the headers seen |
| CsvToJson.RecordShape | src/utils/conversion.ts:97-132 | a row's record is well formed; without a `__proto__` header its keys are exactly the distinct headers in first-seen order; every header other than `__proto__` holds the value of its last column |
| CsvToJson.ZipByPosition | src/utils/conversion.ts:100-131 | with distinct headers, header j takes value j inferred, or `""` when the row is shorter; a single `__proto__` header never becomes a key |
| CsvToJson.ZipRecord | src/utils/conversion.ts:97-132 | a full row under distinct headers without `__proto__` has the headers as keys, each holding its own column's inferred value |
| CsvToJson.ProtoKeysStep | src/utils/conversion.ts:100-131 | while the accessor is in place, a non-null `__proto__` assignment changes nothing and any other name is added if new |
| CsvToJson.ProtoKeys | src/utils/conversion.ts:100-131 | while no `__proto__` column holds `null`, the record keeps the accessor and its keys are the other headers, deduplicated in first-seen order |
| CsvToJson.ProtoOnceStep | src/utils/conversion.ts:100-131 | a first assignment to `__proto__` cannot make it a key |
| CsvToJson.ProtoOnce | src/utils/conversion.ts:100-131 | with at most one `__proto__` header, that name is never a key, and the prototype is cut only if such a header exists |
| CsvToJson.ProtoHeaderIgnored | src/utils/conversion.ts:97-132 | the header row `__proto__,a` with the data row `1,2` gives a record with the single key `a` |
| CsvToJson.ProtoDetachedThenKept | src/utils/conversion.ts:97-132 | a `null` under a first `__proto__` column cuts the prototype, so a second `__proto__` column becomes an ordinary key |
| CsvToJson.ExtraValuesDropped | src/utils/conversion.ts:100-101 | values beyond the last header do not affect the record |
| CsvToJson.RowRecord | src/utils/conversion.ts:97-132 | definition: the record of one row is every header assigned in order; pinned down by `RecordShape`, `ZipByPosition` and `ZipRecord` |
| CsvToJson.MakeRecord | src/utils/conversion.ts:97-132 | the header loop, including the `__proto__` accessor's handling of assignments, builds exactly the row's record |
| CsvToJson.RowRecords | src/utils/conversion.ts:92-135 | definition of the row loop, skipping lines that trim to nothing; pinned down by `RowRecordsCount` and `RowRecordAt` |
| CsvToJson.Convert | src/utils/conversion.ts:76-135 | definition of the records `csvToJson` serialises; pinned down by `BlankInputNoRecords`, `RecordsOfLines` and `CsvRoundTrip.RoundTrip` |
| CsvToJson.RowRecordsCount | src/utils/conversion.ts:92-135 | one record per non-blank data line |
| CsvToJson.RowRecordAt | src/utils/conversion.ts:92-135 | record k comes from the fields of trimmed data line k |
| CsvToJson.RecordsOfLines | src/utils/conversion.ts:79-135 | the record count is the number of non-blank lines minus one; record k zips the untrimmed first line's fields with trimmed line k+1's fields |
| CsvToJson.CsvToJson | src/utils/conversion.ts:76-147 | the loop's records are exactly the conversion of the input |
| JsonValue.Members | src/utils/conversion.ts:37 | an object's members are its fields in order, an array's are its elements keyed by their decimal indices, and a scalar has none |
| JsonValue.Keys | src/utils/conversion.ts:37 | `Object.keys` lists the member names in member order |
| JsonValue.Lookup | src/utils/conversion.ts:49 | a property is found exactly when its key is among the keys, and then it is that member's value |
| JsonValue.LookupUnique | src/utils/conversion.ts:49 | in a value whose keys are distinct, looking up a member's key gives that member's value |
| JsonValue.ArraysWellKeyed | src/utils/conversion.ts:37 | an array's keys are always distinct |
| JsonToCsv.AllObjects | src/utils/conversion.ts:27 | the check succeeds exactly when every element is an object or an array, null excluded |
| JsonToCsv.KeyLists | src/utils/conversion.ts:36-38 | one key list per element, each that element's keys |
| JsonToCsv.Headers | src/utils/conversion.ts:35-41 | the header list has no repetition |
| JsonToCsv.HeadersAreAllKeys | src/utils/conversion.ts:35-41 | a name is a header exactly when some element has it as a key |
| JsonToCsv.HeadersFirstSeenOrder | src/utils/conversion.ts:35-41 | headers appear in the order their keys are first met across the elements |
| JsonToCsv.AddKeys | src/utils/conversion.ts:37 | adding one element's keys to the set keeps it the first-seen deduplication of all keys met |
| JsonToCsv.CollectHeaders | src/utils/conversion.ts:35-41 | the nested forEach computes exactly the header list |
| JsonValue.ScalarText | src/utils/conversion.ts:56 | definition of `String(value)` for a null, boolean, number or string; `JsonToCsv.FieldCell` states that a quoted scalar cell holds exactly this text |
| JsonToCsv.FieldCell | src/utils/conversion.ts:49-57 | a cell is empty and unquoted exactly when the value is missing or null; an object or array is quoted JSON text; any other value is its quoted `String` form |
| JsonToCsv.FieldCells | src/utils/conversion.ts:48-58 | one cell per header, in header order |
| JsonToCsv.DataLine | src/utils/conversion.ts:48-58 | definition of one data row, the element's cells joined with commas; pinned down by `DataRowRoundTrip` |
| JsonToCsv.DataLines | src/utils/conversion.ts:47-60 | one data line per element, in order |
| JsonToCsv.HeaderLine | src/utils/conversion.ts:44 | definition of the header row, every header quoted but not escaped; pinned down by `HeaderRoundTrip` and `UnescapedHeaderExample` |
| JsonToCsv.Table | src/utils/conversion.ts:44-60 | definition of the text `jsonToCsv` returns; pinned down by `WriteTable`, `TableSplitsIntoLines` and `CsvRoundTrip.RoundTrip` |
| JsonToCsv.TableLines | src/utils/conversion.ts:44-60 | the table has one header line then one line per element |
| JsonToCsv.TableSplitsIntoLines | src/utils/conversion.ts:44-60 | when no line holds a newline, every line ends in `\n`, so the text splits into the 1 + n lines and a final empty piece |
| JsonToCsv.WriteTable | src/utils/conversion.ts:44-60 | the `csv +=` loop writes every table line followed by a newline |
| JsonToCsv.HeaderRoundTrip | src/utils/conversion.ts:44 | a non-empty list of quote-free header names survives being quoted, joined and parsed back |
| JsonToCsv.UnescapedHeaderExample | src/utils/conversion.ts:44 | a header holding a quote is written unescaped and reads back altered: `a"b` becomes `ab` |
| JsonToCsv.DataRowRoundTrip | src/utils/conversion.ts:47-58 | with at least one header, a data line parses back to the texts of its cells |
| JsonToCsv.Convert | src/utils/conversion.ts:8-69 | exactly one of the CSV text and the error is present |
| JsonToCsv.Outcomes | src/utils/conversion.ts:11-32 | a parse error gives its message; a non-array gives "JSON must be an array of objects"; an empty array gives empty CSV; a non-object element gives "All items in the JSON array must be objects"; otherwise the table |
| JsonToCsv.JsonToCsv | src/utils/conversion.ts:8-69 | the method returns exactly the conversion's outcome |
| CsvRoundTrip.TableLinesUnbroken | src/utils/conversion.ts:44-60 | with line-break-free headers and cell texts, no table line contains a line break |
| CsvRoundTrip.TableLinesUnpadded | src/utils/conversion.ts:44-60 | no table line starts or ends with whitespace, so trimming changes nothing |
| CsvRoundTrip.HeaderRowShape | src/utils/conversion.ts:44 | for quote-free names the header line is the row of quoted cells |
| CsvRoundTrip.TableKeptLines | src/utils/conversion.ts:44-60 | reading the written table, the non-blank lines kept are exactly the table lines |
| CsvRoundTrip.RoundTrip | src/utils/conversion.ts:8-147 | converting the written table back gives one record per element, zipping the headers with that element's cell texts |
| CsvRoundTrip.RoundTripRecords | src/utils/conversion.ts:8-147 | each record read back has the headers as keys, and each key's value is the element's cell text type-inferred |
| CsvRoundTrip.NullOnlyColumnLost | src/utils/conversion.ts:44-60 | `[{"a": null}]` is written as a header line and an empty data line, and reading it back gives no records |
| CsvRoundTrip.NullOnlyRowWritten | src/utils/conversion.ts:44-60 | the table written for `[{"a": null}]` is `"a"` followed by two newlines |
| CsvRoundTrip.HeaderThenBlanks | src/utils/conversion.ts:79 | a header line followed by two newlines reads back as that line alone |
| CsvRoundTrip.NoHeadersNoRecords | src/utils/conversion.ts:44-84 | when no element has a key, the table reads back as no records |
| Seqs.DedupFirstSeenOrder | src/utils/conversion.ts:35-41 | deduplication keeps elements in the order they are first met |
| Text.NatToStringInjective | src/components/JsonViewer.tsx:46 | distinct numbers render as distinct decimal strings |
| XmlSplit.SeparatorAt | src/components/XmlViewer.tsx:86 | the matcher's definition; its contract only bounds the match, which `SeparatorSound` and `SeparatorComplete` pin down |
| XmlSplit.SeparatorSound | src/components/XmlViewer.tsx:86 | a reported match is `>`, whitespace only, `<` |
| XmlSplit.SeparatorComplete | src/components/XmlViewer.tsx:86 | every `>`, whitespace, `<` at the front is found, and its length is reported |
| XmlSplit.Fragments | src/components/XmlViewer.tsx:86 | the split's definition; its contract only promises at least one fragment, and `FragmentsAtMatch`, `FragmentsNoMatch` and `FragmentsOfJoin` pin down the result |
| XmlSplit.FragmentsAtMatch | src/components/XmlViewer.tsx:86 | a separator at the front closes an empty fragment |
| XmlSplit.FragmentsNoMatch | src/components/XmlViewer.tsx:86 | without a separator at the front, the first character starts the first fragment |
| XmlSplit.FragmentsOfJoin | src/components/XmlViewer.tsx:86 | joining pieces with `><` and splitting gives back the pieces when none holds a split point |
| XmlSplit.FragmentsExclude | src/components/XmlViewer.tsx:86 | fragments hold no character that the text lacks |
| XmlFormat.IsClosing | src/components/XmlViewer.tsx:87 | definition of the closing test; pinned down by `ClosingIsNotOpening` and `KindOf` |
| XmlFormat.OpeningPattern | src/components/XmlViewer.tsx:94 | definition of the regex of line 94; pinned down by `QuestionMarkTestRedundant` |
| XmlFormat.IsOpening | src/components/XmlViewer.tsx:94 | definition of the opening test; pinned down by `QuestionMarkTestRedundant`, `ClosingIsNotOpening` and `KindOf` |
| XmlFormat.LineDepth | src/components/XmlViewer.tsx:87-90 | definition of the depth a line is written at, never below zero; pinned down by `FormattedSnoc` |
| XmlFormat.NextDepth | src/components/XmlViewer.tsx:87-97 | definition of the depth after a fragment; pinned down by `FormattedSnoc` |
| XmlFormat.FinalDepth | src/components/XmlViewer.tsx:86-97 | definition of the depth after a prefix of fragments; pinned down by `DepthsAppend` and `FormattedSnoc` |
| XmlFormat.QuestionMarkTestRedundant | src/components/XmlViewer.tsx:94 | the opening test is the regex of line 94 together with the `?` test |
| XmlFormat.ClosingIsNotOpening | src/components/XmlViewer.tsx:87-97 | no fragment is both closing and opening |
| XmlFormat.KindOf | src/components/XmlViewer.tsx:87-97 | a fragment is classed as closing exactly when line 87 matches and as opening exactly when line 94 does |
| XmlFormat.Kinds | src/components/XmlViewer.tsx:86-97 | one class per fragment, in order |
| XmlFormat.LineDepths | src/components/XmlViewer.tsx:86-97 | one indent depth per fragment |
| XmlFormat.DepthsAppend | src/components/XmlViewer.tsx:86-97 | the depths over two runs of fragments are those of the first, then those of the second started where the first ended |
| XmlFormat.LayoutLine | src/components/XmlViewer.tsx:92 | definition of one written line; pinned down by `LayoutLineShape` and `XmlLines.ViewOfLayoutLine` |
| XmlFormat.Layout | src/components/XmlViewer.tsx:92 | one written line per fragment |
| XmlFormat.Formatted | src/components/XmlViewer.tsx:86-98 | definition of the text the loop builds; pinned down by `FormatXml`, `FormattedSnoc`, `FormattedStart` and `FormattedLines` |
| XmlFormat.FormattedSnoc | src/components/XmlViewer.tsx:86-97 | each fragment appends indent, `<`, fragment, `>` and a newline, at the depth the earlier fragments leave |
| XmlFormat.FormatXml | src/components/XmlViewer.tsx:81-112 | the loop builds the lines the depth functions describe (its invariant: the indent is two spaces per depth level, and a closing fragment at depth 0 leaves it empty); since the text never starts with a newline, the clean-up only collapses runs of newlines |
| XmlFormat.LayoutLineShape | src/components/XmlViewer.tsx:92 | each line is non-empty, starts with `<` at depth 0 and with a space otherwise, ends in `>`, and has no newline unless the fragment does |
| XmlFormat.FormattedStart | src/components/XmlViewer.tsx:82-98 | the built text is empty or starts with `<` |
| XmlFormat.FormattedLines | src/components/XmlViewer.tsx:86-98 | for newline-free fragments, the text splits into exactly the written lines and a final empty piece |
| XmlFormat.TerminatedNoDouble | src/components/XmlViewer.tsx:92 | newline-terminated non-empty lines never hold two newlines in a row or start with one |
| XmlFormat.CleanupKeepsFormatted | src/components/XmlViewer.tsx:101-111 | for newline-free fragments the clean-up chain returns the built text unchanged |
| XmlCleanup.Escape | src/components/XmlViewer.tsx:102-104 | definition of the three escapes in order; pinned down by `EscapeIsSinglePass`, `EscapeRemovesLt` and `UnescapeEscape` |
| XmlCleanup.ReplaceChar | src/components/XmlViewer.tsx:102-104 | a replacement that lacks the replaced character removes every occurrence |
| XmlCleanup.EscapeIsSinglePass | src/components/XmlViewer.tsx:102-104 | the three replacements in sequence are a single per-character escape |
| XmlCleanup.EscapeRemovesLt | src/components/XmlViewer.tsx:102-104 | after escaping no `<` or `>` remains, and newlines are kept |
| XmlCleanup.UnescapeEscape | src/components/XmlViewer.tsx:101-111 | the unescape of lines 109-111 undoes the escape of lines 102-104 |
| XmlCleanup.ReplaceAll | src/components/XmlViewer.tsx:105-111 | definition of a global replacement of a string pattern, scanned left to right without overlap (line 105 and the `split`/`join` passes of lines 109 to 111); pinned down by `ReplaceAllAbsent`, `ReplaceAllHit`, `ReplaceAllMiss` and `UnescapeEscape` |
| XmlCleanup.ReplaceAllAbsent | src/components/XmlViewer.tsx:105 | a pattern holding a character the text lacks is never replaced |
| XmlCleanup.DropLtAbsent | src/components/XmlViewer.tsx:106 | without `<` in the text, line 106 changes nothing |
| XmlCleanup.DropLtAfterNewline | src/components/XmlViewer.tsx:106 | definition of the second regex replacement; pinned down by `DropLtAbsent` |
| XmlCleanup.DropLeadingNewline | src/components/XmlViewer.tsx:107 | definition; `^` without the `m` flag matches only at the start, so exactly one leading newline goes |
| XmlCleanup.DropLeadingNewlineOnce | src/components/XmlViewer.tsx:107 | of two leading newlines only the first is dropped, and text not starting with a newline is kept |
| XmlCleanup.DropNewlines | src/components/XmlViewer.tsx:108 | helper of `CollapseNewlines` that skips a run of newlines: it removes exactly a run of newlines from the front and leaves text that does not start with one |
| XmlCleanup.CollapseNewlines | src/components/XmlViewer.tsx:108 | collapsing keeps the first character and leaves no two newlines in a row |
| XmlCleanup.CollapseFixed | src/components/XmlViewer.tsx:108 | collapsing changes nothing exactly when there are no two newlines in a row |
| XmlCleanup.CollapseEscape | src/components/XmlViewer.tsx:102-108 | collapsing newlines commutes with escaping |
| XmlCleanup.Unescape | src/components/XmlViewer.tsx:109-111 | definition of the three unescapes in order; pinned down by `UnescapeEscape` |
| XmlCleanup.Cleanup | src/components/XmlViewer.tsx:101-111 | definition of the whole chain; pinned down by `CleanupIsCollapse` and `XmlFormat.CleanupKeepsFormatted` |
| XmlCleanup.CleanupIsCollapse | src/components/XmlViewer.tsx:101-111 | on text not starting with a newline, the whole chain only collapses runs of newlines |
| XmlLines.Indentation | src/components/XmlViewer.tsx:123-124 | definition: half the length of the leading whitespace, not rounded; pinned down by `ViewOfLayoutLine` |
| XmlLines.IsClosingTag | src/components/XmlViewer.tsx:128 | definition of the closing-tag flag; pinned down by `ViewOfLayoutLine` |
| XmlLines.ViewLine | src/components/XmlViewer.tsx:123-128 | definition of one row's number, indentation and closing-tag flag; pinned down by `LineNumbers` and `ViewOfLayoutLine` |
| XmlLines.ViewerLines | src/components/XmlViewer.tsx:62 | one viewer row per newline-separated piece |
| XmlLines.LineNumbers | src/components/XmlViewer.tsx:71-72 | row numbers run from 1 to the number of rows, consecutively |
| XmlLines.ViewOfLayoutLine | src/components/XmlViewer.tsx:123-128 | a written line's indentation is its depth (spaces divided by 2, not floored) and it is a closing tag exactly when its fragment starts with `/` |
| XmlLines.PaddedTrim | src/components/XmlViewer.tsx:123-128 | for whitespace then unpadded text, the leading-whitespace count is the padding and the trim is the text |
| XmlLines.RowsOfFormatted | src/components/XmlViewer.tsx:62-128 | for newline-free fragments the viewer shows one row per fragment at its depth, closing exactly for `/` fragments, plus an empty last row |
| XmlTree.SerializeJoin | src/components/XmlViewer.tsx:86 | a serialized element is `<`, its tag pieces joined by `><`, `>` |
| XmlTree.DocumentFragments | src/components/XmlViewer.tsx:86 | splitting a serialized element gives its tag pieces, the first keeping the opening `<` and the last the closing `>` |
| XmlTree.ElementDepths | src/components/XmlViewer.tsx:86-97 | with tags of two or more characters, an element's lines sit at their nesting depths and the depth returns to where it started |
| XmlTree.DocumentDepths | src/components/XmlViewer.tsx:86-97 | for a well-formed tree whose elements with children have tags of at least two characters, every start and end tag of the document is written at its nesting depth |
| XmlTree.DocumentRows | src/components/XmlViewer.tsx:62-128 | for a well-formed tree whose elements with children have tags of at least two characters, and no line break in the serialized text, the viewer rows of the formatted document are numbered from 1 and indented by nesting depth |
| XmlTree.OneLetterTagNotIndented | src/components/XmlViewer.tsx:94 | the children of a root with a one-character name are not indented, one level less than their nesting depth |
| XmlTree.DoubledOuterBrackets | src/components/XmlViewer.tsx:86-92 | the first line comes out as `<<tag>` and the last as `</name>>` |
| JsonViewer.Truthy | src/components/JsonViewer.tsx:27 | definition of the truthy `error` prop; pinned down by `EmptyCases` |
| JsonViewer.ParsedLines | src/components/JsonViewer.tsx:26-52 | definition of `parsedLines`; pinned down by `EmptyCases` and `RowsOfDocument` |
| JsonViewer.SearchNonSpace | src/components/JsonViewer.tsx:35 | the search gives -1 exactly for a blank line, otherwise the index of the first non-whitespace character |
| JsonViewer.FloorHalf | src/components/JsonViewer.tsx:42 | the result is n/2 rounded down, also for -1 |
| JsonViewer.ParseLine | src/components/JsonViewer.tsx:34-47 | the line number is index + 1 and the path is `line-` followed by it |
| JsonViewer.LinesOf | src/components/JsonViewer.tsx:34-48 | one row per text line, numbered consecutively from 1, with path `line-N` |
| JsonViewer.EmptyCases | src/components/JsonViewer.tsx:27-51 | no rows exactly when the input is blank, the error is a non-empty string, or parsing fails |
| JsonViewer.RowsOfDocument | src/components/JsonViewer.tsx:31-48 | otherwise one row per line of the pretty-printed value, numbered from 1, holding the trimmed line |
| JsonViewer.PathStringsDistinct | src/components/JsonViewer.tsx:46 | distinct line numbers give distinct `line-` keys |
| JsonViewer.PathsDistinct | src/components/JsonViewer.tsx:46 | no two rows share a path |
| JsonViewer.LineFields | src/components/JsonViewer.tsx:35-42 | content is empty and indent is -1 exactly for blank lines; otherwise indent is the leading-space count halved and floored |
| JsonViewer.PaddedIndent | src/components/JsonViewer.tsx:35-42 | a line of n spaces before text has indent n/2 rounded down |
| JsonViewer.OpenFlag | src/components/JsonViewer.tsx:37 | the open flag holds exactly when the trimmed content ends with `{` or `[` |
| JsonViewer.CloseFlag | src/components/JsonViewer.tsx:38 | the close flag holds exactly when the first non-whitespace character is `}` or `]` |
| JsonViewer.Deeper | src/components/JsonViewer.tsx:99 | the filter's definition; its contract only says it never adds rows, and `DeeperMembers` and `DeeperAppend` pin down which rows it keeps and in what order |
| JsonViewer.DeeperMembers | src/components/JsonViewer.tsx:99 | a row survives the filter exactly when it has greater indent |
| JsonViewer.DeeperAppend | src/components/JsonViewer.tsx:99 | the filter keeps row order |
| JsonViewer.CollapsibleBody | src/components/JsonViewer.tsx:97-99 | definition of the rows inside a block; pinned down by `BodyMembers` and `BodyPassesClose` |
| JsonViewer.BodyMembers | src/components/JsonViewer.tsx:97-99 | the body is exactly the later rows with greater indent |
| JsonViewer.BodyPassesClose | src/components/JsonViewer.tsx:97-99 | the body does not stop at the matching close bracket: deeper rows after it are included, the bracket itself is not |
| JsonViewer.SiblingLeaksIntoBody | src/components/JsonViewer.tsx:97-99 | with indents 0,1,2,1,1,2,1,0, the body of row 1 holds the deeper rows of both siblings |

## Left out

- Pages, React components, hooks, toasts, clipboard, downloads and routing are
  not modelled.
- The rendering of markup is not modelled: the HTML colouring of XML lines,
  the `isOpeningTag` test, and the open state of collapsible sections in both
  viewers.
- `JSON.parse`, `JSON.stringify` and `Number(value)` are parameters. The JS
  number grammar and floating-point values are not modelled; a number is an
  opaque value carrying its `String` rendering.
- `csvToJson` returns records rather than the `JSON.stringify(_, null, 2)`
  text. Its `catch` branch is not modelled, because nothing inside the `try`
  throws once stringification is a parameter.
- The `jsonToCsv` `catch` branch is modelled only for a parse error; the
  other foreign calls are assumed not to throw.
- Key order is the object's own field order. The engine rule that puts
  integer-like keys first is not modelled.
- Property lookup does not see inherited properties such as `toString` or an
  array's `length`. In particular `item["__proto__"]` in `jsonToCsv` reads the
  prototype for an element without that own key; the model reads nothing.
- JSON objects are not required to list each key once, although `JSON.parse`
  only produces objects that do; `JsonValue.WellKeyed` states the condition.
  The functions do not rely on it: `Lookup` takes the first listing of a key, and
  `JsonValue.LookupUnique` ties it to the only listing when keys are distinct.
- A Dafny `char` is a Unicode scalar value, whereas a JavaScript string is a
  sequence of UTF-16 code units, so a lone surrogate cannot be represented.
  A character outside the Basic Multilingual Plane is one Dafny `char` but
  two JavaScript code units. The code compares characters against ASCII
  characters and against the whitespace class of `trim` and `\s`
  (`Text.IsSpace`, which includes U+00A0, U+1680, U+2000 to U+200A, U+2028,
  U+2029, U+202F, U+205F, U+3000 and U+FEFF). Each of these is a single
  UTF-16 code unit outside the surrogate range, so no comparison changes its
  outcome. The only positions the model reports, `search(/\S/)` in the JSON
  viewer and the leading-whitespace length in the XML viewer, are preceded
  only by such characters, so they count the same in both units.
- `toLowerCase` is modelled on ASCII letters only. This is exact for the
  comparisons with `true`, `false` and `null`, because no other character
  lower-cases to one of their letters.
- `DOMParser`, `XMLSerializer` and the viewer's parse-error check are browser
  APIs and are not modelled. `XmlTree` starts from a serialized element tree
  written without whitespace between tags.
- XmlTree.ElementDepths: proved only for trees whose elements with children
  have tags of at least two characters. The one-character case is not the
  nesting depth; `XmlTree.OneLetterTagNotIndented` states what happens there.
- XmlFormat.CleanupKeepsFormatted: stated for fragments without a newline.
  `XmlFormat.FormatXml` states the general case, which collapses runs of
  newlines.
- CsvRoundTrip.RoundTripRecords: proved only for tables with at least one
  header, no quote or line break in a header name, no line break in a cell
  text, and no row written as an empty line (a single column whose cell is
  empty). `JsonToCsv.UnescapedHeaderExample` shows a header with a quote that
  does not survive, and `CsvRoundTrip.NullOnlyColumnLost` shows a row lost as
  an empty line.
- CsvRoundTrip.RoundTripRecords: also requires that no header is named
  `__proto__`, because `csvToJson`'s assignment to that name goes to the
  prototype accessor and creates no key.
