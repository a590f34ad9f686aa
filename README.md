# PDF-to-Excel converter: the data-shaping core

The converter asks a language model to read a PDF and answer with its tables.
It then shapes that answer into downloadable data. This project models the
three pure transformations in that process, and proves what they promise.

- **Text-to-table reconstruction** (the Streamlit app). The free-text answer
  is first stripped and cut into lines. A delimiter is picked from the first
  line only: `|` over `,` over tab. Pipe mode drops non-pipe lines and lines
  whose trimmed form starts with `|--`. Every line is then split on the
  delimiter into trimmed cells, and all-blank rows are dropped. Two or more
  surviving rows make a table, with the first row as header. Otherwise one
  of two "not a table" notices is shown. The text download is always
  offered (`TableReconstruct`, `Downloads`, and the worked inputs in
  `TableScenarios`). Python's `str.strip`, `str.split` and `str.join` are
  in `Text`, and the list comprehensions are a generic `Filter` in `Seqs`.
  Because the whole answer is stripped before it is cut into lines, a
  tab-separated answer whose header starts with an empty cell loses that
  cell's tab, so the header lacks that empty first cell while the rows
  below keep theirs (`TableReconstruct.LeadingTabStripped`).
- **CSV export** (the web front end). The union of all keys, in first-seen
  order, forms an unquoted header line. Each row becomes one line:
  - string values are quoted, with embedded quotes doubled;
  - null and missing values are empty fields;
  - numbers are written bare.

  Lines are joined with a line feed and a byte-order mark is prepended; no
  rows means no content (`CsvExport`). For comparison, `CsvRead` is a
  reader in the style of RFC 4180: reading the export back recovers the
  header names and every cell.
- **Response-shape normalisation** (the Gemini service). A missing or empty
  answer is an error before parsing. A parsed array is returned unchanged.
  A parsed object yields its first array-valued property. Anything else is
  an invalid structure. Errors reach the caller unchanged
  (`ResponseShape`).

All three are pure, so the model is made of datatypes, functions and lemmas.
The pandas frame builder and the JSON parser are passed in as function
parameters.

## Model

| member | source | states |
|---|---|---|
| Text.LStrip | streamlit_app.py:212 | The result is a suffix of the input. The part removed is all whitespace (Python's `str.isspace` set), and the result does not start with whitespace. |
| Text.RStrip | streamlit_app.py:212 | The mirror image of `LStrip`: a prefix, with an all-whitespace part removed and no trailing whitespace. |
| Text.Strip | streamlit_app.py:212 | The result is no longer than the input and has no whitespace at either end. It is empty exactly when the input is all whitespace. |
| Text.StripCharacterization | streamlit_app.py:212 | When `s[i..j]` has only whitespace around it and non-space characters at both ends, `strip(s)` is exactly `s[i..j]`. |
| Text.StripTrimmed | streamlit_app.py:224 | A string without whitespace at its ends is left unchanged. |
| Text.StripIdempotent | streamlit_app.py:227 | Stripping twice is stripping once, so re-stripping already-trimmed cells in the blank-row test changes nothing. |
| Text.LStripAt | streamlit_app.py:212 | When `s[..i]` is all whitespace and `s[i]` is not, the left strip is exactly `s[i..]`. |
| Text.RStripAt | streamlit_app.py:212 | When `s[j..]` is all whitespace and `s[j - 1]` is not, the right strip is exactly `s[..j]`. |
| Text.StartsWithRStrip | streamlit_app.py:220 | Removing trailing whitespace does not change whether a string starts with a prefix that ends in a non-space character. |
| Text.StripChars | streamlit_app.py:212 | Every character of the stripped text occurs in the text. |
| Text.Split | streamlit_app.py:222 | `split(sep)` never gives an empty list, and no piece contains `sep`. |
| Text.SplitCount | streamlit_app.py:222 | `split(sep)` gives exactly one more piece than `sep` has occurrences. |
| Text.SplitChars | streamlit_app.py:212 | Every character of a piece occurs in the split string. |
| Text.JoinSplit | streamlit_app.py:222 | Joining the pieces of a split with the same separator gives back the original string. |
| Text.SplitJoin | streamlit_app.py:222 | Splitting a join of separator-free pieces gives back exactly those pieces. |
| Text.SplitPrefix | streamlit_app.py:212 | `split(a + sep + b)` is `[a]` followed by `split(b)` when `a` holds no `sep`. |
| Text.SplitNone | streamlit_app.py:222 | A string without the separator splits into itself alone. |
| Text.JoinChars | utils/fileUtils.ts:38-40 | A character that is not the separator and is in no piece is not in the joined string. |
| Text.IsSpace | streamlit_app.py:212 | Python's `str.isspace` for one character, as a reference set: tab to carriage return, the file, group, record and unit separators, space, U+0085, U+00A0, U+1680, U+2000 to U+200A, U+2028, U+2029, U+202F, U+205F and U+3000. `LStrip`, `RStrip` and `StripCharacterization` state `strip()` in its terms. |
| Text.StartsWith | streamlit_app.py:220 | `s.startswith(prefix)`: the prefix is no longer than `s` and equals its first characters. `StartsWithRStrip` and `SeparatorByFirstChars` state what it decides on a stripped line. |
| Text.Join | utils/fileUtils.ts:28-40 | `parts.join(sep)`, for the header line, each data line and the whole text. `JoinSplit` and `SplitJoin` prove it is the inverse of `Split`, and `JoinChars` that it adds only the separator. |
| Seqs.Filter | streamlit_app.py:220-227 | `[x for x in s if p(x)]`: no longer than `s`, and it holds exactly the elements of `s` that satisfy `p`. Order and multiplicity follow from `FilterAppend` and `FilterSingleton`. |
| Seqs.FilterAppend | streamlit_app.py:220 | A list comprehension with a condition distributes over concatenation, so order is kept. |
| Seqs.FilterSingleton | streamlit_app.py:227 | On one element, the filter keeps it exactly when the condition holds. |
| Seqs.FilterKeepsAll | streamlit_app.py:227 | The filter returns its input exactly when every element passes. |
| Seqs.Distinct | utils/fileUtils.ts:24 | `Array.from(new Set(...))` has the same elements as its input, each exactly once. |
| Seqs.DistinctOrder | utils/fileUtils.ts:24 | The distinct elements come in the order of their first occurrence in the input. |
| TableReconstruct.DetectDelimiter | streamlit_app.py:215-216 | There is no delimiter exactly when the line has no `\|`, `,` or tab. A chosen delimiter occurs in the line, and no delimiter of higher precedence does. |
| TableReconstruct.Lines | streamlit_app.py:212 | There is always at least one line, and all-whitespace text gives exactly `[""]`. |
| TableReconstruct.IsSeparator | streamlit_app.py:220 | `line.strip().startswith('\|--')`. `SeparatorByFirstChars` states it on the raw line, and the `TableScenarios` separator lemmas decide it on concrete lines. |
| TableReconstruct.KeepPipeLine | streamlit_app.py:220 | The cleaner's condition: the line holds a `\|` and is no separator. `CleanMarkdownLine` proves a line is kept exactly when it holds. |
| TableReconstruct.CleanMarkdown | streamlit_app.py:219-220 | Every kept line holds a `\|` and is not a `\|--` separator. |
| TableReconstruct.CleanMarkdownAppend | streamlit_app.py:220 | Cleaning works line by line, in order: cleaning a concatenation is the concatenation of the cleaned parts. |
| TableReconstruct.CleanMarkdownLine | streamlit_app.py:220 | A single line is kept exactly when it holds a `\|` and is no separator. |
| TableReconstruct.SeparatorByFirstChars | streamlit_app.py:220 | A line is a separator exactly when the three characters starting at its first non-blank character are `\|--`. |
| TableReconstruct.SplitRow | streamlit_app.py:222-224 | Every line, the empty line included, gives at least one cell. |
| TableReconstruct.SplitRowCount | streamlit_app.py:222-224 | A row has exactly one more cell than the line has delimiters. |
| TableReconstruct.Tokenize | streamlit_app.py:222-224 | Each line gives exactly one row. |
| TableReconstruct.SplitRowCharacterization | streamlit_app.py:222-224 | For any delimiter-free pieces that join to the line, the cells are exactly the trimmed pieces, empty first and last ones included. |
| TableReconstruct.SplitRowCellsTrimmed | streamlit_app.py:224 | Every cell is trimmed: stripping it again changes nothing. |
| TableReconstruct.SplitRowOfTrimmedCells | streamlit_app.py:222-224 | A line joined from trimmed, delimiter-free cells splits back into exactly those cells. |
| TableReconstruct.HasContent | streamlit_app.py:227 | `any(cell.strip() for cell in row)`: some cell is not all whitespace. `DropBlankRow` proves a row is dropped exactly when it fails. |
| TableReconstruct.SurvivingRows | streamlit_app.py:219-227 | The rows left for a delimiter: cleaned only for the pipe, tokenised, blank rows dropped. `SurvivorsAtMostNonBlank`, `CommaOrTabKeepsEveryLine` and `TableThreshold` state what survives and what it decides. |
| TableReconstruct.DropBlank | streamlit_app.py:227 | Every surviving row has a non-blank cell. |
| TableReconstruct.DropBlankAppend | streamlit_app.py:227 | The blank-row filter works row by row and keeps the order. |
| TableReconstruct.DropBlankRow | streamlit_app.py:227 | A row is dropped exactly when all its cells are whitespace. |
| TableReconstruct.SplitAllSpace | streamlit_app.py:222 | Every piece of an all-whitespace line is all whitespace. |
| TableReconstruct.BlankLineBlankRow | streamlit_app.py:222-227 | A blank line gives a blank row, which is then dropped. |
| TableReconstruct.Reconstruct | streamlit_app.py:212-230 | "Not a table format" happens exactly when the first line of the stripped text has no delimiter. A table has a non-blank header and at least one body row, and no body row is blank. |
| TableReconstruct.RStripAppend | streamlit_app.py:212 | Trailing whitespace removal does not reach into an earlier part when a later part has content. |
| TableReconstruct.FirstLineDecides | streamlit_app.py:212-216 | A newline-free first line whose first character is not whitespace, followed by more content, is `lines[0]`. It alone decides whether a table is attempted, whatever the later lines contain. |
| TableReconstruct.LeadingTabStripped | streamlit_app.py:212 | A first line that starts with a tab, followed by more content, reaches the delimiter test without that tab: `lines[0]` is the rest of the line. |
| TableReconstruct.LinesFromPieces | streamlit_app.py:212 | When the stripped text is a join of newline-free pieces, the lines are those pieces. |
| TableReconstruct.BlankTextIsNotTable | streamlit_app.py:212-215 | Empty or whitespace-only text has lines `[""]` and is "not a table format". |
| TableReconstruct.NoDelimiterIsNotTable | streamlit_app.py:215 | A text without `\|`, `,` or tab anywhere is "not a table format". |
| TableReconstruct.SurvivorsAtMostNonBlankLines | streamlit_app.py:222-227 | No more rows survive than there are non-blank lines. |
| TableReconstruct.SurvivorsAtMostNonBlank | streamlit_app.py:219-227 | Whatever the delimiter, and with or without the markdown cleaner, no more rows survive than there are non-blank lines. |
| Seqs.FilterOfFilterShorter | streamlit_app.py:220 | Filtering with one condition before another never keeps more elements than the second filter alone, so cleaning before dropping blank rows never yields more rows. |
| TableReconstruct.AtMostOneNonBlankLineIsNotTable | streamlit_app.py:222-230 | Text with at most one non-blank line never becomes a table. |
| TableReconstruct.TableThreshold | streamlit_app.py:229-230 | Once a delimiter is chosen, a table is built exactly when two or more rows survive. The header is the first survivor and the body is the rest, in order. Otherwise the outcome is "not a standard table". |
| TableReconstruct.CommaOrTabKeepsEveryLine | streamlit_app.py:219-222 | With comma or tab, no line is removed before tokenising. Every survivor is some line's row, and every line whose row has content contributes it. |
| TableScenarios.PlainSeparatorIsCleaned | streamlit_app.py:220 | `\|---\|---\|` counts as a separator. |
| TableScenarios.IndentedSeparatorIsCleaned | streamlit_app.py:220 | An indented `\|--:\|:--\|` counts as a separator. |
| TableScenarios.SpacedSeparatorIsKept | streamlit_app.py:220 | `\| --- \| --- \|` is kept by the cleaner. |
| TableScenarios.AlignedSeparatorIsKept | streamlit_app.py:220 | `\|:--\|:--\|` is kept by the cleaner. |
| TableScenarios.OuterlessSeparatorIsKept | streamlit_app.py:220 | `---\|---` is kept by the cleaner. |
| TableScenarios.ExampleMarkdownTable | streamlit_app.py:212-230 | For any cell words, a three-column markdown table with a separator row gives its header and one data row. |
| TableScenarios.ExampleCommaTable | streamlit_app.py:212-230 | For any cell words, three comma lines give a table with the first line as header and two body rows. |
| TableScenarios.ExampleBlankLineDropped | streamlit_app.py:212-230 | An empty line between two comma lines is dropped as a blank row. |
| Downloads.OfferDownloads | streamlit_app.py:200-255 | The answer is always offered as `<stem>_converted.txt`. Exactly one of a spreadsheet and a notice is shown. The workbook `<stem>_converted.xlsx` holds the header and body, and is offered exactly when there is a table and the frame builds. Each notice appears exactly in its own case. |
| Downloads.SpreadsheetShape | streamlit_app.py:229-243 | An offered workbook has a non-blank header and at least one row, none of them blank. |
| Downloads.Notice.Message | streamlit_app.py:250-255 | The text of each notice, as shown by `st.info`: the not-a-standard-table notice at line 251, the not-a-table-format notice at line 253, and the manual-format notice at line 255. |
| Downloads.BlankAnswerHasNoSpreadsheet | streamlit_app.py:212-253 | A whitespace-only answer gets the "not a table format" notice and no spreadsheet, whatever the frame builder does. |
| CsvExport.Keys | utils/fileUtils.ts:24 | `Object.keys(row)`: the row's keys in property order. `AllKeys` and `Headers` state their membership, and `KeyOfSomeRow` ties each header back to a pair. |
| CsvExport.AllKeys | utils/fileUtils.ts:24 | A key occurs in the flattened key list exactly when it is a key of some row. |
| CsvExport.Headers | utils/fileUtils.ts:24 | The header list holds every key of every row exactly once, and nothing else. |
| CsvExport.HeadersInFirstSeenOrder | utils/fileUtils.ts:24 | Headers come in the order their keys are first met, scanning rows in order and each row's keys in order. |
| CsvExport.Lookup | utils/fileUtils.ts:31 | `row[header]` on the row's own properties: nothing exactly when the row has no such key, otherwise the value of the first pair with that key. Members inherited from `Object.prototype` are not modelled (see Left out). |
| CsvExport.Escape | utils/fileUtils.ts:34 | `value.replace(/"/g, '""')`. `UnescapeEscape` proves collapsing `""` inverts it, `EscapeLength` that it adds one character per quote and `EscapeChars` that it adds no other character. |
| CsvExport.EscapeLength | utils/fileUtils.ts:34 | Escaping adds exactly one character per quote in the value. |
| CsvExport.UnescapeEscape | utils/fileUtils.ts:34 | Collapsing `""` in the escaped value gives back the value. |
| CsvExport.Quote | utils/fileUtils.ts:35 | A string field starts and ends with a quote. |
| CsvExport.QuoteRoundTrip | utils/fileUtils.ts:34-35 | Removing the outer quotes and collapsing `""` recovers the string. |
| CsvExport.NatToString | utils/fileUtils.ts:37-38 | A number's digits are decimal digits, with no leading zero. |
| CsvExport.IntToString | utils/fileUtils.ts:37-38 | A rendered integer uses only digits and `-`. |
| CsvExport.ParseNatToString | utils/fileUtils.ts:37-38 | Reading back a natural number's digits gives the number. |
| CsvExport.ParseIntToString | utils/fileUtils.ts:37-38 | Reading back a rendered integer gives the integer. |
| CsvExport.Render | utils/fileUtils.ts:30-37 | A string value is the quoted, escaped string. A number is its decimal form, with no quote, comma or line feed. Null and missing are the empty field. |
| CsvExport.Fields | utils/fileUtils.ts:30-37 | One field per header, each the rendering of `row[header]`. `DataLineFields` proves the k-th field of the written line is `Render(row[headers[k]])`. |
| CsvExport.DataLine | utils/fileUtils.ts:38 | A row's fields joined with `,`. With at least one header, `CsvRead.DataLineReadsBack` proves it reads back as one field per header whatever the keys and string values. Without commas in string values, `DataLineFields` proves a plain split at `,` gives back exactly those fields. |
| CsvExport.CsvText | utils/fileUtils.ts:27-40 | The lines joined with a bare line feed. When no key and no string value holds a line feed, `CsvTextLines` proves the text splits back into the lines. With at least one header and keys free of quotes, commas and line feeds, `CsvRead.ReadBackExport` proves it reads back as headers and cells. |
| CsvExport.CsvLines | utils/fileUtils.ts:27-39 | The list of lines has one line per row plus one. The first is the headers joined with `,`, unquoted. Line `i + 1` is row `i`'s data line. |
| CsvExport.CsvContent | utils/fileUtils.ts:21-44 | There is no content exactly when there are no rows. Otherwise the content is the byte-order mark followed by the CSV text. |
| CsvExport.KeyOfSomeRow | utils/fileUtils.ts:24 | Every header is the key of some pair of some row. |
| CsvExport.EscapeChars | utils/fileUtils.ts:34 | Escaping adds no character other than the quote. |
| CsvExport.FieldNoLineFeed | utils/fileUtils.ts:30-37 | A field has no line feed when no string value of the row has one. |
| CsvExport.CsvTextLines | utils/fileUtils.ts:27-40 | Without line feeds in keys and strings, splitting the text at line feeds gives exactly the header line and one line per row, in order. Lines are joined by a bare line feed. |
| CsvExport.DataLineFields | utils/fileUtils.ts:29-38 | Without commas in string values, a data line splits into exactly one field per header. The k-th field is the rendering of `row[headers[k]]`. |
| CsvExport.HeaderLineFields | utils/fileUtils.ts:28 | With at least one header and no comma in any key, the header line splits back into the headers. |
| CsvRead.ReadQuotedEscape | utils/fileUtils.ts:34-35 | An escaped value and its closing quote are read back as exactly the value, stopping right after the quote. |
| CsvRead.ReadBarePlain | utils/fileUtils.ts:37 | A field without quotes, commas or line feeds, written bare, is read back as itself. |
| CsvRead.ReadFieldRendered | utils/fileUtils.ts:30-37 | Every written field is read back as itself, and reading stops at the following comma, line feed or end. |
| CsvRead.ReadRecordRendered | utils/fileUtils.ts:38 | A comma-joined record is read back as its fields, and the reader reports whether a line feed followed. |
| CsvRead.ReadCsvRendered | utils/fileUtils.ts:27-40 | Records joined with line feeds are read back as exactly those records. |
| CsvRead.Encode | utils/fileUtils.ts:30-37 | The field chosen for a cell renders to exactly what the export writes for it. |
| CsvRead.DecodeEncode | utils/fileUtils.ts:30-37 | Every written cell decodes to its value. A missing property decodes to null, the same as null. |
| CsvRead.ExportRecords | utils/fileUtils.ts:27-39 | The export is the header record followed by one record per row. |
| CsvRead.HeaderRecordRendered | utils/fileUtils.ts:28 | The header record renders to the unquoted header line. |
| CsvRead.DataRecordRendered | utils/fileUtils.ts:29-38 | A row's record renders to its data line. |
| CsvRead.DataLineReadsBack | utils/fileUtils.ts:29-38 | With at least one header, and for any keys and any string values (commas, quotes and line feeds included), a data line reads back as exactly one field per header, the encoding of the row's value for that header, with nothing left over. |
| CsvRead.ExportLine | utils/fileUtils.ts:27-39 | Record `i` of the export renders to line `i` of the CSV. |
| CsvRead.ExportReadable | utils/fileUtils.ts:27-39 | With at least one header and keys free of quotes, commas and line feeds, every record of the export is readable. |
| CsvRead.ExportIsRendered | utils/fileUtils.ts:27-40 | The CSV text is exactly the rendering of the export's records. |
| CsvRead.ReadBackExport | utils/fileUtils.ts:24-40 | Reading the CSV text back gives the header names, then one record per row, in order. Each record has one field per header, and field k decodes to the row's value for header k (missing read as null). |
| CsvRead.ReadBackContent | utils/fileUtils.ts:43-44 | The downloaded content starts with the byte-order mark, and the rest reads back as the export's records. |
| ResponseShape.FirstArray | services/geminiService.ts:55-56 | Nothing is found exactly when no property value is an array. Otherwise the result is the items of the first array-valued property, an empty array included. |
| ResponseShape.Unwrap | services/geminiService.ts:51-60 | An array is returned as is. An object succeeds exactly when some property value is an array, and then yields the first one. Null, booleans, numbers and strings are an invalid structure, and every failure is that error. |
| ResponseShape.Extract | services/geminiService.ts:45-64 | A missing or empty answer is the "no response" error. A parse error comes back unchanged. Otherwise the result is the unwrapped value. |
| ResponseShape.EmptyBeforeParsing | services/geminiService.ts:45-47 | An empty answer gives the same error under any parser, so it is raised before parsing. |
| ResponseShape.ResultOccursAtTopLevel | services/geminiService.ts:51-57 | The rows returned are either the parsed array itself or an array-valued top-level property. |
| ResponseShape.SkipsNonArrays | services/geminiService.ts:55-57 | An array property after any number of non-array properties is the one returned. |
| ResponseShape.NestedArrayNotFound | services/geminiService.ts:55-60 | An object whose only array sits one level down is an invalid structure. |
| ResponseShape.ArrayUnchanged | services/geminiService.ts:49-52 | A non-empty answer that parses to an array yields exactly that array's elements, unfiltered and unreordered. |
| ResponseShape.ErrorMessages | services/geminiService.ts:46-64 | The "no response" error (line 46) and the "invalid structure" error (line 60) have different texts. A parse error carries the parser's own message unchanged, as the rethrowing `catch` passes it on. |
| ResponseShape.UnwrapStable | services/geminiService.ts:51-52 | Normalising the returned rows again, as an array, gives the same rows. |

## Left out

- Streamlit plumbing is not modelled: page setup, styling, the upload, the Gemini call, temporary files, `os.unlink`, tabs, the preview areas, and the outer error handler of the script. These are UI, file I/O and a foreign service.
- Downloads.OfferDownloads: pandas and openpyxl (`pd.DataFrame`, `to_excel`) are foreign code. Whether they build and write the frame is the parameter `frameBuilds`. No padding or truncation policy for ragged rows is assumed.
- Downloads.OfferDownloads: the lines from building the frame to offering the spreadsheet are treated as one step. A failure after the spreadsheet button was drawn (for example in `os.unlink`) would show both the button and the manual-format notice, and that case is not modelled.
- Downloads.OfferDownloads: `Path(...).stem` is foreign. The file-name stem is the parameter `stem`.
- `fileToBase64`, and the Blob, anchor and `click()` steps of the CSV download (including the `.csv` file name), are browser I/O and are not modelled.
- ResponseShape.Extract: `JSON.parse` is foreign. It is the parameter `parse`, and its error message is passed through unchanged, as the rethrowing `catch` does. The `console.error` logging is not modelled.
- ResponseShape.Json: object members are taken in the order the parser gives them. JavaScript's rule that integer-like keys come first in `Object.values`, and its handling of duplicate keys, are the parser's business.
- ResponseShape.Extract: the rows are returned as parsed JSON values. The unchecked cast to `ExtractedRow[]` is not modelled, so rows that are not objects, or whose values are not strings, numbers or null, are not converted into `CsvExport.Record`.
- CsvExport.Value: numbers are integers. JavaScript's rendering of fractional numbers, exponents, `NaN` and infinities is not modelled.
- CsvExport.Value: values outside the declared `string | number | null` type (booleans, nested objects or arrays) are not modelled.
- CsvExport.Lookup: JavaScript's `row[header]` also finds members inherited from `Object.prototype`. For a header such as `toString`, `constructor` or `__proto__` that a row lacks, the source writes that inherited member's string form (for example `[object Object]` for `__proto__`), while the model writes the empty field. This is not modelled.
- CsvExport.Record: a row is a list of (key, value) pairs that may repeat a key. `Lookup` takes the first pair, and JavaScript objects never repeat a key anyway.
- CsvRead.ReadBackExport: the read-back holds only for at least one key, and for keys without quotes, commas or line feeds. The header line is written unquoted, so other keys make the header unreadable. String values may contain anything.
- CsvRead: the reader takes a bare line feed as the record break, as the export writes it, while RFC 4180 prescribes CRLF. It is a reference for the export, not a general CSV parser.
- Text: strings are sequences of Unicode characters. Python's `str.isspace` set is used exactly. Encodings are not modelled.
