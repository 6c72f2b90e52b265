# trade-analytics: upload pipeline and analytics, in Dafny

This project models the two components at the core of the trade-analytics
front end.

- **The upload component** (`FileUpload.jsx`):
  - `validateXMLFile` checks the name's `.xml` extension and the 50 MiB ceiling.
  - Trades are extracted from the parsed document with
    `getElementsByTagName`, `textContent`, `parseInt` and `parseFloat`.
  - The inserted row is built, including the `"<size/1024 toFixed(2)> KB"` size text.
  - `handleFileUpload` runs the status lifecycle: insert a `Processing` row,
    mark it `Completed`, and mark it `Failed` when anything throws once the
    insert has returned a row.
- **The analytics component** (`Analytics.jsx`): the statistics `fetchAnalytics`
  computes from the fetched rows.
  - Total count, success rate and average size, each printed with `toFixed(1)`.
  - The `typeStats` reduce that groups rows by upper-cased file type.
  - The `fileTypes` rows built from `Object.entries(typeStats)`.

Files and modules:

- `wrappers.dfy`, module `Wrappers`: `Option`.
- `strings.dfy`, module `Strings`: `endsWith`, ASCII `toUpperCase`, and
  `replace` with a string pattern (first occurrence only).
- `numbers.dfy`, module `Numbers`:
  - JavaScript numbers as `NaN | Fin(real)`.
  - `parseInt` and `parseFloat` in base 10, with leading white space and a sign.
  - `toFixed(2)` of a byte count divided by 1024, which is exact because the quotient is dyadic.
  - `toFixed(1)` as a sign and a count of tenths, rounding half up.
- `xml.dfy`, module `Xml`:
  - A DOM tree of elements, text and comments.
  - `getElementsByTagName` (pre-order, descendants only) and `textContent`.
- `store.dfy`, module `Store`:
  - The `files` table as a class `RecordStore` holding a map from id to row and an id counter.
  - Every call to the hosted service takes the outcome the service produces as a parameter.
  - A ghost log records every call issued.
- `file_upload.dfy`, module `FileUpload`: validation, extraction, record construction and
  `HandleFileUpload`, an imperative method on the store.
- `analytics.dfy`, module `Analytics`:
  - The statistics as functions.
  - The `typeStats` reduce, which mutates its accumulator, as a loop method
    (`TypeStats`) proved against the function `GroupByType`.
  - `ComputeStats` assembles the summary.
- `scenario.dfy`, module `Scenario`: how the two components meet.
  - The size text the upload writes reads back in analytics as the same
    number of kilobytes.
  - A worked three-file example.

Two behaviours of the code that are easy to get wrong:

- Text that is present but not numeric parses to `NaN`, not to the default 0
  (`FileUpload.TradeFields`). Only a missing element or an empty text gives 0,
  through `text || '0'`.
- Not every failure after the row is created marks the row `Failed`.
  - If the insert stores the row but returns no row, `data[0].id` throws
    before any status update is issued. No `Failed` update follows, because
    `data?.[0]?.id` is undefined, and the row stays `Processing`.
  - If the `Failed` update is itself rejected, the row also stays `Processing`.
  - `HandleFileUpload` states both outcomes.

## Model

| member | source | states |
|---|---|---|
| `Strings.EndsWith` | frontend/src/components/FileUpload.jsx:12 | `name.endsWith(suffix)`: the suffix fits and the last characters are the suffix; its meaning is stated by `EndsWithIffStem` |
| `Strings.EndsWithIffStem` | frontend/src/components/FileUpload.jsx:12 | a name ends with a suffix exactly when it is some stem followed by that suffix |
| `Strings.ToUpperCase` | frontend/src/components/Analytics.jsx:40 | the upper-cased type has the same length, and each character is that character's upper case |
| `Strings.ToUpperCaseIdempotent` | frontend/src/components/Analytics.jsx:40 | upper-casing an upper-cased key changes nothing |
| `Strings.SameUpperCase` | frontend/src/components/Analytics.jsx:40-41 | two types that differ only in ASCII letter case fall into the same `typeStats` entry |
| `Strings.RemoveFirst` | frontend/src/components/Analytics.jsx:33 | `replace(' KB', '')` keeps the length or shortens it by exactly the pattern's length; which characters go is stated by `RemoveFirstAbsent` and `RemoveFirstAt` |
| `Strings.OccursAtTail` | frontend/src/components/Analytics.jsx:33 | an occurrence in the text after its first character is an occurrence one place later in the whole text |
| `Strings.RemoveFirstAbsent` | frontend/src/components/Analytics.jsx:33 | with no occurrence of the pattern, `replace` returns the text unchanged |
| `Strings.RemoveFirstAt` | frontend/src/components/Analytics.jsx:33 | when the first occurrence starts at i, `replace` returns the text before i followed by the text after that occurrence |
| `Strings.RemoveFirstAppended` | frontend/src/components/Analytics.jsx:33 | removing " KB" from text that ends in " KB", where the part before contains no space, gives back that part |
| `Numbers.AddAssociative` | frontend/src/components/Analytics.jsx:32-35 | adding sizes is associative, NaN included, so the total does not depend on how the sum is grouped |
| `Numbers.AddCommutative` | frontend/src/components/Analytics.jsx:32-35 | adding sizes is commutative, NaN included |
| `Numbers.DigitSpan` | frontend/src/components/FileUpload.jsx:59 | the digit run `parseInt` reads is no longer than the text |
| `Numbers.DigitSpanIsRun` | frontend/src/components/FileUpload.jsx:59-60 | the prefix read consists of digits only and is followed by a non-digit or the end of the text |
| `Numbers.DigitSpanOfDigits` | frontend/src/components/FileUpload.jsx:59-60 | a digit string followed by a non-digit or nothing is read in full |
| `Numbers.NatToString` | frontend/src/components/FileUpload.jsx:64 | the decimal text of a natural number is digits only, has no leading zero and has exactly that value |
| `Numbers.LeadingSpace` | frontend/src/components/FileUpload.jsx:59-60 | the white space skipped before a number is a prefix of the text |
| `Numbers.TrimStartRemovesWhiteSpace` | frontend/src/components/FileUpload.jsx:59-60 | everything skipped is white space, and what remains is empty or starts with a character that is not white space |
| `Numbers.UnsignedIntOfDigits` | frontend/src/components/FileUpload.jsx:59 | after the sign, a whole digit string is read as its value with that sign |
| `Numbers.ParseInt` | frontend/src/components/FileUpload.jsx:59 | `parseInt(text)`: skip leading white space, take an optional sign, read the leading digit run; NaN when there is no digit; its properties are the lemmas below |
| `Numbers.ParseFloat` | frontend/src/components/FileUpload.jsx:60 | `parseFloat(text)`: as `parseInt`, plus an optional `.` and fraction digits; NaN when there is no digit at all |
| `Numbers.ParseIntOfIntToString` | frontend/src/components/FileUpload.jsx:59 | `parseInt` reads back every integer written in decimal, negative ones included |
| `Numbers.ParseIntZero` | frontend/src/components/FileUpload.jsx:59 | the default text `'0'` is read as quantity 0 |
| `Numbers.ParseFloatZero` | frontend/src/components/FileUpload.jsx:60 | the default text `'0'` is read as price 0 |
| `Numbers.KiloHundredths` | frontend/src/components/FileUpload.jsx:64 | the hundredths `toFixed(2)` prints for size/1024 lie within half a hundredth of the exact quotient |
| `Numbers.Fixed2ToString` | frontend/src/components/FileUpload.jsx:64 | the `toFixed(2)` text of a count of hundredths: integer part, a point, two digits; read back by `ParseFloatOfFixed2` |
| `Numbers.Fixed2HasNoSpace` | frontend/src/components/FileUpload.jsx:64 | the printed size contains no space, so the only " KB" in the stored text is the unit |
| `Numbers.ParseFloatOfFixed2` | frontend/src/components/Analytics.jsx:33 | `parseFloat` reads a `toFixed(2)` text back as exactly its number of hundredths |
| `Numbers.ToFixed1` | frontend/src/components/Analytics.jsx:29 | NaN prints as "NaN"; otherwise the sign is kept and the printed tenths are within half a tenth of the magnitude |
| `Numbers.PercentFixed1Bounds` | frontend/src/components/Analytics.jsx:29 | a share of a non-empty whole prints as a non-negative number between 0.0 and 100.0 |
| `Xml.TextContent` | frontend/src/components/FileUpload.jsx:56-61 | `textContent`: the text of every text node below the node, in document order; comments contribute nothing |
| `Xml.ElementsByTagName` | frontend/src/components/FileUpload.jsx:53-54 | every element found is an element with the requested tag |
| `Xml.ElementsUnder` | frontend/src/components/FileUpload.jsx:53-54 | every element found under a node is an element with the requested tag |
| `Xml.FirstTextContent` | frontend/src/components/FileUpload.jsx:56-61 | `getElementsByTagName(tag)[0]?.textContent` is undefined exactly when the trade has no such descendant |
| `Xml.ElementsByTagNameIsFilteredPreOrder` | frontend/src/components/FileUpload.jsx:53-54 | `getElementsByTagName` returns the elements with that tag in document (pre-)order, at any depth |
| `Xml.ElementsUnderIsFilteredPreOrder` | frontend/src/components/FileUpload.jsx:53-54 | the same holds below a single node |
| `Xml.NamedAppend` | frontend/src/components/FileUpload.jsx:53-54 | filtering by tag distributes over concatenation |
| `Xml.ElementsByTagNameAppend` | frontend/src/components/FileUpload.jsx:53-54 | searching two runs of nodes finds the first run's matches, then the second's |
| `Xml.ElementsByTagNameDeep` | frontend/src/components/FileUpload.jsx:53-54 | whatever the search finds below one of the nodes, it also finds when searching the nodes themselves |
| `Store.RecordStore.constructor` | frontend/src/components/FileUpload.jsx:65-66 | the table starts empty with a valid id counter and no calls issued |
| `Store.RecordStore.Insert` | frontend/src/components/FileUpload.jsx:65-79 | the insert is logged; a rejected insert leaves the table unchanged and returns the error; an accepted one stores the row under a fresh positive id and returns that id, or returns no row when it cannot be read back |
| `Store.RecordStore.UpdateStatus` | frontend/src/components/FileUpload.jsx:90-93 | the update is logged; an accepted update changes only that row's status, and an update of a missing id changes nothing; a rejection returns the error and changes nothing |
| `FileUpload.ValidateXmlFile` | frontend/src/components/FileUpload.jsx:11-18 | the file passes exactly when its name ends in ".xml" and it is at most 50 MiB; the extension is checked first |
| `FileUpload.AcceptedFiles` | frontend/src/components/FileUpload.jsx:11-18 | a `<stem>.xml` file of exactly 50 MiB passes, and one byte more is rejected as too large |
| `FileUpload.UpperCaseExtensionRejected` | frontend/src/components/FileUpload.jsx:12-14 | "trades.XML" is rejected as not XML, whatever its size: the check is case-sensitive |
| `FileUpload.HasParserError` | frontend/src/components/FileUpload.jsx:49-51 | the document is rejected as invalid XML when it contains a `parsererror` element anywhere |
| `FileUpload.TextOrZero` | frontend/src/components/FileUpload.jsx:59-60 | `text \|\| '0'`: a missing or empty text becomes "0" |
| `FileUpload.ParseTrade` | frontend/src/components/FileUpload.jsx:55-62 | the six fields of one trade element; their meaning is stated by `TradeFields` |
| `FileUpload.TradeFields` | frontend/src/components/FileUpload.jsx:55-62 | each string field is the text of the first element of that name in document order below the trade, or undefined when there is none; quantity and price are 0 when the field is missing or its text is empty, else `parseInt`/`parseFloat` of that text |
| `FileUpload.ExtractTrades` | frontend/src/components/FileUpload.jsx:53-62 | one trade per `trade` element |
| `FileUpload.ExtractTradesInDocumentOrder` | frontend/src/components/FileUpload.jsx:53-55 | the i-th trade is read from the i-th `trade` element in document order, at any depth |
| `FileUpload.FileSizeText` | frontend/src/components/FileUpload.jsx:64-72 | the stored size: `toFixed(2)` of size/1024 followed by " KB"; read back by `FileSizeRoundTrip` |
| `FileUpload.FileSizeRoundTrip` | frontend/src/components/FileUpload.jsx:64-72 | stripping " KB" from the stored size and parsing it gives exactly the printed hundredths, within 0.005 of size/1024 |
| `FileUpload.NewRecord` | frontend/src/components/FileUpload.jsx:64-77 | the new row is `Processing`, of type "xml", carries the file's name, content and the upload time, stores the size text; its sample trades are the trades extracted from the document, and its trade count is the number of `trade` elements, which equals the number of sample trades |
| `FileUpload.NewRecordSizeReadsBack` | frontend/src/components/FileUpload.jsx:72 | the size stored in a new row reads back as the file's size in KB to the hundredth |
| `FileUpload.Message` | frontend/src/components/FileUpload.jsx:11-88 | the text shown for each error: the three fixed messages, the table-missing message, the store's own message, and the TypeError of `data[0].id` |
| `FileUpload.InsertError` | frontend/src/components/FileUpload.jsx:83-88 | an insert error with code 42P01 becomes the table-missing error; any other is raised as it is |
| `FileUpload.HandleFileUpload` | frontend/src/components/FileUpload.jsx:38-114 | a file rejected by validation or the parser error check leaves the table untouched; a rejected insert surfaces its error (or the table-missing message); an accepted insert then Completed gives a `Completed` row; a rejected Completed update issues the `Failed` update, and the row ends `Failed` if that write lands; an insert that returns no row ends with the TypeError and the row stays `Processing`; no other row changes |
| `Analytics.SizeOf` | frontend/src/components/Analytics.jsx:33 | `parseFloat(file_size.replace(' KB', ''))`; an uploaded row's value is stated by `Scenario.UploadedSizeReadsBack` |
| `Analytics.TypeKey` | frontend/src/components/Analytics.jsx:40 | the group key: the upper-cased file type |
| `Analytics.CompletedCount` | frontend/src/components/Analytics.jsx:28 | at most the number of rows, and 0 exactly when no row is `Completed` |
| `Analytics.TotalSize` | frontend/src/components/Analytics.jsx:32-35 | the sizes of all rows added from 0 in row order; NaN once any size is NaN |
| `Analytics.Percent` | frontend/src/components/Analytics.jsx:29 | `part / whole * 100` on a non-empty whole |
| `Analytics.Tallied` | frontend/src/components/Analytics.jsx:41-50 | one step of the `typeStats` reducer: create the entry if it is missing, count the row, add its size, count it if `Completed` |
| `Analytics.GroupByType` | frontend/src/components/Analytics.jsx:39-52 | `typeStats`, the reduce from an empty object; what it holds is stated by `GroupByTypeWellFormed` and `GroupEntry` |
| `Analytics.GroupByTypeWellFormed` | frontend/src/components/Analytics.jsx:39-52 | `typeStats` lists each key once, its keys are exactly the upper-cased types present, and each entry counts at least one file and no more successes than files |
| `Analytics.GroupCountsSum` | frontend/src/components/Analytics.jsx:39-52 | the per-type counts add up to the number of rows, and the per-type successes to the `Completed` count |
| `Analytics.GroupSizesSum` | frontend/src/components/Analytics.jsx:32-52 | the per-type size totals add up to the overall `totalSize` |
| `Analytics.OfType` | frontend/src/components/Analytics.jsx:39-52 | the rows of one type, in row order: every one has that type, and there are no more of them than rows |
| `Analytics.AppendOne` | frontend/src/components/Analytics.jsx:32-35 | the size total and the `Completed` count of rows plus one more row add that row's size and status |
| `Analytics.TalliedAt` | frontend/src/components/Analytics.jsx:41-50 | a reducer step leaves every other entry as it was, and counts the row into its own entry, created at zero if missing |
| `Analytics.GroupEntry` | frontend/src/components/Analytics.jsx:39-52 | a key has an entry exactly when some row has that type, and the entry holds the number of rows of that type, their sizes added in order, and how many of them are `Completed` |
| `Analytics.GroupByTypeSnoc` | frontend/src/components/Analytics.jsx:39-52 | the reduce over one more row is one more step of the reducer |
| `Analytics.TalliedInPlace` | frontend/src/components/Analytics.jsx:41-50 | creating a missing entry and then updating its three fields is one reducer step |
| `Analytics.TypeStats` | frontend/src/components/Analytics.jsx:39-52 | the loop that mutates the accumulator ends with exactly the entries and key order of the reduce |
| `Analytics.Row` | frontend/src/components/Analytics.jsx:54-59 | one `fileTypes` entry: type, count, `toFixed(1)` of the mean size and of the success rate |
| `Analytics.FileTypeRows` | frontend/src/components/Analytics.jsx:54-59 | one `fileTypes` row per key, in key order, with that entry's file count, mean size and success rate printed to one decimal |
| `Analytics.SumFilesOfRows` | frontend/src/components/Analytics.jsx:54-56 | the rows' file counts add up to the entries' counts |
| `Analytics.RowsWellDefined` | frontend/src/components/Analytics.jsx:54-59 | the rows name distinct types, exactly the keys of `typeStats`; each covers a file or more, and its success rate prints between 0.0 and 100.0 |
| `Analytics.FileTypeRowsOfData` | frontend/src/components/Analytics.jsx:39-59 | each `fileTypes` row covers at least one row of its type, and shows the number of rows of that type, their mean size and their success rate |
| `Analytics.ComputeStats` | frontend/src/components/Analytics.jsx:26-67 | total count; the fixed "1.85s"; zeros and no rows for an empty table; otherwise success rate and average size printed to one decimal, the rate between 0.0 and 100.0; the per-type rows are `FileTypeRows` of `typeStats`: they name each present type once, their file counts add up to the total, and each shows the count, mean size and success rate of the rows of its type |
| `Scenario.UploadedSizeReadsBack` | frontend/src/components/Analytics.jsx:33 | a row written by the upload reads back in analytics as its size in KB to the hundredth, within 0.005 of size/1024 |
| `Scenario.ThreeFilesCompleted` | frontend/src/components/Analytics.jsx:28 | two of the three example rows are `Completed` |
| `Scenario.PercentOfThirds` | frontend/src/components/Analytics.jsx:29 | two thirds prints as 66.7 |
| `Scenario.ThreeFilesSuccessRate` | frontend/src/components/Analytics.jsx:29 | the example's success rate prints as 66.7 |
| `Scenario.ThreeFilesTotal` | frontend/src/components/Analytics.jsx:32-35 | the example sizes 10, 20 and 30 KB add up to 60 KB |
| `Scenario.AverageOfSixty` | frontend/src/components/Analytics.jsx:36 | 60 KB over three files prints as 20.0 |
| `Scenario.ThreeFilesAverageSize` | frontend/src/components/Analytics.jsx:36 | the example's average size prints as 20.0 |

## Left out

- The hosted table is an external service. Each call's outcome (stored, stored but not returned, rejected with a code and message) is a parameter, and ids are a counter.
- The `select('*')` that feeds the analytics is a parameter (`data`). Its error path, which logs and leaves the initial zero state, is not modelled.
- `file.text()` and `DOMParser.parseFromString` are not modelled. The document is given as a tree, and a parse failure shows only as a `parsererror` element, as in browsers.
- Numbers are exact rationals. Double rounding in the running sums and divisions is not modelled, so a sum that lands next to a tie in `toFixed(1)` may print one tenth differently in a browser.
- The model of `parseInt` does not include the `0x` prefix or precision loss on very long digit strings.
- The model of `parseFloat` does not include exponents or `Infinity`.
- `Numbers.ToFixed1`: always gives tenths. For a magnitude of 10^21 or more `toFixed` prints the exponent form (such as "1e+21"); that case is not modelled. Sizes written by the upload never come near it.
- `Strings.ToUpperCase`: maps ASCII letters only. Other letters stay as they are; the engine's full Unicode case mapping is not modelled.
- `Analytics.TypeStats`: the key order is first appearance. `Object.entries` puts integer-like keys (such as a type "1") first in ascending order; that is not modelled.
- The `NoInsertedRow` message is V8's wording for reading `id` of `undefined`; other engines word it differently.
- `sample_trades` is stored as values; its JSON serialisation (NaN and `undefined` become `null` or are dropped) is not modelled.
- A row whose `file_size` or `file_type` is null would make the analytics throw. Rows here always carry text.
- React state (`uploadError`, `isUploading`, `loading`, `stats`), `console.error`, drag-and-drop, and the `onUploadComplete` callback are left out. A successful upload is the result `Uploaded`; an error is `UploadFailed` with the message the component would show.
- `new Date().toISOString()` is the parameter `now`.
- `avgProcessTime` is the fixed text "1.85s"; the component computes no timing.
- `Scenario.ThreeFilesSuccessRate`: the example states the success rate, the total and the average size. Its one "XML" group of three files is not stated as a literal `typeStats` table.
