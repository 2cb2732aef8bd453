# JSON-to-CSV converter: a Dafny model

This project models the conversion logic of the `ConverterApp` React component
(`src/ConverterApp.js`). The component takes one JSON file and checks its type.
It validates the decoded value, turns the records into CSV text and offers that
text for download. The model covers:

- **File filter and names.** A file is read when its MIME type is
  `application/json` or its lower-cased name ends in `.json`. The base name is
  the name with `/\.[^/.]+$/` removed. The download name is `<base>.csv`, or
  `converted_data.csv` when the base is empty.
- **Validation.** The root of the decoded value must be an object or an array.
  An object is wrapped as a one-record list. A non-empty array may hold plain
  objects only. The empty array is accepted and gives zero records.
- **`escapeCsvValue`.** This is the quoting rule of section 2 of RFC 4180
  (rules 6 and 7), with two deviations. Only a comma, a double quote or a line
  feed triggers quoting; a carriage return does not. Rows are joined with LF,
  not CRLF.
- **`convertToCSV`.**
  - Headers are the union of all keys, in first-seen order.
  - The header row appears only when there are headers.
  - Every record gives one row, with an empty cell for a missing key or a null.
  - There is no trailing line feed.
  - Two things make the conversion throw and end in its `catch` branch. A
    record that *owns* a key named `hasOwnProperty` hides that method, so
    the call `rowObject.hasOwnProperty(header)` throws. A present, non-null
    value whose `String()` throws does the same: an object that owns a
    `toString` member, or an array holding such an item.
  - Records are converted in order, so the error reported is that of the
    first record that throws. Within a record, the `hasOwnProperty` call
    comes before any `String()`.
- **The component state machine.** Its state is
  `(jsonData, csvData, csvHeaders, error, inputFileName, isLoading)`. Each
  handler is written as the ordered list of setter calls the source makes, and
  the last call to a setter decides that field. Rejecting a file therefore ends
  with `error == ""`: `setError(msg)` is followed by `resetState()`, which
  clears the error again. Asynchronous completions are events of their own:
  `reader.onload`, `reader.onerror` and the `setTimeout` callback. The
  callback converts the records captured when the button was clicked.
- **The table preview.** It shows the first `min(5, n)` records as unescaped
  `String(v)` cells. It shows the record count exactly when `n > 5`. Its
  cells make the same two calls as the conversion, so rendering throws on
  the same records.

The partner of the encoder is an RFC 4180-style reader, `CsvReader.ParseCsv`.
It splits on commas and line feeds outside quotes. It removes a field's outer
quotes and reads `""` as `"`. The main theorem is `CsvEncoder.CsvReadsBack`:
reading a converted text back gives the header row, then, for every record,
the `String()` of each header's value, or `""` for a missing key or a null.

The component handles only `files[0]`, with one state tuple. There is no
per-file state, batch conversion or archive packaging. The empty JSON array is
accepted and converts to the empty CSV text, and an empty CSV text can still be
downloaded. Both match the code.

Files: `wrappers.dfy`, `strings.dfy`, `json.dfy`, `record_parser.dfy`,
`csv_escape.dfy`, `csv_reader.dfy`, `csv_encoder.dfy`, `file_naming.dfy`,
`converter_app.dfy`, `scenarios.dfy` (worked examples).

## Model

| member | source | states |
|---|---|---|
| Json.Stringify | src/ConverterApp.js:140 | `String(v)` throws exactly when `ToStringThrows` holds: the value is an object that owns a "toString" member, or an array with a non-null item that throws; the error is "Cannot convert object to primitive value" |
| Json.Lookup | src/ConverterApp.js:187-189 | `rowObject[header]` is the value of the last member with that key, which is how `JSON.parse` treats repeated keys |
| RecordParser.Validate | src/ConverterApp.js:57-77 | succeeds iff the root is an object, or an array whose every item is a plain object; an object gives the one-record list `[root]`; an accepted array is exactly the records written as objects; the failure message depends on whether the root was an array |
| RecordParser.ParseContent | src/ConverterApp.js:52-77 | content gives records exactly when it decodes and its root is an object or an array of plain objects; a syntax error keeps its own message, a bad array item and any other root each give their shape message; an object gives the one-record list and an array is exactly the records written as objects |
| RecordParser.ArrayOfRecordsValidates | src/ConverterApp.js:62-76 | round trip: any record list written as a JSON array, the empty one included, validates back to that list |
| RecordParser.ValidatedRootIsRecords | src/ConverterApp.js:57-77 | converse: a root that validates is either the array of the returned records or the single object they came from |
| CsvEscape.EscapeString | src/ConverterApp.js:140-149 | a string without comma, double quote or line feed passes through unchanged (a carriage return does not trigger quoting); otherwise the result starts and ends with a double quote |
| CsvEscape.EscapeValue | src/ConverterApp.js:136-150 | null gives the empty field; it throws exactly when `String()` of a non-null value throws, with that error; a non-null value whose `String()` needs no quoting gives that string |
| CsvReader.EscapedFieldReadsBack | src/ConverterApp.js:141-148 | round trip: reading an escaped field followed by a comma, a line feed or nothing gives the original string and leaves the separator; for a quoted field this is dropping the outer quotes and reading `""` as `"` |
| CsvReader.EscapedValueReadsBack | src/ConverterApp.js:136-150 | the field written for a value that does not throw reads back as its `String()`, or as "" for null |
| CsvReader.EscapedLineReadsBack | src/ConverterApp.js:186-192 | a comma-joined line of escaped cells reads back as exactly those cells, however many commas, quotes or line feeds they contain |
| CsvReader.EscapedTableReadsBack | src/ConverterApp.js:179-196 | lines of escaped cells joined by LF, none without fields, read back as the same table: the row count and every cell are kept |
| CsvEncoder.Headers | src/ConverterApp.js:171-176 | headers hold no duplicates, and a key is a header iff some record has it; headers are ordered by first occurrence when the records are scanned in order, each record's members in order |
| CsvEncoder.CollectKeepsFirstSeen | src/ConverterApp.js:172-175 | the `allKeys.add` loop keeps its invariant: the distinct keys seen so far, in first-seen order |
| CsvEncoder.KeyStreamMembers | src/ConverterApp.js:172-174 | a key occurs in the scan iff some record owns it |
| CsvEncoder.Cell | src/ConverterApp.js:186-190 | a cell throws exactly when the value is present, not null and its `String()` throws; otherwise it is the escaped text of the value, with "" for a missing key or a null |
| CsvEncoder.RowCells | src/ConverterApp.js:184-192 | a record's cells throw exactly when the record hides `hasOwnProperty` (and there is a header) or a cell throws; the error is the `hasOwnProperty` one if the record hides it, else the `String()` one; otherwise there is one escaped cell text per header, in header order |
| CsvEncoder.DataRows | src/ConverterApp.js:184-194 | the rows throw exactly when some record's row throws, with one of the two `TypeError` messages; otherwise there is one row per record, its escaped cell texts joined by commas |
| CsvEncoder.DataRowsReportsFirstThrow | src/ConverterApp.js:184-194 | when the rows throw, the error is that of the first record whose row throws, since the records are converted in order |
| CsvEncoder.RowThrowsIffRecordThrows | src/ConverterApp.js:171-190 | under the header union, a record's row throws exactly when the record hides `hasOwnProperty` or holds a value whose `String()` throws |
| CsvEncoder.Convert | src/ConverterApp.js:170-202 | fails exactly when some record hides `hasOwnProperty` or holds a value whose `String()` throws, with one of the two `TypeError` messages; on success the headers are the header union; zero records give no headers and the empty text |
| CsvEncoder.ConvertReportsFirstThrow | src/ConverterApp.js:170-202 | a failed conversion reports the error of the first record that throws: the `hasOwnProperty` message if that record hides it, else the `String()` message |
| CsvEncoder.CsvReadsBack | src/ConverterApp.js:179-196 | with headers present, the CSV reads back as the header row followed by one row per record, holding each header's value text ("" when missing or null); so there are exactly 1 + n lines and no trailing line feed |
| CsvEncoder.HeaderlessCsv | src/ConverterApp.js:179-196 | n records without keys give no header row but still n empty rows: n - 1 line feeds (`[{},{}]` gives `"\n"`) |
| CsvEncoder.NoHeadersIffEmptyRecords | src/ConverterApp.js:171-182 | the header row is left out exactly when every record is an empty object |
| FileNaming.StripExtension | src/ConverterApp.js:43 | the result is the name, or the name minus a final dot and a non-empty extension without dot or slash; it is the name exactly when no dot starts such an extension |
| FileNaming.NoExtensionBeforeLastDot | src/ConverterApp.js:43 | only the last dot of a name can start the extension the pattern removes |
| FileNaming.StripAppendedExtension | src/ConverterApp.js:43 | round trip: any base plus "." plus an extension strips back to that base, dots in the base included |
| FileNaming.Accepted | src/ConverterApp.js:32-35 | a file is read exactly when its type is `application/json` or its name ends in a dot and "json" in any mix of cases |
| FileNaming.DownloadName | src/ConverterApp.js:225-227 | the download name always ends in ".csv"; for a non-empty base it is that base followed by ".csv", and for the empty base it is "converted_data.csv" |
| FileNaming.JsonSuffixIgnoresCase | src/ConverterApp.js:34 | the lower-cased ".json" test holds exactly when the name ends in a dot followed by j, s, o, n in either case |
| FileNaming.JsonFileDownloadName | src/ConverterApp.js:225-227 | a file accepted for its ".json" name (any case) is saved as the name with its last five characters replaced by ".csv", or as "converted_data.csv" when the name is just ".json" |
| ConverterApp.ResetGivesInitial | src/ConverterApp.js:12-19 | `resetState` from any state gives the initial `useState` values |
| ConverterApp.ProcessFile | src/ConverterApp.js:27-48 | no file changes nothing; a rejected file ends in the reset values with an empty error; an accepted file clears data, CSV, headers and error, keeps the base name, sets loading and starts the read |
| ConverterApp.ReaderOnLoad | src/ConverterApp.js:51-87 | valid content becomes `jsonData` and clears the error; invalid content clears `jsonData` and sets the prefixed message; loading always ends; CSV, headers and name are untouched |
| ConverterApp.ReaderOnError | src/ConverterApp.js:88-92 | a read failure ends in the reset values, its error message overwritten by the reset |
| ConverterApp.ConvertToCsv | src/ConverterApp.js:153-168 | without `jsonData` it sets the error and clears CSV and headers, leaving loading alone; with any `jsonData` (the empty list too) it clears error, CSV and headers, sets loading and schedules conversion of that data |
| ConverterApp.ConversionCallback | src/ConverterApp.js:169-206 | success publishes the headers and the CSV; failure sets the prefixed error of the conversion and leaves CSV null and headers empty, even though the headers were set first; loading always ends |
| ConverterApp.DownloadCsv | src/ConverterApp.js:210-228 | refuses with an error only when the CSV is null (an empty CSV text is saved); does nothing while loading; otherwise saves the CSV under the download name, state unchanged |
| ConverterApp.Step | src/ConverterApp.js:21-133 | "new conversion" and a read failure both end in the initial state; only the conversion timer publishes a new CSV |
| ConverterApp.StepEffects | src/ConverterApp.js:21-228 | only a non-empty selection starts a read, of its first file; only a convert click starts the timer, on the current `jsonData`; only a download saves, and then exactly the CSV held, with the state unchanged |
| ConverterApp.OnlyFirstFileMatters | src/ConverterApp.js:97-98 | only the first selected file is processed; an empty selection changes nothing |
| ConverterApp.StepKeepsCsvIsConversion | src/ConverterApp.js:164-206 | every event keeps the CSV and its headers the output of one conversion, and keeps the headers empty whenever the CSV is null |
| ConverterApp.RunKeepsCsvIsConversion | src/ConverterApp.js:153-206 | the same holds after any sequence of events |
| ConverterApp.ReachableCsvStartsWithHeaders | src/ConverterApp.js:176-181 | in every reachable state, a CSV with headers reads back with the shown headers as its first line |
| ConverterApp.ConvertAndDownload | src/ConverterApp.js:210-228 | from any state, picking an accepted file, loading valid content, converting and downloading saves the conversion of the validated records under the name derived from the file, with no error |
| ConverterApp.PreviewCell | src/ConverterApp.js:333-337 | a preview cell throws exactly when the record hides `hasOwnProperty` or the present value's `String()` throws; otherwise it is the unescaped CSV cell text, except that a null shows as "null" where the CSV has "" |
| ConverterApp.PreviewRows | src/ConverterApp.js:329-341 | the rendered rows throw exactly when some record's row throws; otherwise there is one row of cells per record |
| ConverterApp.PreviewRowsReportsFirstThrow | src/ConverterApp.js:329-341 | when the render throws, the error is that of the first record whose row throws |
| ConverterApp.Preview | src/ConverterApp.js:316-349 | shown iff not loading with a CSV, non-empty headers and data; it throws exactly when one of the first `min(5, n)` records' rows throws; otherwise it holds those rows and gives the count n exactly when n > 5 |
| ConverterApp.PreviewAgreesWithCsv | src/ConverterApp.js:329-337 | when the preview shows the converted records, it renders without throwing, and every preview cell equals the cell read back from the CSV, nulls excepted |
| Scenarios.HeterogeneousRecords | src/ConverterApp.js:171-196 | `[{a:1,b:2},{b:3,c:4}]` gives headers `[a,b,c]` and the text `a,b,c\n1,2,\n,3,4` |
| Scenarios.ExampleHeaders | src/ConverterApp.js:171-176 | the header union of that example is `[a,b,c]` |
| Scenarios.FirstRow | src/ConverterApp.js:184-192 | `{a:1,b:2}` under `[a,b,c]` does not throw and gives the row `1,2,` |
| Scenarios.SecondRow | src/ConverterApp.js:184-192 | `{b:3,c:4}` under `[a,b,c]` does not throw and gives the row `,3,4` |
| Scenarios.ExampleRows | src/ConverterApp.js:184-192 | its data rows are `1,2,` and `,3,4` |
| Scenarios.ExampleText | src/ConverterApp.js:179-196 | the header row and those rows joined by LF give `a,b,c\n1,2,\n,3,4` |
| Scenarios.ToStringOwnerThrows | src/ConverterApp.js:140 | `{"toString":1}` has no primitive form; a record holding it throws the `String()` error, and a record owning `hasOwnProperty` throws the `hasOwnProperty` error |
| Scenarios.FirstThrowingRecordDecides | src/ConverterApp.js:170-202 | `[{"a":{"toString":1}}]` fails with "Cannot convert object to primitive value"; with a record owning `hasOwnProperty` as well, the record that comes first decides the message |
| Scenarios.ToStringOwnerConversionError | src/ConverterApp.js:198-202 | for `[{"a":{"toString":1}}]` the callback sets "Error converting to CSV: Cannot convert object to primitive value", with no CSV and no headers |
| Scenarios.NestedToStringOwnerThrows | src/ConverterApp.js:140 | an array with an item owning "toString" throws too; an object owning only "valueOf" still converts |
| Scenarios.CarriageReturnIsNotQuoted | src/ConverterApp.js:141-145 | a field holding only a carriage return as a special character is left unquoted |
| Scenarios.QuotesAreDoubled | src/ConverterApp.js:146-147 | `a"b` is written as `"a""b"` |
| Scenarios.ValidationExamples | src/ConverterApp.js:57-75 | `[]` is accepted as no records; `[1,2,3]` and `[{a:1},2]` fail with the element message; `{a:1}` is one record; `null` fails with the root message |
| Scenarios.TwoEmptyObjects | src/ConverterApp.js:179-196 | `[{},{}]` converts to no headers and the text `"\n"` |
| Scenarios.BareExtensionName | src/ConverterApp.js:225-227 | a file named `.json` is saved as `converted_data.csv` |

## Left out

- `JSON.parse` syntax checking (src/ConverterApp.js:54) is a library call. The model takes its outcome as input: a syntax error with its message, or a decoded value.
- `FileReader`, the 50 ms `setTimeout`, `Blob`, `URL.createObjectURL` and the hidden-link click (src/ConverterApp.js:50-93, 169, 218-234) are browser APIs. They appear only as effects a handler asks for (`ReadFile`, `StartConversionTimer`, `SaveFile`) and as events that report their completion.
- The `catch` around the download (src/ConverterApp.js:237-240) handles failures of those browser APIs. It is not modelled.
- Drag-and-drop state (`isDraggingOver`), clearing the file input and the drop data, and all rendering except the preview are UI only (src/ConverterApp.js:99, 102-133, 243-353). The rendering also hides buttons while loading. The model accepts every event in every state, which covers more than the UI allows.
- JavaScript's `String()` of a number involves floating point. A number carries its rendered text instead. `String()` of arrays and objects is modelled. Arrays join their items with commas, with nulls as "". An object gives `[object Object]`, unless it owns a `toString` member, in which case `String()` throws.
- `Object.keys` lists integer-like keys first in ascending order. A record is kept as its members in source order instead. A key that appears twice keeps its first position and its last value, as `JSON.parse` does.
- `toLowerCase` is modelled for ASCII letters only. No non-ASCII character lower-cases to one of `.json`, so the ".json" test is unaffected.
- CsvEncoder.Convert: the failure messages are the ones V8 gives for the two TypeErrors (`rowObject.hasOwnProperty is not a function`, `Cannot convert object to primitive value`); other engines may word them differently.
- Preview: a render that throws is modelled as a failure value carrying the error. What React does next (unmounting the component tree, as there is no error boundary) is not modelled.
- Preview: the notice text "(Showing first 5 of n data rows)" is modelled as the count n.
- The `typeof obj === "object"` checks inside the conversion (src/ConverterApp.js:173, 185) always hold for validated records. The record type makes them true by construction.
- `console` logging has no behaviour to model.
- src/LoginPage.js and src/App.js are not part of this model. They hold a login form and a credential comparison, and App renders the converter on both branches.
