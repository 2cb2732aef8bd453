/**
 * The `ConverterApp` component (src/ConverterApp.js) as a state machine over
 * its state tuple. Each handler is the ordered list of setter calls the
 * source makes; React applies them in call order, so the last call to a
 * setter decides that field. Asynchronous completions (`reader.onload`,
 * `reader.onerror`, the `setTimeout` callback) are events of their own.
 */
module ConverterApp {
  import opened Wrappers
  import opened Json
  import opened RecordParser
  import opened CsvEncoder
  import opened CsvReader
  import opened FileNaming

  datatype State = State(
    jsonData: Option<seq<Record>>,
    csvData: Option<string>,
    csvHeaders: seq<string>,
    error: string,
    inputFileName: string,
    isLoading: bool)

  /** The `useState` initial values, which are also the values `resetState` sets. */
  const Initial := State(None, None, [], "", "", false)

  const InvalidTypeMessage := "Invalid file type. Please upload a file with a .json extension."
  const ProcessingPrefix := "Error processing JSON file: "
  const ReadErrorMessage := "Error reading the selected file."
  const NoJsonMessage := "No valid JSON data available to convert."
  const ConvertPrefix := "Error converting to CSV: "
  const NoCsvMessage := "No CSV data generated to download."

  /** One setter call. */
  datatype Update =
    | SetJsonData(jsonData: Option<seq<Record>>)
    | SetCsvData(csvData: Option<string>)
    | SetCsvHeaders(csvHeaders: seq<string>)
    | SetError(error: string)
    | SetInputFileName(inputFileName: string)
    | SetIsLoading(isLoading: bool)

  function ApplyOne(s: State, u: Update): State {
    match u
    case SetJsonData(v) => s.(jsonData := v)
    case SetCsvData(v) => s.(csvData := v)
    case SetCsvHeaders(v) => s.(csvHeaders := v)
    case SetError(v) => s.(error := v)
    case SetInputFileName(v) => s.(inputFileName := v)
    case SetIsLoading(v) => s.(isLoading := v)
  }

  /** The setter calls applied in call order. */
  function Apply(s: State, us: seq<Update>): State
    decreases |us|
  {
    if |us| == 0 then s else Apply(ApplyOne(s, us[0]), us[1..])
  }

  /** A setter call made after a list of calls acts on the state the list leaves. */
  lemma {:induction false} ApplySnoc(s: State, us: seq<Update>, u: Update)
    ensures Apply(s, us + [u]) == ApplyOne(Apply(s, us), u)
    decreases |us|
  {
    if |us| == 0 {
      assert us + [u] == [u];
      assert [u][1..] == [];
    } else {
      assert (us + [u])[0] == us[0];
      assert (us + [u])[1..] == us[1..] + [u];
      ApplySnoc(ApplyOne(s, us[0]), us[1..], u);
    }
  }

  /** The setter calls of `resetState`. */
  const ResetState: seq<Update> := [
    SetJsonData(None), SetCsvData(None), SetCsvHeaders([]),
    SetError(""), SetInputFileName(""), SetIsLoading(false)]

  /** What a handler asks the browser to do next. */
  datatype Effect =
    | NoEffect
      /** `reader.readAsText(file)`; it ends in `FileLoaded` or `FileReadFailed`. */
    | ReadFile(file: FileInfo)
      /** `setTimeout(..., 50)`; the callback sees the records captured at the click. */
    | StartConversionTimer(data: seq<Record>)
      /** The hidden-link click that saves `contents` under `name`. */
    | SaveFile(name: string, contents: string)

  datatype Event =
      /** A file input change or a drop; only the first file is used. */
    | FilesSelected(files: seq<FileInfo>)
    | FileLoaded(content: ParseInput)
    | FileReadFailed
    | ConvertClicked
    | ConversionTimerFired(data: seq<Record>)
    | DownloadClicked
    | NewConversionClicked

  /** `resetState()` from any state gives the initial values. */
  lemma ResetGivesInitial(s: State)
    ensures Apply(s, ResetState) == Initial
  {
  }

  /**
   * `processFile(file)`. A missing file changes nothing. A rejected file sets
   * the error and then resets, and the reset clears that error again. An
   * accepted file clears the data, keeps its base name and starts the read.
   */
  function ProcessFile(s: State, file: Option<FileInfo>): (r: (State, Effect))
    ensures file.None? ==> r == (s, NoEffect)
    ensures file.Some? && !Accepted(file.value) ==> r == (Initial, NoEffect)
    ensures file.Some? && Accepted(file.value) ==>
      r == (State(None, None, [], "", StripExtension(file.value.name), true), ReadFile(file.value))
  {
    match file
    case None => (s, NoEffect)
    case Some(f) =>
      if !Accepted(f) then
        ResetGivesInitial(ApplyOne(s, SetError(InvalidTypeMessage)));
        (Apply(s, [SetError(InvalidTypeMessage)] + ResetState), NoEffect)
      else (StartRead(s, f), ReadFile(f))
  }

  /** The setter calls for an accepted file: everything cleared but its base name, and loading. */
  function StartRead(s: State, f: FileInfo): (r: State)
    ensures r == State(None, None, [], "", StripExtension(f.name), true)
  {
    var u1 := SetInputFileName(StripExtension(f.name));
    var u2 := SetError("");
    var u3 := SetCsvData(None);
    var u4 := SetJsonData(None);
    var u5 := SetCsvHeaders([]);
    var u6 := SetIsLoading(true);
    ApplySnoc(s, [u1, u2, u3, u4, u5], u6);
    assert [u1, u2, u3, u4, u5] + [u6] == [u1, u2, u3, u4, u5, u6];
    ApplySnoc(s, [u1, u2, u3, u4], u5);
    assert [u1, u2, u3, u4] + [u5] == [u1, u2, u3, u4, u5];
    ApplySnoc(s, [u1, u2, u3], u4);
    assert [u1, u2, u3] + [u4] == [u1, u2, u3, u4];
    ApplySnoc(s, [u1, u2], u3);
    assert [u1, u2] + [u3] == [u1, u2, u3];
    ApplySnoc(s, [u1], u2);
    assert [u1] + [u2] == [u1, u2];
    ApplySnoc(s, [], u1);
    assert [] + [u1] == [u1];
    Apply(s, [u1, u2, u3, u4, u5, u6])
  }

  /**
   * `reader.onload`: valid content becomes `jsonData` and clears the error;
   * invalid content sets the error and clears `jsonData`. Either way loading
   * ends, and the CSV, its headers and the file name are left alone.
   */
  function ReaderOnLoad(s: State, content: ParseInput): (r: State)
    ensures !r.isLoading
    ensures r.csvData == s.csvData && r.csvHeaders == s.csvHeaders && r.inputFileName == s.inputFileName
    ensures ParseContent(content).Success? ==>
      r.jsonData == Some(ParseContent(content).value) && r.error == ""
    ensures ParseContent(content).Failure? ==>
      r.jsonData == None && r.error == ProcessingPrefix + ParseContent(content).error
  {
    match ParseContent(content)
    case Success(data) =>
      var u1 := SetJsonData(Some(data));
      var u2 := SetError("");
      var u3 := SetIsLoading(false);
      ApplySnoc(s, [u1, u2], u3);
      assert [u1, u2] + [u3] == [u1, u2, u3];
      ApplySnoc(s, [u1], u2);
      assert [u1] + [u2] == [u1, u2];
      ApplySnoc(s, [], u1);
      assert [] + [u1] == [u1];
      Apply(s, [u1, u2, u3])
    case Failure(message) =>
      var u1 := SetError(ProcessingPrefix + message);
      var u2 := SetJsonData(None);
      var u3 := SetIsLoading(false);
      ApplySnoc(s, [u1, u2], u3);
      assert [u1, u2] + [u3] == [u1, u2, u3];
      ApplySnoc(s, [u1], u2);
      assert [u1] + [u2] == [u1, u2];
      ApplySnoc(s, [], u1);
      assert [] + [u1] == [u1];
      Apply(s, [u1, u2, u3])
  }

  /** `reader.onerror`: sets the error, then resets, which clears it again. */
  function ReaderOnError(s: State): (r: State)
    ensures r == Initial
  {
    ResetGivesInitial(ApplyOne(s, SetError(ReadErrorMessage)));
    Apply(s, [SetError(ReadErrorMessage)] + ResetState)
  }

  /**
   * `convertToCSV`: without `jsonData` it reports an error and clears the CSV;
   * with any `jsonData`, the empty list included, it starts loading and
   * schedules the conversion of that data.
   */
  function ConvertToCsv(s: State): (r: (State, Effect))
    ensures s.jsonData.None? ==>
      r == (s.(error := NoJsonMessage, csvData := None, csvHeaders := []), NoEffect)
    ensures s.jsonData.Some? ==>
      r == (s.(isLoading := true, error := "", csvData := None, csvHeaders := []),
            StartConversionTimer(s.jsonData.value))
  {
    if s.jsonData.None? then
      var u1 := SetError(NoJsonMessage);
      var u2 := SetCsvData(None);
      var u3 := SetCsvHeaders([]);
      ApplySnoc(s, [u1, u2], u3);
      assert [u1, u2] + [u3] == [u1, u2, u3];
      ApplySnoc(s, [u1], u2);
      assert [u1] + [u2] == [u1, u2];
      ApplySnoc(s, [], u1);
      assert [] + [u1] == [u1];
      (Apply(s, [u1, u2, u3]), NoEffect)
    else
      var u1 := SetIsLoading(true);
      var u2 := SetError("");
      var u3 := SetCsvData(None);
      var u4 := SetCsvHeaders([]);
      ApplySnoc(s, [u1, u2, u3], u4);
      assert [u1, u2, u3] + [u4] == [u1, u2, u3, u4];
      ApplySnoc(s, [u1, u2], u3);
      assert [u1, u2] + [u3] == [u1, u2, u3];
      ApplySnoc(s, [u1], u2);
      assert [u1] + [u2] == [u1, u2];
      ApplySnoc(s, [], u1);
      assert [] + [u1] == [u1];
      (Apply(s, [u1, u2, u3, u4]), StartConversionTimer(s.jsonData.value))
  }

  /**
   * The setter calls that follow the `try` block, given the headers it
   * computed and its outcome: a success publishes the headers and the CSV
   * text; a thrown error is reported and clears both, even though the
   * headers were already set. Loading ends either way.
   */
  function Settle(s: State, headers: seq<string>, outcome: Result<Conversion, string>): (r: State)
    ensures !r.isLoading && r.jsonData == s.jsonData && r.inputFileName == s.inputFileName
    ensures outcome.Success? ==>
      r.csvHeaders == outcome.value.headers && r.csvData == Some(outcome.value.csv) && r.error == s.error
    ensures outcome.Failure? ==>
      r.csvHeaders == [] && r.csvData == None && r.error == ConvertPrefix + outcome.error
  {
    match outcome
    case Success(c) =>
      var u1 := SetCsvHeaders(c.headers);
      var u2 := SetCsvData(Some(c.csv));
      var u3 := SetIsLoading(false);
      ApplySnoc(s, [u1, u2], u3);
      assert [u1, u2] + [u3] == [u1, u2, u3];
      ApplySnoc(s, [u1], u2);
      assert [u1] + [u2] == [u1, u2];
      ApplySnoc(s, [], u1);
      assert [] + [u1] == [u1];
      Apply(s, [u1, u2, u3])
    case Failure(message) =>
      var u1 := SetCsvHeaders(headers);
      var u2 := SetError(ConvertPrefix + message);
      var u3 := SetCsvData(None);
      var u4 := SetCsvHeaders([]);
      var u5 := SetIsLoading(false);
      ApplySnoc(s, [u1, u2, u3, u4], u5);
      assert [u1, u2, u3, u4] + [u5] == [u1, u2, u3, u4, u5];
      ApplySnoc(s, [u1, u2, u3], u4);
      assert [u1, u2, u3] + [u4] == [u1, u2, u3, u4];
      ApplySnoc(s, [u1, u2], u3);
      assert [u1, u2] + [u3] == [u1, u2, u3];
      ApplySnoc(s, [u1], u2);
      assert [u1] + [u2] == [u1, u2];
      ApplySnoc(s, [], u1);
      assert [] + [u1] == [u1];
      Apply(s, [u1, u2, u3, u4, u5])
  }

  /** The `setTimeout` callback: convert the records captured at the click and settle the state. */
  function ConversionCallback(s: State, data: seq<Record>): (r: State)
    ensures !r.isLoading && r.jsonData == s.jsonData && r.inputFileName == s.inputFileName
    ensures Convert(data).Success? ==>
      r.csvHeaders == Convert(data).value.headers && r.csvData == Some(Convert(data).value.csv)
      && r.error == s.error
    ensures Convert(data).Failure? ==>
      r.csvHeaders == [] && r.csvData == None && r.error == ConvertPrefix + Convert(data).error
  {
    Settle(s, Headers(data), Convert(data))
  }

  /**
   * `downloadCSV`: refuses only when there is no CSV at all (an empty CSV
   * text is saved), does nothing while loading, and otherwise saves the CSV
   * under the download name without changing the state.
   */
  function DownloadCsv(s: State): (r: (State, Effect))
    ensures s.csvData.None? ==> r == (s.(error := NoCsvMessage), NoEffect)
    ensures s.csvData.Some? && s.isLoading ==> r == (s, NoEffect)
    ensures s.csvData.Some? && !s.isLoading ==>
      r == (s, SaveFile(DownloadName(s.inputFileName), s.csvData.value))
  {
    if s.csvData.None? then
      ApplySnoc(s, [], SetError(NoCsvMessage));
      assert [] + [SetError(NoCsvMessage)] == [SetError(NoCsvMessage)];
      (Apply(s, [SetError(NoCsvMessage)]), NoEffect)
    else if s.isLoading then (s, NoEffect)
    else (s, SaveFile(DownloadName(s.inputFileName), s.csvData.value))
  }

  /**
   * One event, dispatched to its handler. "New conversion" and a failed read
   * both start over, and only the conversion timer ever publishes a new CSV.
   */
  function Step(s: State, e: Event): (r: (State, Effect))
    ensures e.NewConversionClicked? || e.FileReadFailed? ==> r == (Initial, NoEffect)
    ensures r.0.csvData.Some? && r.0.csvData != s.csvData ==> e.ConversionTimerFired?
  {
    ResetGivesInitial(s);
    match e
    case FilesSelected(files) => ProcessFile(s, if |files| > 0 then Some(files[0]) else None)
    case FileLoaded(content) => (ReaderOnLoad(s, content), NoEffect)
    case FileReadFailed => (ReaderOnError(s), NoEffect)
    case ConvertClicked => ConvertToCsv(s)
    case ConversionTimerFired(data) => (ConversionCallback(s, data), NoEffect)
    case DownloadClicked => DownloadCsv(s)
    case NewConversionClicked => (Apply(s, ResetState), NoEffect)
  }

  /**
   * Only a selection starts a read, only a convert click starts the timer,
   * and only a download saves, and then exactly the CSV the state holds.
   */
  lemma StepEffects(s: State, e: Event)
    ensures var r := Step(s, e);
      && (r.1.ReadFile? ==> e.FilesSelected? && |e.files| > 0 && r.1.file == e.files[0])
      && (r.1.StartConversionTimer? ==> e.ConvertClicked? && s.jsonData == Some(r.1.data))
      && (r.1.SaveFile? ==> e.DownloadClicked? && r.0 == s && s.csvData == Some(r.1.contents))
  {
  }

  /** The state after a sequence of events. */
  function Run(s: State, events: seq<Event>): State
    decreases |events|
  {
    if |events| == 0 then s else Run(Step(s, events[0]).0, events[1..])
  }

  /** Only the first of several selected or dropped files is processed. */
  lemma OnlyFirstFileMatters(s: State, files: seq<FileInfo>)
    requires |files| > 0
    ensures Step(s, FilesSelected(files)) == Step(s, FilesSelected([files[0]]))
    ensures Step(s, FilesSelected([])) == (s, NoEffect)
  {
  }

  /** Whatever CSV the state holds is the conversion of some records, with its own headers. */
  ghost predicate CsvIsConversion(s: State) {
    if s.csvData.None? then s.csvHeaders == []
    else exists data :: Convert(data) == Success(Conversion(s.csvHeaders, s.csvData.value))
  }

  lemma StepKeepsCsvIsConversion(s: State, e: Event)
    requires CsvIsConversion(s)
    ensures CsvIsConversion(Step(s, e).0)
  {
    var r := Step(s, e).0;
    match e
    case ConversionTimerFired(data) =>
      if Convert(data).Success? {
        assert Convert(data) == Success(Conversion(r.csvHeaders, r.csvData.value));
      }
    case FileLoaded(_) =>
      CsvKept(s, r);
    case DownloadClicked =>
      CsvKept(s, r);
    case FilesSelected(files) =>
      if |files| == 0 {
        CsvKept(s, r);
      } else {
        assert r.csvData.None? && r.csvHeaders == [];
      }
    case _ =>
      assert r.csvData.None? && r.csvHeaders == [];
  }

  /** A state holding the same CSV and headers as a consistent one is consistent too. */
  lemma CsvKept(s: State, r: State)
    requires CsvIsConversion(s)
    requires r.csvData == s.csvData && r.csvHeaders == s.csvHeaders
    ensures CsvIsConversion(r)
  {
    if r.csvData.Some? {
      var data :| Convert(data) == Success(Conversion(s.csvHeaders, s.csvData.value));
      assert Convert(data) == Success(Conversion(r.csvHeaders, r.csvData.value));
    }
  }

  /** Every state reachable from the initial one keeps the CSV and its headers consistent. */
  lemma {:induction false} RunKeepsCsvIsConversion(s: State, events: seq<Event>)
    requires CsvIsConversion(s)
    ensures CsvIsConversion(Run(s, events))
    decreases |events|
  {
    if |events| > 0 {
      StepKeepsCsvIsConversion(s, events[0]);
      RunKeepsCsvIsConversion(Step(s, events[0]).0, events[1..]);
    }
  }

  /**
   * In every reachable state, a CSV text with headers reads back with the
   * headers the preview shows as its first line.
   */
  lemma ReachableCsvStartsWithHeaders(events: seq<Event>)
    ensures var s := Run(Initial, events);
      s.csvData.Some? && |s.csvHeaders| > 0 ==> ParseCsv(s.csvData.value)[0] == s.csvHeaders
  {
    RunKeepsCsvIsConversion(Initial, events);
    var s := Run(Initial, events);
    if s.csvData.Some? && |s.csvHeaders| > 0 {
      var data :| Convert(data) == Success(Conversion(s.csvHeaders, s.csvData.value));
      CsvReadsBack(data);
    }
  }

  /** Selecting one accepted file clears everything but its base name and starts the read. */
  lemma SelectAcceptedStep(s: State, f: FileInfo) returns (s1: State)
    requires Accepted(f)
    ensures Step(s, FilesSelected([f])) == (s1, ReadFile(f))
    ensures s1 == State(None, None, [], "", StripExtension(f.name), true)
  {
    s1 := State(None, None, [], "", StripExtension(f.name), true);
  }

  /** Loading valid content stores its records, clears the error and ends loading. */
  lemma LoadValidStep(s: State, root: Json) returns (s2: State)
    requires Validate(root).Success?
    ensures Step(s, FileLoaded(Decoded(root))).0 == s2
    ensures s2 == s.(jsonData := Some(Validate(root).value), error := "", isLoading := false)
  {
    s2 := s.(jsonData := Some(Validate(root).value), error := "", isLoading := false);
  }

  /** A convert click with data clears the error and the CSV, starts loading and schedules the conversion. */
  lemma ConvertClickStep(s: State) returns (s3: State)
    requires s.jsonData.Some?
    ensures Step(s, ConvertClicked) == (s3, StartConversionTimer(s.jsonData.value))
    ensures s3 == s.(isLoading := true, error := "", csvData := None, csvHeaders := [])
  {
    s3 := s.(isLoading := true, error := "", csvData := None, csvHeaders := []);
  }

  /** A successful conversion publishes its headers and text and ends loading. */
  lemma TimerSuccessStep(s: State, data: seq<Record>) returns (s4: State)
    requires Convert(data).Success?
    ensures Step(s, ConversionTimerFired(data)).0 == s4
    ensures s4 == s.(csvHeaders := Convert(data).value.headers, csvData := Some(Convert(data).value.csv), isLoading := false)
  {
    s4 := s.(csvHeaders := Convert(data).value.headers, csvData := Some(Convert(data).value.csv), isLoading := false);
  }

  /** A download with a CSV and not loading saves that CSV and leaves the state alone. */
  lemma DownloadStep(s: State)
    requires s.csvData.Some? && !s.isLoading
    ensures Step(s, DownloadClicked) == (s, SaveFile(DownloadName(s.inputFileName), s.csvData.value))
  {
  }

  /**
   * The whole happy path from any state: pick an accepted file, load valid
   * content, click convert, let the timer fire, click download. The file
   * is read, the validated records are converted, and the CSV is saved
   * under the name derived from the file's name, with no error showing.
   */
  lemma ConvertAndDownload(s: State, f: FileInfo, root: Json)
    requires Accepted(f)
    requires Validate(root).Success?
    requires Convert(Validate(root).value).Success?
    ensures
      var data := Validate(root).value;
      var (s1, e1) := Step(s, FilesSelected([f]));
      var s2 := Step(s1, FileLoaded(Decoded(root))).0;
      var (s3, e3) := Step(s2, ConvertClicked);
      var s4 := Step(s3, ConversionTimerFired(data)).0;
      var (s5, e5) := Step(s4, DownloadClicked);
      && e1 == ReadFile(f)
      && e3 == StartConversionTimer(data)
      && s5 == s4 && s5.error == "" && s5.jsonData == Some(data)
      && e5 == SaveFile(DownloadName(StripExtension(f.name)), Convert(data).value.csv)
  {
    var data := Validate(root).value;
    var s1 := SelectAcceptedStep(s, f);
    var s2 := LoadValidStep(s1, root);
    var s3 := ConvertClickStep(s2);
    var s4 := TimerSuccessStep(s3, data);
    DownloadStep(s4);
  }

  /** How many records the preview shows at most. */
  const PreviewLimit := 5

  /** The preview table: headers, the first rows' cells, and the record count when rows are hidden. */
  datatype PreviewTable = PreviewTable(headers: seq<string>, rows: seq<seq<string>>, hiddenOf: Option<nat>)

  /**
   * A preview cell: the `rowObject.hasOwnProperty(header)` call, which throws
   * when the record hides that method, then `String(rowObject[header])`, or
   * "" for a missing key. It is the unescaped CSV cell text, except that a
   * null shows as "null" where the CSV holds an empty cell.
   */
  function PreviewCell(r: Record, h: string): (c: Result<string, string>)
    ensures c.Failure? <==> HasKey(r, OwnPropertyCheck) || (HasKey(r, h) && ToStringThrows(Lookup(r, h)))
    ensures c.Failure? ==> c.error == RowError(r)
    ensures c.Success? ==> c.value == if HasKey(r, h) && Lookup(r, h).Null? then "null" else CellText(r, h)
  {
    if HasKey(r, OwnPropertyCheck) then Failure(ShadowedCheckMessage)
    else if HasKey(r, h) then Stringify(Lookup(r, h))
    else Success("")
  }

  /**
   * Whether rendering the preview row of a record throws: a hidden
   * `hasOwnProperty` fails at the first header, and `String()` fails on a
   * value without a primitive form.
   */
  predicate PreviewRowThrows(r: Record, headers: seq<string>) {
    || (|headers| > 0 && HasKey(r, OwnPropertyCheck))
    || exists j :: 0 <= j < |headers| && HasKey(r, headers[j]) && ToStringThrows(Lookup(r, headers[j]))
  }

  /** The cells of a preview row that renders, one per header. */
  function PreviewRow(r: Record, headers: seq<string>): seq<string>
    requires !PreviewRowThrows(r, headers)
  {
    seq(|headers|, j requires 0 <= j < |headers| => PreviewCell(r, headers[j]).value)
  }

  /**
   * The preview's body, rendered record by record: the rows, or the error
   * of the first record whose row throws, which aborts the render.
   */
  function PreviewRows(records: seq<Record>, headers: seq<string>): (r: Result<seq<seq<string>>, string>)
    ensures r.Failure? <==> exists i :: 0 <= i < |records| && PreviewRowThrows(records[i], headers)
    ensures r.Success? ==>
      && |r.value| == |records|
      && forall i :: 0 <= i < |records| ==> r.value[i] == PreviewRow(records[i], headers)
    decreases |records|
  {
    if |records| == 0 then Success([])
    else
      assert forall i :: 0 <= i < |records| - 1 ==> records[1..][i] == records[i + 1];
      if PreviewRowThrows(records[0], headers) then Failure(RowError(records[0]))
      else
        match PreviewRows(records[1..], headers)
        case Failure(e) => Failure(e)
        case Success(rest) => Success([PreviewRow(records[0], headers)] + rest)
  }

  /** When the render throws, the error is that of the first record whose row throws. */
  lemma {:induction false} PreviewRowsReportsFirstThrow(records: seq<Record>, headers: seq<string>)
    requires PreviewRows(records, headers).Failure?
    ensures exists i ::
      && 0 <= i < |records| && PreviewRowThrows(records[i], headers)
      && (forall k :: 0 <= k < i ==> !PreviewRowThrows(records[k], headers))
      && PreviewRows(records, headers).error == RowError(records[i])
    decreases |records|
  {
    if !PreviewRowThrows(records[0], headers) {
      var tail := records[1..];
      assert forall i :: 0 <= i < |tail| ==> tail[i] == records[i + 1];
      PreviewRowsReportsFirstThrow(tail, headers);
      var i :| && 0 <= i < |tail| && PreviewRowThrows(tail[i], headers)
               && (forall k :: 0 <= k < i ==> !PreviewRowThrows(tail[k], headers))
               && PreviewRows(tail, headers).error == RowError(tail[i]);
      assert PreviewRowThrows(records[i + 1], headers);
    }
  }

  /**
   * The table preview: shown only when not loading, with a CSV, non-empty
   * headers and records. It renders the first `min(5, n)` records, or
   * throws when one of their cells does, and gives the total count exactly
   * when there are more than five.
   */
  function Preview(s: State): (p: Option<Result<PreviewTable, string>>)
    ensures p.Some? <==> !s.isLoading && s.csvData.Some? && |s.csvHeaders| > 0 && s.jsonData.Some?
    ensures p.Some? ==>
      var data := s.jsonData.value;
      var shown := if |data| < PreviewLimit then |data| else PreviewLimit;
      && (p.value.Failure? <==> exists i :: 0 <= i < shown && PreviewRowThrows(data[i], s.csvHeaders))
      && (p.value.Success? ==>
            && p.value.value.headers == s.csvHeaders
            && |p.value.value.rows| == shown
            && (forall i :: 0 <= i < shown ==> p.value.value.rows[i] == PreviewRow(data[i], s.csvHeaders))
            && (p.value.value.hiddenOf.Some? <==> |data| > PreviewLimit)
            && (p.value.value.hiddenOf.Some? ==> p.value.value.hiddenOf.value == |data|))
  {
    if s.isLoading || s.csvData.None? || |s.csvHeaders| == 0 || s.jsonData.None? then None
    else
      var data := s.jsonData.value;
      var headers := s.csvHeaders;
      var shown := data[..if |data| < PreviewLimit then |data| else PreviewLimit];
      assert forall i :: 0 <= i < |shown| ==> shown[i] == data[i];
      match PreviewRows(shown, headers)
      case Failure(e) => Some(Failure(e))
      case Success(rows) =>
        Some(Success(PreviewTable(headers, rows, if |data| > PreviewLimit then Some(|data|) else None)))
  }

  /**
   * A preview of the records the CSV was converted from renders without
   * throwing, one row per shown record, each as wide as the headers.
   */
  lemma PreviewOfConvertedRenders(s: State, data: seq<Record>)
    requires Preview(s).Some? && s.jsonData == Some(data)
    requires Convert(data) == Success(Conversion(s.csvHeaders, s.csvData.value))
    ensures Preview(s).value.Success?
    ensures var rows := Preview(s).value.value.rows;
      && |rows| <= |data|
      && forall i :: 0 <= i < |rows| ==>
           && !PreviewRowThrows(data[i], s.csvHeaders)
           && rows[i] == PreviewRow(data[i], s.csvHeaders)
           && |rows[i]| == |s.csvHeaders|
  {
    var headers := s.csvHeaders;
    var shown := if |data| < PreviewLimit then |data| else PreviewLimit;
    forall i | 0 <= i < shown
      ensures !PreviewRowThrows(data[i], headers)
    {
      RowThrowsIffRecordThrows(data, i);
      assert !RowThrows(data[i], headers);
    }
  }


  /**
   * When the preview shows the records the CSV was converted from, each
   * preview cell equals the cell read back from the CSV, except a null,
   * which the preview shows as "null" and the CSV holds as "".
   */
  lemma PreviewAgreesWithCsv(s: State, data: seq<Record>)
    requires Preview(s).Some? && s.jsonData == Some(data)
    requires Convert(data) == Success(Conversion(s.csvHeaders, s.csvData.value))
    ensures Preview(s).value.Success?
    ensures ParseCsv(s.csvData.value) == [s.csvHeaders] + CellTable(data, s.csvHeaders)
    ensures var p := Preview(s).value.value;
      forall i, j :: 0 <= i < |p.rows| && 0 <= j < |s.csvHeaders| ==>
        p.rows[i][j] == if HasKey(data[i], s.csvHeaders[j]) && Lookup(data[i], s.csvHeaders[j]).Null?
                        then "null" else ParseCsv(s.csvData.value)[i + 1][j]
  {
    PreviewOfConvertedRenders(s, data);
    CsvReadsBack(data);
    PreviewRowsAgreeWithTable(data, s.csvHeaders, Preview(s).value.value.rows,
                              CellTable(data, s.csvHeaders), ParseCsv(s.csvData.value));
  }

  /**
   * Preview rows of records that do not throw agree with the rows after the
   * header of a parsed table of their cell texts, except that a null shows as
   * "null".
   */
  lemma PreviewRowsAgreeWithTable(data: seq<Record>, headers: seq<string>, rows: seq<seq<string>>,
                                  table: seq<seq<string>>, parsed: seq<seq<string>>)
    requires forall i :: 0 <= i < |data| ==> !RecordThrows(data[i])
    requires table == CellTable(data, headers)
    requires |table| == |data| && forall i :: 0 <= i < |table| ==> |table[i]| == |headers|
    requires parsed == [headers] + table
    requires |rows| <= |data|
    requires forall i :: 0 <= i < |rows| ==> !PreviewRowThrows(data[i], headers) && rows[i] == PreviewRow(data[i], headers) && |rows[i]| == |headers|
    ensures forall i, j :: 0 <= i < |rows| && 0 <= j < |headers| ==>
      rows[i][j] == if HasKey(data[i], headers[j]) && Lookup(data[i], headers[j]).Null? then "null" else parsed[i + 1][j]
  {
    forall i, j | 0 <= i < |rows| && 0 <= j < |headers|
      ensures rows[i][j] == if HasKey(data[i], headers[j]) && Lookup(data[i], headers[j]).Null? then "null" else parsed[i + 1][j]
    {
      NoCellThrows(data[i], headers[j]);
      assert parsed[i + 1] == table[i];
      assert table[i][j] == CellText(data[i], headers[j]);
      assert rows[i][j] == PreviewCell(data[i], headers[j]).value;
    }
  }

}
