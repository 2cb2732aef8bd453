/**
 * The body of `convertToCSV` (src/ConverterApp.js:171-196): the header union
 * in first-seen order, an optional header row, one row per record, all
 * joined by line feeds with no trailing line feed.
 */
module CsvEncoder {
  import opened Wrappers
  import opened Strings
  import opened Json
  import opened CsvEscape
  import opened CsvReader

  /**
   * The key JavaScript's `hasOwnProperty` method is looked up under. A record
   * that owns a member with this key hides the method, and the call
   * `rowObject.hasOwnProperty(header)` throws a TypeError.
   */
  const OwnPropertyCheck := "hasOwnProperty"
  const ShadowedCheckMessage := "rowObject.hasOwnProperty is not a function"

  /** The headers and the CSV text of one successful conversion. */
  datatype Conversion = Conversion(headers: seq<string>, csv: string)

  /** Every key of every record, scanning the records in order and each record's members in order. */
  function KeyStream(records: seq<Record>): seq<string>
    decreases |records|
  {
    if |records| == 0 then [] else KeysOf(records[0]) + KeyStream(records[1..])
  }

  /** The position of the first `x` in `ks`, or `|ks|` when there is none. */
  function FirstIndex(ks: seq<string>, x: string): (r: nat)
    ensures r <= |ks| && x !in ks[..r]
    ensures r < |ks| <==> x in ks
    ensures r < |ks| ==> ks[r] == x
    decreases |ks|
  {
    if |ks| == 0 then 0
    else if ks[0] == x then 0
    else
      var r := 1 + FirstIndex(ks[1..], x);
      assert ks[..r] == [ks[0]] + ks[1..][..r - 1];
      assert ks == [ks[0]] + ks[1..];
      r
  }

  ghost predicate NoDuplicates(s: seq<string>) {
    forall a, b :: 0 <= a < b < |s| ==> s[a] != s[b]
  }

  /** `acc` lists the distinct keys of `ks[..i]`, ordered by where each first occurs in `ks`. */
  ghost predicate FirstSeen(ks: seq<string>, i: nat, acc: seq<string>)
    requires i <= |ks|
  {
    && NoDuplicates(acc)
    && (forall k :: k in acc <==> k in ks[..i])
    && (forall a, b :: 0 <= a < b < |acc| ==> FirstIndex(ks, acc[a]) < FirstIndex(ks, acc[b]))
  }

  /** The `allKeys.add(key)` loop from position `i` of the key stream on: a Set keeps insertion order. */
  function Collect(ks: seq<string>, i: nat, acc: seq<string>): seq<string>
    requires i <= |ks|
    decreases |ks| - i
  {
    if i == |ks| then acc
    else Collect(ks, i + 1, if ks[i] in acc then acc else acc + [ks[i]])
  }

  lemma FirstIndexBefore(ks: seq<string>, i: nat, x: string)
    requires i <= |ks| && x in ks[..i]
    ensures FirstIndex(ks, x) < i
  {
  }

  lemma FirstIndexAt(ks: seq<string>, i: nat)
    requires i < |ks| && ks[i] !in ks[..i]
    ensures FirstIndex(ks, ks[i]) == i
  {
  }

  lemma {:induction false} CollectKeepsFirstSeen(ks: seq<string>, i: nat, acc: seq<string>)
    requires i <= |ks| && FirstSeen(ks, i, acc)
    ensures FirstSeen(ks, |ks|, Collect(ks, i, acc))
    decreases |ks| - i
  {
    if i < |ks| {
      var k := ks[i];
      assert ks[..i + 1] == ks[..i] + [k];
      if k in acc {
        CollectKeepsFirstSeen(ks, i + 1, acc);
      } else {
        var acc' := acc + [k];
        FirstIndexAt(ks, i);
        forall a | 0 <= a < |acc|
          ensures FirstIndex(ks, acc'[a]) < FirstIndex(ks, k)
        {
          FirstIndexBefore(ks, i, acc[a]);
        }
        assert FirstSeen(ks, i + 1, acc');
        CollectKeepsFirstSeen(ks, i + 1, acc');
      }
    }
  }

  lemma {:induction false} KeyStreamMembers(records: seq<Record>, k: string)
    ensures k in KeyStream(records) <==> exists i :: 0 <= i < |records| && HasKey(records[i], k)
    decreases |records|
  {
    if |records| > 0 {
      KeyStreamMembers(records[1..], k);
      if k in KeyStream(records[1..]) {
        var i :| 0 <= i < |records[1..]| && HasKey(records[1..][i], k);
        assert HasKey(records[i + 1], k);
      }
      if exists i :: 0 <= i < |records| && HasKey(records[i], k) {
        var i :| 0 <= i < |records| && HasKey(records[i], k);
        if i > 0 {
          assert HasKey(records[1..][i - 1], k);
        }
      }
    }
  }

  /**
   * `Array.from(allKeys)`: the union of the records' keys, without
   * duplicates, ordered by first occurrence in record order and then in
   * member order.
   */
  function Headers(records: seq<Record>): (h: seq<string>)
    ensures NoDuplicates(h)
    ensures forall k :: k in h <==> exists i :: 0 <= i < |records| && HasKey(records[i], k)
    ensures forall a, b :: 0 <= a < b < |h| ==>
      FirstIndex(KeyStream(records), h[a]) < FirstIndex(KeyStream(records), h[b])
  {
    var ks := KeyStream(records);
    CollectKeepsFirstSeen(ks, 0, []);
    assert ks[..|ks|] == ks;
    var h := Collect(ks, 0, []);
    forall k
      ensures k in h <==> exists i :: 0 <= i < |records| && HasKey(records[i], k)
    {
      KeyStreamMembers(records, k);
    }
    h
  }

  /** Whether `String()` throws on the value a record holds under `h`; a missing key or a null is never stringified. */
  predicate CellThrows(r: Record, h: string) {
    HasKey(r, h) && !Lookup(r, h).Null? && ToStringThrows(Lookup(r, h))
  }

  /** The text a cell holds before escaping: the value's `String()`, or "" for a missing key or a null. */
  function CellText(r: Record, h: string): string
    requires !CellThrows(r, h)
  {
    if HasKey(r, h) && !Lookup(r, h).Null? then Stringify(Lookup(r, h)).value else ""
  }

  /** `escapeCsvValue(rowObject.hasOwnProperty(header) ? rowObject[header] : "")`, once the check itself has not thrown. */
  function Cell(r: Record, h: string): (c: Result<string, string>)
    ensures c.Failure? <==> CellThrows(r, h)
    ensures c.Failure? ==> c.error == PrimitiveConversionMessage
    ensures c.Success? ==> c.value == EscapeString(CellText(r, h))
  {
    EscapeValue(if HasKey(r, h) then Lookup(r, h) else Str(""))
  }

  /**
   * Whether building the row of `r` throws: a hidden `hasOwnProperty` fails
   * at the first header, and `String()` fails on a value without a
   * primitive form.
   */
  predicate RowThrows(r: Record, headers: seq<string>) {
    || (|headers| > 0 && HasKey(r, OwnPropertyCheck))
    || exists j :: 0 <= j < |headers| && CellThrows(r, headers[j])
  }

  /** The message a throwing row raises: the `hasOwnProperty` call comes before any `String()` of the record. */
  function RowError(r: Record): string {
    if HasKey(r, OwnPropertyCheck) then ShadowedCheckMessage else PrimitiveConversionMessage
  }

  /** The cell texts of a row that does not throw, in header order. */
  function CellTexts(r: Record, headers: seq<string>): seq<string>
    requires forall j :: 0 <= j < |headers| ==> !CellThrows(r, headers[j])
  {
    seq(|headers|, j requires 0 <= j < |headers| => CellText(r, headers[j]))
  }

  /** `headers.map(...)` for one record: its escaped cells in header order, or the error of the first header that throws. */
  function RowCells(r: Record, headers: seq<string>): (c: Result<seq<string>, string>)
    ensures c.Failure? <==> RowThrows(r, headers)
    ensures c.Failure? ==> c.error == RowError(r)
    ensures c.Success? ==>
      |c.value| == |headers| && forall j :: 0 <= j < |headers| ==> c.value[j] == EscapeString(CellText(r, headers[j]))
    decreases |headers|
  {
    if |headers| == 0 then Success([])
    else if HasKey(r, OwnPropertyCheck) then Failure(ShadowedCheckMessage)
    else
      assert forall j :: 0 <= j < |headers| - 1 ==> headers[1..][j] == headers[j + 1];
      match Cell(r, headers[0])
      case Failure(e) => Failure(e)
      case Success(c) =>
        match RowCells(r, headers[1..])
        case Failure(e) => Failure(e)
        case Success(cs) => Success([c] + cs)
  }

  /** The data rows, one per record in order, or the error of the first record whose row throws. */
  function DataRows(records: seq<Record>, headers: seq<string>): (rs: Result<seq<string>, string>)
    ensures rs.Failure? <==> exists i :: 0 <= i < |records| && RowThrows(records[i], headers)
    ensures rs.Failure? ==> rs.error == ShadowedCheckMessage || rs.error == PrimitiveConversionMessage
    ensures rs.Success? ==>
      && |rs.value| == |records|
      && forall i :: 0 <= i < |records| ==> rs.value[i] == EscapedLine(CellTexts(records[i], headers))
    decreases |records|
  {
    if |records| == 0 then Success([])
    else
      assert forall i :: 0 <= i < |records| - 1 ==> records[1..][i] == records[i + 1];
      match RowCells(records[0], headers)
      case Failure(e) => Failure(e)
      case Success(cells) =>
        assert cells == seq(|headers|, j requires 0 <= j < |headers| => EscapeString(CellTexts(records[0], headers)[j]));
        match DataRows(records[1..], headers)
        case Failure(e) => Failure(e)
        case Success(rest) => Success([Join(',', cells)] + rest)
  }

  /** When the rows throw, the error is that of the first record whose row throws. */
  lemma {:induction false} DataRowsReportsFirstThrow(records: seq<Record>, headers: seq<string>)
    requires DataRows(records, headers).Failure?
    ensures exists i ::
      && 0 <= i < |records| && RowThrows(records[i], headers)
      && (forall k :: 0 <= k < i ==> !RowThrows(records[k], headers))
      && DataRows(records, headers).error == RowError(records[i])
    decreases |records|
  {
    if !RowThrows(records[0], headers) {
      var tail := records[1..];
      assert forall i :: 0 <= i < |tail| ==> tail[i] == records[i + 1];
      DataRowsReportsFirstThrow(tail, headers);
      var i :| && 0 <= i < |tail| && RowThrows(tail[i], headers)
               && (forall k :: 0 <= k < i ==> !RowThrows(tail[k], headers))
               && DataRows(tail, headers).error == RowError(tail[i]);
      assert RowThrows(records[i + 1], headers);
    }
  }

  /** Whether a record throws under any headers that include its keys: it owns `hasOwnProperty`, or one of its values has no primitive form. */
  predicate RecordThrows(r: Record) {
    HasKey(r, OwnPropertyCheck) || exists k :: 0 <= k < |r| && CellThrows(r, r[k].key)
  }

  /** Under the header union, a record's row throws exactly when the record throws. */
  lemma RowThrowsIffRecordThrows(records: seq<Record>, i: nat)
    requires i < |records|
    ensures RowThrows(records[i], Headers(records)) <==> RecordThrows(records[i])
  {
    var headers := Headers(records);
    var r := records[i];
    if HasKey(r, OwnPropertyCheck) {
      assert OwnPropertyCheck in headers;
    }
    if exists j :: 0 <= j < |headers| && CellThrows(r, headers[j]) {
      var j :| 0 <= j < |headers| && CellThrows(r, headers[j]);
      var k :| 0 <= k < |r| && KeysOf(r)[k] == headers[j];
      assert CellThrows(r, r[k].key);
    }
    if exists k :: 0 <= k < |r| && CellThrows(r, r[k].key) {
      var k :| 0 <= k < |r| && CellThrows(r, r[k].key);
      assert r[k].key in headers;
      var j :| 0 <= j < |headers| && headers[j] == r[k].key;
      assert CellThrows(r, headers[j]);
    }
  }

  /**
   * The `try` block of the conversion callback: the headers and
   * `csvRows.join("\n")`, or the error thrown by the first record that
   * throws.
   */
  function Convert(records: seq<Record>): (r: Result<Conversion, string>)
    ensures r.Failure? <==> exists i :: 0 <= i < |records| && RecordThrows(records[i])
    ensures r.Failure? ==> r.error == ShadowedCheckMessage || r.error == PrimitiveConversionMessage
    ensures r.Success? ==> r.value.headers == Headers(records)
    ensures |records| == 0 ==> r == Success(Conversion([], ""))
  {
    var headers := Headers(records);
    assert forall i :: 0 <= i < |records| ==> (RowThrows(records[i], headers) <==> RecordThrows(records[i])) by {
      forall i | 0 <= i < |records|
        ensures RowThrows(records[i], headers) <==> RecordThrows(records[i])
      {
        RowThrowsIffRecordThrows(records, i);
      }
    }
    match DataRows(records, headers)
    case Failure(e) => Failure(e)
    case Success(rows) =>
      Success(Conversion(headers, Join('\n', (if |headers| > 0 then [EscapedLine(headers)] else []) + rows)))
  }

  /**
   * A failed conversion reports the error of the first record that throws:
   * the records before it convert, and that record's `hasOwnProperty` call
   * or, failing that, one of its `String()` calls throws.
   */
  lemma ConvertReportsFirstThrow(records: seq<Record>)
    requires Convert(records).Failure?
    ensures exists i ::
      && 0 <= i < |records| && RecordThrows(records[i])
      && (forall k :: 0 <= k < i ==> !RecordThrows(records[k]))
      && Convert(records).error == RowError(records[i])
  {
    var headers := Headers(records);
    var rows := DataRows(records, headers);
    assert rows.Failure?;
    DataRowsReportsFirstThrow(records, headers);
    var i :| && 0 <= i < |records| && RowThrows(records[i], headers)
             && (forall k :: 0 <= k < i ==> !RowThrows(records[k], headers))
             && rows.error == RowError(records[i]);
    RowThrowsIffRecordThrows(records, i);
    forall k | 0 <= k < i
      ensures !RecordThrows(records[k])
    {
      RowThrowsIffRecordThrows(records, k);
    }
  }

  /** A record that does not throw has no cell that throws, under any header. */
  lemma NoCellThrows(r: Record, h: string)
    requires !RecordThrows(r)
    ensures !CellThrows(r, h)
  {
  }

  /** The cell texts of every record under the given headers. */
  function CellTable(records: seq<Record>, headers: seq<string>): seq<seq<string>>
    requires forall i :: 0 <= i < |records| ==> !RecordThrows(records[i])
  {
    assert forall i, j :: 0 <= i < |records| && 0 <= j < |headers| ==> !CellThrows(records[i], headers[j]) by {
      forall i, j | 0 <= i < |records| && 0 <= j < |headers|
        ensures !CellThrows(records[i], headers[j])
      {
        NoCellThrows(records[i], headers[j]);
      }
    }
    seq(|records|, i requires 0 <= i < |records| => CellTexts(records[i], headers))
  }

  /**
   * Read back with the CSV reader, a converted text gives the header row and
   * then, for every record in order, the text of each header's cell: the
   * value's `String()`, or "" for a missing key or a null.
   */
  lemma CsvReadsBack(records: seq<Record>)
    requires Convert(records).Success?
    requires |Convert(records).value.headers| > 0
    ensures var c := Convert(records).value;
      ParseCsv(c.csv) == [c.headers] + CellTable(records, c.headers)
  {
    var c := Convert(records).value;
    var headers := c.headers;
    var cells := CellTable(records, headers);
    var table := [headers] + cells;
    var rows := DataRows(records, headers).value;
    var lines := [EscapedLine(headers)] + rows;
    assert c.csv == Join('\n', lines);
    DataRowsEscapeCellTable(records, headers);
    forall i | 0 <= i < |table|
      ensures lines[i] == EscapedLine(table[i]) && |table[i]| >= 1
    {
      if i > 0 {
        assert table[i] == cells[i - 1] && lines[i] == rows[i - 1];
      }
    }
    JoinEscapedLines(table, lines);
    EscapedTableReadsBack(table);
  }

  /** The data rows are the escaped rows of the cell table, each as wide as the headers. */
  lemma DataRowsEscapeCellTable(records: seq<Record>, headers: seq<string>)
    requires forall i :: 0 <= i < |records| ==> !RecordThrows(records[i])
    requires DataRows(records, headers).Success?
    ensures var rows := DataRows(records, headers).value;
      var cells := CellTable(records, headers);
      && |rows| == |cells| == |records|
      && forall i :: 0 <= i < |rows| ==> rows[i] == EscapedLine(cells[i]) && |cells[i]| == |headers|
  {
  }

  /** Joining `n` empty lines gives `n - 1` line feeds. */
  lemma {:induction false} JoinEmptyLines(lines: seq<string>)
    requires |lines| >= 1
    requires forall i :: 0 <= i < |lines| ==> lines[i] == ""
    ensures Join('\n', lines) == Repeat('\n', |lines| - 1)
    decreases |lines|
  {
    if |lines| > 1 {
      JoinEmptyLines(lines[1..]);
      assert Repeat('\n', |lines| - 1) == ['\n'] + Repeat('\n', |lines| - 2);
    }
  }

  /**
   * Records without keys give no headers and no header row, yet each still
   * gives an (empty) row: `n` such records convert to `n - 1` line feeds.
   */
  lemma HeaderlessCsv(records: seq<Record>)
    requires |records| >= 1
    requires forall i :: 0 <= i < |records| ==> |records[i]| == 0
    ensures Convert(records) == Success(Conversion([], Repeat('\n', |records| - 1)))
  {
    NoHeadersIffEmptyRecords(records);
    assert forall i :: 0 <= i < |records| ==> !RecordThrows(records[i]);
    var rows := DataRows(records, []).value;
    assert forall i :: 0 <= i < |rows| ==> rows[i] == EscapedLine([]) == "";
    assert [] + rows == rows;
    JoinEmptyLines(rows);
  }

  /** Headers are empty exactly when every record is an empty object. */
  lemma NoHeadersIffEmptyRecords(records: seq<Record>)
    ensures |Headers(records)| == 0 <==> forall i :: 0 <= i < |records| ==> |records[i]| == 0
  {
    var headers := Headers(records);
    if |headers| > 0 {
      assert headers[0] in headers;
      var i :| 0 <= i < |records| && HasKey(records[i], headers[0]);
      assert |records[i]| > 0;
    }
    if exists i :: 0 <= i < |records| && |records[i]| > 0 {
      var i :| 0 <= i < |records| && |records[i]| > 0;
      assert HasKey(records[i], records[i][0].key) by {
        assert KeysOf(records[i])[0] == records[i][0].key;
      }
      assert records[i][0].key in headers;
    }
  }
}
