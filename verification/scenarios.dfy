/** Worked examples of the converter's documented behaviour. */
module Scenarios {
  import opened Wrappers
  import opened Strings
  import opened Json
  import opened CsvEscape
  import opened CsvReader
  import opened CsvEncoder
  import opened RecordParser
  import opened FileNaming
  import opened ConverterApp

  const First: Record := [Member("a", Number("1")), Member("b", Number("2"))]
  const Second: Record := [Member("b", Number("3")), Member("c", Number("4"))]

  lemma JoinThree(sep: char, a: string, b: string, c: string)
    ensures Join(sep, [a, b, c]) == a + [sep] + b + [sep] + c
  {
    assert [a, b, c][1..] == [b, c];
    assert [b, c][1..] == [c];
    assert Join(sep, [b, c]) == b + [sep] + c;
    assert Join(sep, [a, b, c]) == a + [sep] + (b + [sep] + c);
  }

  /** Three cells that need no quoting are written as they are, separated by commas. */
  lemma PlainLine(a: string, b: string, c: string)
    requires !NeedsQuoting(a) && !NeedsQuoting(b) && !NeedsQuoting(c)
    ensures EscapedLine([a, b, c]) == a + [','] + b + [','] + c
  {
    assert seq(3, j requires 0 <= j < 3 => EscapeString([a, b, c][j])) == [a, b, c];
    JoinThree(',', a, b, c);
  }

  lemma ExampleHeaders()
    ensures Headers([First, Second]) == ["a", "b", "c"]
  {
    assert KeysOf(First) == ["a", "b"];
    assert KeysOf(Second) == ["b", "c"];
    assert [First, Second][1..] == [Second];
    assert KeyStream([Second]) == ["b", "c"] + KeyStream([]);
    var ks := ["a", "b", "b", "c"];
    assert ["a", "b"] + ["b", "c"] == ks;
    assert KeyStream([First, Second]) == ks;
    assert Collect(ks, 0, []) == ["a", "b", "c"];
  }

  lemma FirstRow()
    ensures !RowThrows(First, ["a", "b", "c"])
    ensures EscapedLine(CellTexts(First, ["a", "b", "c"])) == "1,2,"
  {
    assert KeysOf(First) == ["a", "b"];
    assert Lookup(First, "a") == Number("1");
    assert Lookup(First, "b") == Number("2");
    assert !HasKey(First, "c") && !HasKey(First, OwnPropertyCheck);
    assert CellTexts(First, ["a", "b", "c"]) == ["1", "2", ""];
    PlainLine("1", "2", "");
  }

  lemma SecondRow()
    ensures !RowThrows(Second, ["a", "b", "c"])
    ensures EscapedLine(CellTexts(Second, ["a", "b", "c"])) == ",3,4"
  {
    assert KeysOf(Second) == ["b", "c"];
    assert Lookup(Second, "b") == Number("3");
    assert Lookup(Second, "c") == Number("4");
    assert !HasKey(Second, "a") && !HasKey(Second, OwnPropertyCheck);
    assert CellTexts(Second, ["a", "b", "c"]) == ["", "3", "4"];
    PlainLine("", "3", "4");
  }

  lemma ExampleRows()
    ensures DataRows([First, Second], ["a", "b", "c"]) == Success(["1,2,", ",3,4"])
  {
    FirstRow();
    SecondRow();
    var rows := DataRows([First, Second], ["a", "b", "c"]);
    assert rows.Success?;
    assert rows.value == ["1,2,", ",3,4"];
  }

  lemma ExampleText()
    ensures Join('\n', [EscapedLine(["a", "b", "c"])] + ["1,2,", ",3,4"]) == "a,b,c\n1,2,\n,3,4"
  {
    var headers := ["a", "b", "c"];
    PlainLine("a", "b", "c");
    assert EscapedLine(headers) == "a,b,c";
    assert ["a,b,c"] + ["1,2,", ",3,4"] == ["a,b,c", "1,2,", ",3,4"];
    JoinThree('\n', "a,b,c", "1,2,", ",3,4");
    assert "a,b,c" + ['\n'] + "1,2," + ['\n'] + ",3,4" == "a,b,c\n1,2,\n,3,4";
  }

  lemma HeterogeneousRecords()
    ensures Convert([First, Second]) == Success(Conversion(["a", "b", "c"], "a,b,c\n1,2,\n,3,4"))
  {
    ExampleHeaders();
    ExampleRows();
    ExampleText();
  }

  /** A value owning a "toString" member, and a record hiding `hasOwnProperty`. */
  const ToStringOwner: Record := [Member("a", Object([Member("toString", Number("1"))]))]
  const CheckHider: Record := [Member(OwnPropertyCheck, Number("1"))]

  lemma ToStringOwnerThrows()
    ensures ToStringThrows(Object([Member("toString", Number("1"))]))
    ensures RecordThrows(ToStringOwner) && RowError(ToStringOwner) == PrimitiveConversionMessage
    ensures RecordThrows(CheckHider) && RowError(CheckHider) == ShadowedCheckMessage
  {
    assert KeysOf([Member("toString", Number("1"))]) == ["toString"];
    assert KeysOf(ToStringOwner) == ["a"];
    assert KeysOf(CheckHider) == [OwnPropertyCheck];
    assert CellThrows(ToStringOwner, ToStringOwner[0].key);
  }

  /**
   * `[{"a": {"toString": 1}}]` fails to convert with the TypeError of
   * `String()`; with a record hiding `hasOwnProperty` as well, the error of
   * whichever record comes first is reported.
   */
  lemma FirstThrowingRecordDecides()
    ensures Convert([ToStringOwner]) == Failure(PrimitiveConversionMessage)
    ensures Convert([ToStringOwner, CheckHider]) == Failure(PrimitiveConversionMessage)
    ensures Convert([CheckHider, ToStringOwner]) == Failure(ShadowedCheckMessage)
  {
    ToStringOwnerThrows();
    ConvertReportsFirstThrow([ToStringOwner]);
    ConvertReportsFirstThrow([ToStringOwner, CheckHider]);
    ConvertReportsFirstThrow([CheckHider, ToStringOwner]);
  }

  /** The conversion callback reports the TypeError of `String()` with its prefix and clears the CSV. */
  lemma ToStringOwnerConversionError(s: State)
    ensures var r := ConversionCallback(s, [ToStringOwner]);
      && r.error == ConvertPrefix + PrimitiveConversionMessage
      && r.csvData.None? && r.csvHeaders == []
  {
    FirstThrowingRecordDecides();
    var data := [ToStringOwner];
    assert Convert(data) == Failure(PrimitiveConversionMessage);
  }

  /**
   * An array renders by joining its items, so an item without a primitive
   * form makes it throw too; an object owning only "valueOf" still renders
   * through `Object.prototype.toString`.
   */
  lemma NestedToStringOwnerThrows()
    ensures Stringify(Array([Null, Object([Member("toString", Null)])])) == Failure(PrimitiveConversionMessage)
    ensures Stringify(Array([Null, Object([Member("valueOf", Null)])])).Success?
  {
    var owner := Object([Member("toString", Null)]);
    assert KeysOf(owner.members) == ["toString"];
    assert ToStringThrows(Array([Null, owner]).items[1]);
    var other := Object([Member("valueOf", Null)]);
    assert KeysOf(other.members) == ["valueOf"];
    assert !ToStringThrows(Array([Null, other]));
  }

  /** A carriage return alone does not make a field quoted. */
  lemma CarriageReturnIsNotQuoted()
    ensures EscapeString("a\rb") == "a\rb"
  {
  }

  /** A field with a double quote is quoted and its quote doubled. */
  lemma QuotesAreDoubled()
    ensures EscapeString("a\"b") == "\"a\"\"b\""
  {
  }

  lemma ValidationExamples()
    ensures Validate(Array([])) == Success([])
    ensures Validate(Array([Number("1"), Number("2"), Number("3")])) == Failure(ElementMessage)
    ensures Validate(Array([Object([Member("a", Number("1"))]), Number("2")])) == Failure(ElementMessage)
    ensures Validate(Object([Member("a", Number("1"))])) == Success([[Member("a", Number("1"))]])
    ensures Validate(Null) == Failure(RootMessage)
  {
    assert !IsPlainObject(Array([Number("1"), Number("2"), Number("3")]).items[0]);
    assert !IsPlainObject(Array([Object([Member("a", Number("1"))]), Number("2")]).items[1]);
  }

  /** Two empty objects give no header row and two empty rows: a single line feed. */
  lemma TwoEmptyObjects()
    ensures Convert([[], []]) == Success(Conversion([], "\n"))
  {
    HeaderlessCsv([[], []]);
    assert Repeat('\n', 1) == "\n";
  }

  /** A file named just ".json" is saved under the fallback name. */
  lemma BareExtensionName()
    ensures DownloadName(StripExtension(".json")) == FallbackName
  {
  }
}
