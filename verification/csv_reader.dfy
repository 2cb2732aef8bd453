/**
 * A reader for the CSV the converter writes: fields are split on commas and
 * records on line feeds outside double quotes, and a quoted field has its
 * outer quotes removed and each `""` collapsed to `"` (section 2 of RFC 4180,
 * with LF in place of CRLF). The reader is the partner of the escaping and
 * joining functions: reading back what they wrote gives the original values.
 */
module CsvReader {
  import opened Strings
  import opened CsvEscape
  import opened Json

  /**
   * The rest of a quoted field after its opening quote: the content up to the
   * closing quote with `""` read as `"`, and the text after the closing quote.
   * An unterminated field takes everything.
   */
  function ReadQuoted(t: string): (res: (string, string))
    ensures |res.1| <= |t|
    decreases |t|
  {
    if |t| == 0 then ("", "")
    else if t[0] == '"' then
      if 2 <= |t| && t[1] == '"' then
        var (content, rest) := ReadQuoted(t[2..]);
        ("\"" + content, rest)
      else ("", t[1..])
    else
      var (content, rest) := ReadQuoted(t[1..]);
      ([t[0]] + content, rest)
  }

  /** An unquoted field: everything up to the next comma or line feed. */
  function ReadPlain(t: string): (res: (string, string))
    ensures |res.1| <= |t|
    decreases |t|
  {
    if |t| == 0 || t[0] == ',' || t[0] == '\n' then ("", t)
    else
      var (content, rest) := ReadPlain(t[1..]);
      ([t[0]] + content, rest)
  }

  /** One field and the text after it. */
  function ReadField(t: string): (res: (string, string))
    ensures |res.1| <= |t|
  {
    if 0 < |t| && t[0] == '"' then ReadQuoted(t[1..]) else ReadPlain(t)
  }

  /** The fields of one line, and the text after its last field. */
  function ReadRow(t: string): (res: (seq<string>, string))
    ensures |res.0| >= 1 && |res.1| <= |t|
    decreases |t|
  {
    var (field, rest) := ReadField(t);
    if 0 < |rest| && rest[0] == ',' then
      var (fields, rest') := ReadRow(rest[1..]);
      ([field] + fields, rest')
    else ([field], rest)
  }

  /** Every line of a CSV text; a text always holds at least one line. */
  function ParseCsv(t: string): (rows: seq<seq<string>>)
    ensures |rows| >= 1
    decreases |t|
  {
    var (row, rest) := ReadRow(t);
    if |rest| == 0 then [row] else [row] + ParseCsv(rest[1..])
  }

  /** The escaped fields of one line, joined by commas. */
  function EscapedLine(cells: seq<string>): string {
    Join(',', seq(|cells|, j requires 0 <= j < |cells| => EscapeString(cells[j])))
  }

  /** A table written as escaped lines joined by line feeds. */
  function EscapedTable(table: seq<seq<string>>): string {
    Join('\n', seq(|table|, i requires 0 <= i < |table| => EscapedLine(table[i])))
  }

  /** Joining, line by line, the escaped rows of a table writes the table. */
  lemma JoinEscapedLines(table: seq<seq<string>>, lines: seq<string>)
    requires |lines| == |table|
    requires forall i :: 0 <= i < |table| ==> lines[i] == EscapedLine(table[i])
    ensures Join('\n', lines) == EscapedTable(table)
  {
    assert lines == seq(|table|, i requires 0 <= i < |table| => EscapedLine(table[i]));
  }

  /** A character that may follow a field: none, a field separator or a line separator. */
  predicate FieldEnd(t: string) {
    |t| == 0 || t[0] == ',' || t[0] == '\n'
  }

  lemma {:induction false} PlainReadsBack(s: string, t: string)
    requires ',' !in s && '\n' !in s && FieldEnd(t)
    ensures ReadPlain(s + t) == (s, t)
    decreases |s|
  {
    if |s| > 0 {
      assert (s + t)[1..] == s[1..] + t;
      PlainReadsBack(s[1..], t);
      assert [s[0]] + s[1..] == s;
    } else {
      assert s + t == t;
    }
  }

  lemma {:induction false} QuotedReadsBack(s: string, t: string)
    requires |t| == 0 || t[0] != '"'
    ensures ReadQuoted(DoubleQuotes(s) + "\"" + t) == (s, t)
    decreases |s|
  {
    var input := DoubleQuotes(s) + "\"" + t;
    if |s| == 0 {
      assert input == "\"" + t;
    } else {
      QuotedReadsBack(s[1..], t);
      var tail := DoubleQuotes(s[1..]) + "\"" + t;
      if s[0] == '"' {
        assert input == "\"\"" + tail;
        assert input[2..] == tail;
      } else {
        assert input == [s[0]] + tail;
        assert input[1..] == tail;
      }
      assert [s[0]] + s[1..] == s;
    }
  }

  /** An escaped field followed by a separator reads back as the original string. */
  lemma EscapedFieldReadsBack(s: string, t: string)
    requires FieldEnd(t)
    ensures ReadField(EscapeString(s) + t) == (s, t)
  {
    if NeedsQuoting(s) {
      var body := DoubleQuotes(s) + "\"" + t;
      var input := "\"" + body;
      assert EscapeString(s) + t == input;
      assert input[1..] == body;
      QuotedReadsBack(s, t);
      assert ReadField(input) == ReadQuoted(body);
    } else if |s| == 0 {
      assert EscapeString(s) + t == t;
    } else {
      assert EscapeString(s) == s;
      assert s[0] != '"';
      assert (s + t)[0] == s[0];
      PlainReadsBack(s, t);
      assert ReadField(s + t) == ReadPlain(s + t);
    }
  }

  /** The field `escapeCsvValue` writes for a value reads back as its `String()`, or as "" for null. */
  lemma EscapedValueReadsBack(v: Json)
    requires EscapeValue(v).Success?
    ensures ReadField(EscapeValue(v).value) == (if v.Null? then "" else Stringify(v).value, "")
  {
    if !v.Null? {
      var text := Stringify(v).value;
      EscapedFieldReadsBack(text, "");
      assert EscapeString(text) + "" == EscapeString(text);
    }
  }

  lemma {:induction false} EscapedLineReadsBack(cells: seq<string>, t: string)
    requires |cells| >= 1
    requires |t| == 0 || t[0] == '\n'
    ensures ReadRow(EscapedLine(cells) + t) == (cells, t)
    decreases |cells|
  {
    var escaped := seq(|cells|, j requires 0 <= j < |cells| => EscapeString(cells[j]));
    if |cells| == 1 {
      assert EscapedLine(cells) == EscapeString(cells[0]);
      EscapedFieldReadsBack(cells[0], t);
      assert cells == [cells[0]];
    } else {
      var tail := EscapedLine(cells[1..]);
      assert escaped[1..] == seq(|cells[1..]|, j requires 0 <= j < |cells[1..]| => EscapeString(cells[1..][j]));
      assert EscapedLine(cells) == EscapeString(cells[0]) + [','] + tail;
      assert EscapedLine(cells) + t == EscapeString(cells[0]) + ([','] + tail + t);
      EscapedFieldReadsBack(cells[0], [','] + tail + t);
      assert ([','] + tail + t)[1..] == tail + t;
      EscapedLineReadsBack(cells[1..], t);
      assert [cells[0]] + cells[1..] == cells;
    }
  }

  /** Reading an escaped table gives the table back, provided no line is empty of fields. */
  lemma {:induction false} EscapedTableReadsBack(table: seq<seq<string>>)
    requires |table| >= 1
    requires forall i :: 0 <= i < |table| ==> |table[i]| >= 1
    ensures ParseCsv(EscapedTable(table)) == table
    decreases |table|
  {
    var lines := seq(|table|, i requires 0 <= i < |table| => EscapedLine(table[i]));
    if |table| == 1 {
      assert EscapedTable(table) == EscapedLine(table[0]) + "";
      EscapedLineReadsBack(table[0], "");
    } else {
      var tail := EscapedTable(table[1..]);
      assert lines[1..] == seq(|table[1..]|, i requires 0 <= i < |table[1..]| => EscapedLine(table[1..][i]));
      assert EscapedTable(table) == EscapedLine(table[0]) + (['\n'] + tail);
      EscapedLineReadsBack(table[0], ['\n'] + tail);
      assert (['\n'] + tail)[1..] == tail;
      EscapedTableReadsBack(table[1..]);
      assert [table[0]] + table[1..] == table;
    }
  }
}
