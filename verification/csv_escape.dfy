/**
 * `escapeCsvValue` (src/ConverterApp.js:136-150): the field-quoting rule of
 * section 2 of RFC 4180 (rules 6 and 7), except that only a comma, a double
 * quote or a line feed triggers quoting; a carriage return does not.
 */
module CsvEscape {
  import opened Wrappers
  import opened Json

  /** The characters whose presence makes a field quoted. */
  predicate NeedsQuoting(s: string) {
    ',' in s || '"' in s || '\n' in s
  }

  /** `s.replace(/"/g, '""')` */
  function DoubleQuotes(s: string): string
    decreases |s|
  {
    if |s| == 0 then ""
    else (if s[0] == '"' then "\"\"" else [s[0]]) + DoubleQuotes(s[1..])
  }

  /** The string half of `escapeCsvValue`: quote it if it needs quoting, else leave it alone. */
  function EscapeString(s: string): (r: string)
    ensures !NeedsQuoting(s) ==> r == s
    ensures NeedsQuoting(s) ==> 2 <= |r| && r[0] == '"' && r[|r| - 1] == '"'
  {
    if NeedsQuoting(s) then "\"" + DoubleQuotes(s) + "\"" else s
  }

  /**
   * `escapeCsvValue(value)`: null gives the empty field; anything else is
   * its escaped `String(value)`, or the TypeError `String` throws.
   */
  function EscapeValue(v: Json): (r: Result<string, string>)
    ensures v.Null? ==> r == Success("")
    ensures r.Failure? <==> !v.Null? && ToStringThrows(v)
    ensures r.Failure? ==> r.error == PrimitiveConversionMessage
    ensures r.Success? && !v.Null? && !NeedsQuoting(Stringify(v).value) ==> r.value == Stringify(v).value
  {
    if v.Null? then Success("")
    else match Stringify(v)
      case Failure(e) => Failure(e)
      case Success(text) => Success(EscapeString(text))
  }
}
