/**
 * The value `JSON.parse` hands back, as far as the converter looks at it
 * (RFC 8259 value kinds), and JavaScript's `String(v)` of such a value.
 */
module Json {
  import opened Wrappers
  import opened Strings

  datatype Json =
    | Null
    | Bool(b: bool)
      /** A number, carried as the text JavaScript's `String()` renders it to. */
    | Number(text: string)
    | Str(s: string)
    | Array(items: seq<Json>)
      /** An object's members in source order; a key may repeat, as in the JSON text. */
    | Object(members: seq<Member>)

  datatype Member = Member(key: string, value: Json)

  /** A record is the member list of one JSON object. */
  type Record = seq<Member>

  /** The keys of a record's members, in order (repeats included). */
  function KeysOf(r: Record): seq<string> {
    seq(|r|, i requires 0 <= i < |r| => r[i].key)
  }

  /** `r.hasOwnProperty(k)` */
  predicate HasKey(r: Record, k: string) {
    k in KeysOf(r)
  }

  /**
   * `r[k]`: as `JSON.parse` keeps the last of several members with the same
   * key, the value is that of the last member named `k`.
   */
  function Lookup(r: Record, k: string): (v: Json)
    requires HasKey(r, k)
    ensures exists i :: 0 <= i < |r| && r[i] == Member(k, v) && forall j :: i < j < |r| ==> r[j].key != k
    decreases |r|
  {
    var last := r[|r| - 1];
    if last.key == k then last.value
    else
      assert HasKey(r[..|r| - 1], k) by {
        var i :| 0 <= i < |r| && KeysOf(r)[i] == k;
        assert KeysOf(r[..|r| - 1])[i] == k;
      }
      var v := Lookup(r[..|r| - 1], k);
      assert forall i :: 0 <= i < |r| - 1 ==> r[..|r| - 1][i] == r[i];
      v
  }

  /** The message of the TypeError `String(v)` throws for a value without a primitive form (V8's wording). */
  const PrimitiveConversionMessage := "Cannot convert object to primitive value"

  /**
   * Whether `String(v)` throws. An object that owns a "toString" member hides
   * `Object.prototype.toString` behind a value that cannot be called, and its
   * `valueOf` returns the object itself, so no primitive is found. An array
   * joins its items and throws when one of its non-null items does.
   */
  predicate ToStringThrows(v: Json)
    decreases v
  {
    match v
    case Object(members) => HasKey(members, "toString")
    case Array(items) => exists i :: 0 <= i < |items| && !items[i].Null? && ToStringThrows(items[i])
    case _ => false
  }

  /**
   * `String(v)`: its text, or the TypeError it throws. Arrays render as
   * `items.join(",")`, where a null item becomes the empty string; an
   * object renders as "[object Object]" through `Object.prototype.toString`.
   */
  function Stringify(v: Json): (r: Result<string, string>)
    ensures r.Failure? <==> ToStringThrows(v)
    ensures r.Failure? ==> r.error == PrimitiveConversionMessage
    decreases v
  {
    match v
    case Null => Success("null")
    case Bool(b) => Success(if b then "true" else "false")
    case Number(t) => Success(t)
    case Str(s) => Success(s)
    case Array(items) =>
      var parts := seq(|items|, i requires 0 <= i < |items| =>
        if items[i].Null? then Success("") else Stringify(items[i]));
      assert forall i :: 0 <= i < |items| ==> (parts[i].Failure? <==> !items[i].Null? && ToStringThrows(items[i]));
      if exists i :: 0 <= i < |parts| && parts[i].Failure? then Failure(PrimitiveConversionMessage)
      else Success(Join(',', seq(|parts|, i requires 0 <= i < |parts| => parts[i].value)))
    case Object(members) =>
      if HasKey(members, "toString") then Failure(PrimitiveConversionMessage) else Success("[object Object]")
  }
}
