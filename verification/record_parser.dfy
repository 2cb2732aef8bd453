/**
 * The shape check `reader.onload` applies to the decoded file content
 * (src/ConverterApp.js:54-77): the root must be an object or an array, an
 * object is wrapped as a one-element list, and an array may hold objects only.
 */
module RecordParser {
  import opened Wrappers
  import opened Json

  const RootMessage := "Invalid JSON format: Root must be an object or array."
  const ElementMessage := "Invalid JSON format: If root is an array, it must contain only objects."

  /**
   * What `JSON.parse(content)` produced: a syntax error with its message, or
   * a decoded value. The syntax check itself is not part of this model.
   */
  datatype ParseInput = SyntaxError(message: string) | Decoded(root: Json)

  /** `typeof item === "object" && item !== null && !Array.isArray(item)` */
  predicate IsPlainObject(v: Json) {
    v.Object?
  }

  /** A JSON array holding one object per record, in order. */
  function ToJsonArray(records: seq<Record>): (v: Json)
    ensures v.Array? && |v.items| == |records|
    ensures forall i :: 0 <= i < |records| ==> v.items[i] == Object(records[i])
  {
    Array(seq(|records|, i requires 0 <= i < |records| => Object(records[i])))
  }

  /** The validation between `JSON.parse` and `setJsonData`. */
  function Validate(root: Json): (r: Result<seq<Record>, string>)
    ensures r.Success? <==>
      root.Object? || (root.Array? && forall i :: 0 <= i < |root.items| ==> IsPlainObject(root.items[i]))
    ensures r.Failure? ==> r.error == if root.Array? then ElementMessage else RootMessage
    ensures root.Object? ==> r == Success([root.members])
    ensures r.Success? && root.Array? ==> root == ToJsonArray(r.value)
  {
    if !root.Object? && !root.Array? then Failure(RootMessage)
    else
      var data := if root.Array? then root.items else [root];
      if |data| > 0 && !(forall i :: 0 <= i < |data| ==> IsPlainObject(data[i])) then Failure(ElementMessage)
      else
        var records := seq(|data|, i requires 0 <= i < |data| && IsPlainObject(data[i]) => data[i].members);
        assert root.Object? ==> records == [root.members];
        Success(records)
  }

  /**
   * The whole `try` block. It gives records exactly for decoded content whose
   * root is an object or an array of plain objects; otherwise it reports the
   * syntax error's own message, or the shape message for an array or for any
   * other root.
   */
  function ParseContent(input: ParseInput): (r: Result<seq<Record>, string>)
    ensures r.Success? <==>
      && input.Decoded?
      && (input.root.Object? || (input.root.Array? && forall i :: 0 <= i < |input.root.items| ==> IsPlainObject(input.root.items[i])))
    ensures r.Failure? ==>
      r.error == if input.SyntaxError? then input.message else if input.root.Array? then ElementMessage else RootMessage
    ensures r.Success? ==>
      if input.root.Object? then r.value == [input.root.members] else input.root == ToJsonArray(r.value)
  {
    match input
    case SyntaxError(m) => Failure(m)
    case Decoded(root) => Validate(root)
  }

  /** Writing records as a JSON array and validating it gives them back; the empty array included. */
  lemma ArrayOfRecordsValidates(records: seq<Record>)
    ensures Validate(ToJsonArray(records)) == Success(records)
  {
    var r := Validate(ToJsonArray(records));
    assert r.Success?;
    assert |r.value| == |records|;
    forall i | 0 <= i < |records|
      ensures r.value[i] == records[i]
    {
      assert Object(r.value[i]) == ToJsonArray(r.value).items[i] == ToJsonArray(records).items[i];
    }
    assert r.value == records;
  }

  /** Validation succeeds only on an array of those very records or on a single object. */
  lemma ValidatedRootIsRecords(root: Json)
    requires Validate(root).Success?
    ensures root == ToJsonArray(Validate(root).value)
         || (|Validate(root).value| == 1 && root == Object(Validate(root).value[0]))
  {
  }
}
