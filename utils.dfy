/**
  `validate_required_fields`: a request fails when a listed field is
  absent or holds a falsy value; the error names every such field, in
  the order the fields were listed.
*/
module Utils {
  import opened Wrappers
  import opened Slots

  /** A request value, with Python's truthiness. */
  datatype Value = Null | Flag(b: bool) | Number(n: int) | Text(s: string) | Date(d: Day)

  predicate Truthy(v: Value)
  {
    match v
    case Null => false
    case Flag(b) => b
    case Number(n) => n != 0
    case Text(s) => s != ""
    case Date(_) => true
  }

  /** The field counts as missing: no key, or a falsy value under it. */
  predicate IsMissing(data: map<string, Value>, field: string)
  {
    field !in data || !Truthy(data[field])
  }

  /** The missing fields, in the order they were listed. */
  function MissingFields(data: map<string, Value>, fields: seq<string>): (missing: seq<string>)
  {
    if |fields| == 0 then []
    else (if IsMissing(data, fields[0]) then [fields[0]] else []) + MissingFields(data, fields[1..])
  }

  /** A field is reported iff it was listed and is missing; no more names than fields. */
  lemma {:induction false} MissingFieldsAreTheMissingOnes(data: map<string, Value>, fields: seq<string>)
    ensures forall f :: f in MissingFields(data, fields) <==> f in fields && IsMissing(data, f)
    ensures |MissingFields(data, fields)| <= |fields|
  {
    if |fields| > 0 {
      MissingFieldsAreTheMissingOnes(data, fields[1..]);
      assert fields == [fields[0]] + fields[1..];
    }
  }

  /** Listing fields one after another lists their missing fields one after another. */
  lemma {:induction false} MissingFieldsKeepsOrder(data: map<string, Value>, a: seq<string>, b: seq<string>)
    ensures MissingFields(data, a + b) == MissingFields(data, a) + MissingFields(data, b)
  {
    if |a| == 0 {
      assert a + b == b;
    } else {
      var head := if IsMissing(data, a[0]) then [a[0]] else [];
      assert (a + b)[0] == a[0] && (a + b)[1..] == a[1..] + b;
      assert MissingFields(data, a + b) == head + MissingFields(data, a[1..] + b);
      assert MissingFields(data, a) == head + MissingFields(data, a[1..]);
      MissingFieldsKeepsOrder(data, a[1..], b);
    }
  }

  /** `', '.join(names)`. */
  function Join(names: seq<string>, sep: string): (joined: string)
  {
    if |names| == 0 then ""
    else if |names| == 1 then names[0]
    else names[0] + sep + Join(names[1..], sep)
  }

  const MissingPrefix: string := "Missing required field(s): "

  /** The `ValueError` message. */
  function MissingMessage(missing: seq<string>): (msg: string)
    ensures |msg| >= |MissingPrefix| && msg[..|MissingPrefix|] == MissingPrefix
  {
    MissingPrefix + Join(missing, ", ")
  }

  /**
    Raise with the message naming the missing fields when there are any;
    otherwise pass. The request itself is a value and is left as it was.
  */
  function ValidateRequiredFields(data: map<string, Value>, fields: seq<string>): (r: Result<(), string>)
    ensures r.Failure? <==> exists k :: 0 <= k < |fields| && IsMissing(data, fields[k])
    ensures r.Failure? ==> r.error == MissingMessage(MissingFields(data, fields))
  {
    var missing := MissingFields(data, fields);
    MissingFieldsAreTheMissingOnes(data, fields);
    if |missing| > 0 then
      assert missing[0] in missing && missing[0] in fields;
      Failure(MissingMessage(missing))
    else
      assert forall k :: 0 <= k < |fields| ==> fields[k] !in missing;
      Success(())
  }

  /** Nothing listed, or everything listed present and truthy: never raises. */
  lemma NothingMissingPasses(data: map<string, Value>, fields: seq<string>)
    ensures |fields| == 0 ==> ValidateRequiredFields(data, fields).Success?
    ensures (forall k :: 0 <= k < |fields| ==> fields[k] in data && Truthy(data[fields[k]]))
            ==> ValidateRequiredFields(data, fields).Success?
  {
  }

  /** A present key holding an empty string still fails, naming that field. */
  lemma EmptyValueIsMissing(data: map<string, Value>, field: string)
    requires field in data && data[field] == Text("")
    ensures ValidateRequiredFields(data, [field]) == Failure(MissingPrefix + field)
  {
    assert MissingFields(data, [field][1..]) == [];
  }
}
