/**
  Already-decoded JSON, as the exchange's JSON response serializer hands it
  to the response closures, and the two casts the adapter applies to it:
  `as? [String: Any]` and `as? Double`.
*/
module JsonValues {
  import opened Wrappers

  /** A Swift `Double`, carried through opaquely as its 64 IEEE-754 bits. */
  datatype Double = Double(bits: bv64)

  datatype Json =
    | Null
    | Bool(b: bool)
    | Number(n: Double)
    | Text(s: string)
    | Array(items: seq<Json>)
    | Object(members: map<string, Json>)

  /** `j as? [String: Any]`: succeeds exactly on JSON objects. */
  function AsObject(j: Json): (r: Option<map<string, Json>>)
    ensures r.Some? <==> j.Object?
    ensures r.Some? ==> r.value == j.members
  {
    match j
    case Object(members) => Some(members)
    case _ => None
  }

  /**
    `j as? Double`, as this model reads it: succeeds exactly on JSON numbers.
    Swift also accepts a JSON boolean here (bridged through `NSNumber`),
    which the model does not.
  */
  function AsDouble(j: Json): (r: Option<Double>)
    ensures r.Some? <==> j.Number?
    ensures r.Some? ==> r.value == j.n
  {
    match j
    case Number(n) => Some(n)
    case _ => None
  }

  /** `object[key] as? [String: Any]`, on an already cast object. */
  function MemberObject(members: map<string, Json>, key: string): (r: Option<map<string, Json>>)
    ensures r.Some? <==> key in members && members[key].Object?
    ensures r.Some? ==> r.value == members[key].members
  {
    if key in members then AsObject(members[key]) else None
  }

  /** `object[key] as? Double`, on an already cast object. */
  function MemberDouble(members: map<string, Json>, key: string): (r: Option<Double>)
    ensures r.Some? <==> key in members && members[key].Number?
    ensures r.Some? ==> r.value == members[key].n
  {
    if key in members then AsDouble(members[key]) else None
  }
}
