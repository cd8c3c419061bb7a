/**
 * Parsed JSON values, as the converters receive them from `JSON.parse` and hand
 * them to `JSON.stringify`. Numbers are opaque: a number is known only by the
 * text `String(n)` renders it as.
 */
module JsonValue {
  import opened Wrappers
  import opened Text
  import opened Seqs

  /** A JavaScript number, known by its `String(n)` rendering. */
  datatype Number = Number(text: string)

  /** An object's fields are listed in `Object.keys` order. Nothing here forces
   * a key to be listed once; `JSON.parse` lists each key once (see
   * `WellKeyed`), and `Lookup` takes the first listing. */
  datatype Json =
    | JNull
    | JBool(b: bool)
    | JNumber(n: Number)
    | JString(s: string)
    | JArray(elems: seq<Json>)
    | JObject(fields: seq<(string, Json)>)

  /** What `JSON.parse` gives for a text: a value, or the message of the
   * `SyntaxError` it throws. */
  datatype Parsed = Parsed(value: Json) | SyntaxError(message: string)

  /** `typeof v === 'object' && v !== null`: arrays count as objects. */
  predicate IsObjectLike(v: Json)
  {
    v.JArray? || v.JObject?
  }

  /** The own enumerable properties, in `Object.keys` order: an object's fields as
   * listed, an array's elements under their decimal indices. */
  function Members(v: Json): (ms: seq<(string, Json)>)
    ensures v.JObject? ==> ms == v.fields
    ensures v.JArray? ==> |ms| == |v.elems|
    ensures v.JArray? ==> forall i :: 0 <= i < |ms| ==> ms[i] == (NatToString(i), v.elems[i])
    ensures !IsObjectLike(v) ==> ms == []
  {
    match v
    case JObject(fields) => fields
    case JArray(elems) => seq(|elems|, i requires 0 <= i < |elems| => (NatToString(i), elems[i]))
    case _ => []
  }

  /** `Object.keys(v)`. */
  function Keys(v: Json): (ks: seq<string>)
    ensures |ks| == |Members(v)|
    ensures forall i :: 0 <= i < |ks| ==> ks[i] == Members(v)[i].0
  {
    seq(|Members(v)|, i requires 0 <= i < |Members(v)| => Members(v)[i].0)
  }

  /** `v[key]` for an own property; `None` stands for `undefined`. */
  function Lookup(v: Json, key: string): (r: Option<Json>)
    ensures r.Some? <==> key in Keys(v)
    ensures r.Some? ==> (key, r.value) in Members(v)
  {
    if key in Keys(v) then Some(Members(v)[FirstIndex(Keys(v), key)].1) else None
  }

  /** No key listed twice, as in every object `JSON.parse` builds (a repeated
   * key in the text keeps its first place and its last value). Arrays always
   * qualify, since their keys are distinct indices. */
  predicate WellKeyed(v: Json)
  {
    Distinct(Keys(v))
  }

  lemma ArraysWellKeyed(v: Json)
    requires v.JArray?
    ensures WellKeyed(v)
  {
    forall i, j | 0 <= i < j < |Keys(v)|
      ensures Keys(v)[i] != Keys(v)[j]
    {
      NatToStringInjective(i, j);
    }
  }

  /** Where no key is listed twice, a lookup finds the one value listed under
   * the key, so taking the first listing loses nothing. */
  lemma LookupUnique(v: Json, key: string, x: Json)
    requires WellKeyed(v) && (key, x) in Members(v)
    ensures Lookup(v, key) == Some(x)
  {
    var i :| 0 <= i < |Members(v)| && Members(v)[i] == (key, x);
    assert Keys(v)[i] == key;
    var k := FirstIndex(Keys(v), key);
    assert k == i;
  }

  /** `String(v)` for a value that is not an object or an array. */
  function ScalarText(v: Json): string
    requires !IsObjectLike(v)
  {
    match v
    case JNull => "null"
    case JBool(b) => if b then "true" else "false"
    case JNumber(n) => n.text
    case JString(s) => s
  }
}
