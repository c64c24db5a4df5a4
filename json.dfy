/** The JSON values that pass between the browser, the quiz route and the
    language-model service, with the few JavaScript operations the quiz app
    applies to them: truthiness, property reads, `x || fallback` and the
    object spread `{...v}`. */
module JsonValues {
  import opened Wrappers
  import opened Text

  /** A value as `JSON.parse` returns it. */
  datatype Json =
    | JNull
    | JBool(b: bool)
    | JNum(n: real)
    | JStr(s: string)
    | JArr(items: seq<Json>)
    | JObj(fields: map<string, Json>)

  /** JavaScript truthiness; `undefined` is represented by `None` and is falsy too. */
  predicate Truthy(v: Json) {
    match v
    case JNull => false
    case JBool(b) => b
    case JNum(n) => n != 0.0
    case JStr(s) => s != ""
    case JArr(_) => true
    case JObj(_) => true
  }

  /** `v.key`, for the property names the quiz app reads ("text", "types",
      "mode", "topics", "questions"), none of which strings, arrays, numbers or
      booleans carry, nor `Object.prototype`. Reading a property of `null`
      throws, so callers test for `JNull` first. */
  function Member(v: Json, key: string): (r: Option<Json>)
    requires v != JNull
    ensures r.Some? <==> v.JObj? && key in v.fields
    ensures r.Some? ==> r.value == v.fields[key]
  {
    match v
    case JObj(m) => if key in m then Some(m[key]) else None
    case _ => None
  }

  /** `x || fallback`: `x` when it is defined and truthy, `fallback` otherwise. */
  function OrElse(x: Option<Json>, fallback: Json): (r: Json)
    ensures r == fallback || (x.Some? && r == x.value && Truthy(r))
    ensures x.Some? && Truthy(x.value) ==> r == x.value
  {
    if x.Some? && Truthy(x.value) then x.value else fallback
  }

  /** The own enumerable properties that `{...v}` copies: an object's fields,
      the indices "0", "1", ... of an array or of a string's characters, and
      nothing for null, booleans and numbers. */
  function Spread(v: Json): (r: map<string, Json>)
    ensures v.JObj? ==> r == v.fields
  {
    match v
    case JObj(m) => m
    case JArr(xs) => IndexedFields(xs)
    case JStr(s) => IndexedFields(seq(|s|, i requires 0 <= i < |s| => JStr([s[i]])))
    case _ => map[]
  }

  /** The map from "0", "1", ... to the elements of `xs`. */
  function IndexedFields(xs: seq<Json>): (r: map<string, Json>)
    ensures forall i :: 0 <= i < |xs| ==> NatToString(i) in r && r[NatToString(i)] == xs[i]
    ensures forall k :: k in r ==> exists i :: 0 <= i < |xs| && k == NatToString(i)
  {
    NatToStringIsInjective();
    map i | 0 <= i < |xs| :: NatToString(i) := xs[i]
  }

  lemma NatToStringIsInjective()
    ensures forall m: nat, n: nat :: NatToString(m) == NatToString(n) ==> m == n
  {
    forall m: nat, n: nat | NatToString(m) == NatToString(n) ensures m == n {
      NatToStringInjective(m, n);
    }
  }
}
