/** Decoded JSON values as the client holds them after `response.json()`,
    and the pieces of Python's dynamic semantics the client applies to them
    without checking their shape first: truthiness, `in`, indexing,
    `dict.get`, `str.lower` and `for` loops. Every built-in exception one of
    these raises on a value of the wrong shape is a `Fault`. */
module Json {
  import opened Wrappers
  import Text

  datatype Json =
    | JNull
    | JBool(b: bool)
    | JNumber(n: real)
    | JString(s: string)
    | JArray(items: seq<Json>)
    | JObject(fields: map<string, Json>)

  /** The exceptions the client can run into on a value of the wrong shape:
      Python's built-in `TypeError`, `AttributeError` and `KeyError`, and
      `RecordValidationError` for pydantic's `ValidationError`, which building
      a record from a dict that lacks a required field raises. */
  datatype Fault = TypeError | AttributeError | KeyError | RecordValidationError

  const EmptyObject: Json := JObject(map[])

  /** `bool(j)`: null, false, zero and empty containers are false. */
  predicate Truthy(j: Json) {
    match j
    case JNull => false
    case JBool(b) => b
    case JNumber(n) => n != 0.0
    case JString(s) => s != ""
    case JArray(items) => items != []
    case JObject(fields) => fields != map[]
  }

  predicate OccursAt(s: string, part: string, i: nat) {
    i + |part| <= |s| && s[i..i + |part|] == part
  }

  /** `part in s` for two str values. */
  predicate IsSubstring(part: string, s: string) {
    exists i: nat | i <= |s| :: OccursAt(s, part, i)
  }

  /** `key in j`: a key test on a dict, an element test on a list, a
      substring test on a str, and a TypeError on anything else. */
  function Contains(j: Json, key: string): (r: Result<bool, Fault>)
    ensures r.Success? <==> j.JObject? || j.JArray? || j.JString?
    ensures j.JObject? ==> r == Success(key in j.fields)
    ensures j.JArray? ==> r == Success(JString(key) in j.items)
    ensures j.JString? ==> r == Success(exists i: nat | i <= |j.s| :: OccursAt(j.s, key, i))
    ensures r.Failure? ==> r.error == TypeError
  {
    match j
    case JObject(fields) => Success(key in fields)
    case JArray(items) => Success(JString(key) in items)
    case JString(s) => Success(IsSubstring(key, s))
    case _ => Failure(TypeError)
  }

  /** `j[key]`: KeyError for a missing key of a dict; a list, a str, a number,
      a bool or None cannot be indexed by a str and raise TypeError. */
  function GetItem(j: Json, key: string): (r: Result<Json, Fault>)
    ensures r.Success? <==> j.JObject? && key in j.fields
    ensures r.Success? ==> r.value == j.fields[key]
  {
    match j
    case JObject(fields) => if key in fields then Success(fields[key]) else Failure(KeyError)
    case _ => Failure(TypeError)
  }

  /** `j.get(key, default)`: only a dict has `get`. */
  function Get(j: Json, key: string, default: Json): (r: Result<Json, Fault>)
    ensures r.Success? <==> j.JObject?
    ensures r.Success? ==> r.value == if key in j.fields then j.fields[key] else default
  {
    match j
    case JObject(fields) => Success(if key in fields then fields[key] else default)
    case _ => Failure(AttributeError)
  }

  /** `j.lower()`: only a str has `lower`. */
  function LowerString(j: Json): (r: Result<string, Fault>)
    ensures r.Success? <==> j.JString?
    ensures r.Success? ==> r.value == Text.Lower(j.s)
  {
    match j
    case JString(s) => Success(Text.Lower(s))
    case _ => Failure(AttributeError)
  }

  /** The elements a `for` loop over `j` hands to a body that raises
      `strFault` on any str element. A list gives its items. A dict gives
      its keys and a str its characters, all of them str values, so an
      empty one gives nothing and a non-empty one stops the loop at the
      first element with `strFault`. Anything else is not iterable. */
  function LoopElements(j: Json, strFault: Fault): (r: Result<seq<Json>, Fault>)
    ensures j.JArray? ==> r == Success(j.items)
    ensures r.Success? ==> j.JArray? || j == JString("") || j == EmptyObject
  {
    match j
    case JArray(items) => Success(items)
    case JObject(fields) => if fields == map[] then Success([]) else Failure(strFault)
    case JString(s) => if s == "" then Success([]) else Failure(strFault)
    case _ => Failure(TypeError)
  }
}
