/**
 * Decoded JSON / YAML values as the generator's Python code sees them, with
 * the three Python behaviours the code depends on: truthiness, numeric
 * comparison (where `bool` counts as 0 or 1) and the `int()` conversion.
 */
module Json {
  import opened Optional
  import PyText

  /** `JNum` covers both Python `int` and `float`; `JNull` is `None`. */
  datatype Value =
    | JNull
    | JBool(b: bool)
    | JNum(n: real)
    | JStr(s: string)
    | JList(items: seq<Value>)
    | JObj(fields: map<string, Value>)

  const EmptyObject: Value := JObj(map[])

  /** Python's `bool(v)`. */
  predicate Truthy(v: Value) {
    match v
    case JNull => false
    case JBool(b) => b
    case JNum(n) => n != 0.0
    case JStr(s) => s != []
    case JList(items) => items != []
    case JObj(fields) => fields != map[]
  }

  /** `d.get(key)` on a dict: `None` when the key is absent. */
  function Get(v: Value, key: string): (r: Option<Value>)
    requires v.JObj?
    ensures r.Some? <==> key in v.fields
    ensures r.Some? ==> r.value == v.fields[key]
  {
    if key in v.fields then Some(v.fields[key]) else None
  }

  /** `d.get(key) is not None`: the key is there and its value is not `null`. */
  predicate HasNonNull(v: Value, key: string)
    requires v.JObj?
  {
    key in v.fields && v.fields[key] != JNull
  }

  /** The number Python compares with `<=` and `>`; `None` where that raises `TypeError`. */
  function Numeric(v: Value): (r: Option<real>)
    ensures r.Some? <==> v.JNum? || v.JBool?
    ensures v.JNum? ==> r == Some(v.n)
  {
    match v
    case JBool(b) => Some(if b then 1.0 else 0.0)
    case JNum(n) => Some(n)
    case _ => None
  }

  /** `int(x)` on a float: truncation toward zero. */
  function Trunc(x: real): (r: int)
    ensures x >= 0.0 ==> r as real <= x < r as real + 1.0
    ensures x < 0.0 ==> r as real - 1.0 < x <= r as real
  {
    if x >= 0.0 then x.Floor else -((-x).Floor)
  }

  /** `int(v)`: `None` where Python raises `TypeError` or `ValueError`; strings
      are read as `PyText.ParseInt` reads them. */
  function PyInt(v: Value): Option<int> {
    match v
    case JBool(b) => Some(if b then 1 else 0)
    case JNum(n) => Some(Trunc(n))
    case JStr(s) => PyText.ParseInt(s)
    case _ => None
  }

  lemma PyIntOfWhole(k: int)
    ensures PyInt(JNum(k as real)) == Some(k)
  {
  }

  lemma PyIntOfDecimal(k: int)
    ensures PyInt(JStr(PyText.ShowInt(k))) == Some(k)
  {
    PyText.ParseShowInt(k);
  }
}
