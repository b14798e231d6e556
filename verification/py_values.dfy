/** The Python runtime notions the tools lean on: the exceptions they can
    raise, decoded JSON values, indexing and `in` on those values, and
    list slicing. */
module PyValues {
  import opened Wrappers
  import Strings

  /** The exception classes that can escape the modelled code. */
  datatype Exception =
    | KeyError             // a missing dictionary key
    | TypeError            // an operation applied to a value of the wrong type
    | AttributeError       // a string method called on a list or dictionary
    | ValueError           // an explicit `raise ValueError(...)`
    | NotImplementedError  // an unsupported search engine
    | ZeroDivisionError    // division by a zero budget

  /** A value as `json.loads` returns it: `null`, a boolean, a number, a
      string, a list or a dictionary with string keys. */
  datatype JsonValue =
    | JNull
    | JBool(b: bool)
    | JNumber(n: real)
    | JString(s: string)
    | JArray(items: seq<JsonValue>)
    | JObject(fields: map<string, JsonValue>)

  /** Python's `v[key]` with a string key: a dictionary lookup that raises
      `KeyError` for a missing key; every other value raises `TypeError`. */
  function Index(v: JsonValue, key: string): Result<JsonValue, Exception> {
    match v
    case JObject(m) => if key in m then Success(m[key]) else Failure(KeyError)
    case _ => Failure(TypeError)
  }

  /** Python's `needle in v` with a string `needle`: a substring test on a
      string, an element test on a list, a key test on a dictionary; numbers,
      booleans and `None` are not iterable and raise `TypeError`. */
  function In(needle: string, v: JsonValue): Result<bool, Exception> {
    match v
    case JString(s) => Success(Strings.Contains(s, needle))
    case JArray(items) => Success(JString(needle) in items)
    case JObject(m) => Success(needle in m)
    case _ => Failure(TypeError)
  }

  function Min(a: int, b: int): int {
    if a <= b then a else b
  }

  function Max(a: int, b: int): int {
    if a >= b then a else b
  }

  /** Python's `xs[:k]`: a negative `k` counts from the end. */
  function Take<T>(xs: seq<T>, k: int): (r: seq<T>)
    ensures r <= xs
    ensures k >= 0 ==> |r| == Min(k, |xs|)
    ensures k < 0 ==> |r| == Max(0, |xs| + k)
  {
    if k >= 0 then xs[..Min(k, |xs|)] else xs[..Max(0, |xs| + k)]
  }
}
