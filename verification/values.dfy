/** Values the cache stores and the few Python conventions the engine relies on. */
module Values {

  /** Absence (Python's `None` for an optional result). */
  datatype Option<T> = None | Some(value: T)

  /** An opaque, JSON-shaped Python value. `Null` is Python's `None`, which the
      origin and `get` also use to mean "no value". */
  datatype Value =
    | Null
    | Bool(b: bool)
    | Num(n: real)
    | Str(s: string)
    | Arr(items: seq<Value>)
    | Obj(fields: map<string, Value>)

  /** The hex digest `compute_hash` returns. */
  type Fingerprint = string

  /** `compute_hash`: a deterministic function of the value and nothing else.
      It is left uninterpreted by taking it as a parameter wherever it is used. */
  type Hasher = Value -> Fingerprint

  /** Python truthiness of an optional float: `None` and `0` are false. */
  predicate Truthy(t: Option<real>)
  {
    t.Some? && t.value != 0.0
  }

  /** Python's `a or b` on optional floats. */
  function Or(a: Option<real>, b: Option<real>): Option<real>
  {
    if Truthy(a) then a else b
  }

  function Max(a: real, b: real): real
  {
    if a >= b then a else b
  }
}
