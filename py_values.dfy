/** Python run-time values, as far as the k-means validators look at them.
    The validators in clustering.py test `type(...)`, `len(...)` and list
    indexing; this module gives those operations a meaning on a small
    universe of values, including the exceptions they raise. */
module PyValues {

  /** A Python value. `Bool` is separate from `Int` because `type(True)` is
      `bool`, not `int`, while `True` still works as a list index. `Sized`
      is any other value with a `len` (a tuple, dict, set, bytes, range):
      the validators only ask for its type, which is never `list`, and its
      length. `Other` is a value with no `len` that is not a list index
      (a function, a plain `object()`). */
  datatype Value =
    | None
    | Bool(b: bool)
    | Int(i: int)
    | Float(f: real)
    | Str(s: string)
    | List(items: seq<Value>)
    | Sized(size: nat)
    | Other

  /** The exceptions the modelled code can raise. */
  datatype PyError = TypeError | IndexError

  /** The outcome of a Python call: a returned value or a raised exception. */
  datatype Outcome<T> = Return(value: T) | Raise(error: PyError)

  /** `type(v) in [int, float]`. */
  predicate IsNumber(v: Value) {
    v.Int? || v.Float?
  }

  /** The numeric value of an int or float. */
  function ToReal(v: Value): real
    requires IsNumber(v)
  {
    if v.Int? then v.i as real else v.f
  }

  /** `len(v)` is defined for strings, lists and the other sized values;
      on a number, a bool, `None` or an `Other` value Python raises a
      TypeError. */
  predicate HasLen(v: Value) {
    v.Str? || v.List? || v.Sized?
  }

  function Len(v: Value): (n: nat)
    requires HasLen(v)
  {
    if v.Str? then |v.s| else if v.List? then |v.items| else v.size
  }

  /** A value Python accepts as a list index: an int or a bool. */
  predicate IsIndex(v: Value) {
    v.Int? || v.Bool?
  }

  function IndexValue(v: Value): int
    requires IsIndex(v)
  {
    if v.Int? then v.i else if v.b then 1 else 0
  }

  /** `xs[x]` for a list of length `n`: negative indices count from the end;
      the index must lie in `[-n, n)`, or Python raises an IndexError. */
  predicate InRange(n: nat, x: int) {
    -(n as int) <= x < n
  }

  function Position(n: nat, x: int): (p: nat)
    requires InRange(n, x)
    ensures p < n
    ensures x >= 0 ==> p == x
    ensures x < 0 ==> p == n + x
  {
    if x < 0 then n + x else x
  }
}
