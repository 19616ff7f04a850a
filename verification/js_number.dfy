/** The slice of JavaScript number semantics that the listener-count table
    relies on. A stored count is an integer or NaN; a lookup in a `Map`
    yields a count or `undefined`, which is `None` here. */
module JsNumber {

  /** A JavaScript number as the count table can hold it: every count the
      table ever stores is an integer, except that `undefined - 1` and
      `NaN - 1` produce NaN. */
  datatype Count = Int(value: int) | NaN

  /** The result of `Map.prototype.get`: `None` stands for `undefined`. */
  datatype Option<+T> = None | Some(value: T)

  /** JavaScript truthiness of a looked-up count: `undefined`, `0` and `NaN`
      are falsy, every other integer is truthy. */
  function Truthy(v: Option<Count>): (b: bool)
    ensures !b <==> v == None || v == Some(Int(0)) || v == Some(NaN)
  {
    v.Some? && v.value.Int? && v.value.value != 0
  }

  /** `c + 1` on a number: NaN stays NaN. */
  function Plus1(c: Count): (r: Count)
    ensures r.NaN? <==> c.NaN?
    ensures c.Int? ==> r.value - 1 == c.value
  {
    match c
    case Int(n) => Int(n + 1)
    case NaN => NaN
  }

  /** `v - 1` on a looked-up value: `undefined` is coerced to NaN, and NaN
      minus one is NaN. There is no lower bound. */
  function Minus1(v: Option<Count>): (r: Count)
    ensures r.NaN? <==> (v.None? || v.value.NaN?)
    ensures v.Some? && v.value.Int? ==> r.Int? && r.value + 1 == v.value.value
  {
    match v
    case None => NaN
    case Some(Int(n)) => Int(n - 1)
    case Some(NaN) => NaN
  }

  /** `v || 0`: a truthy value is returned as it is, a falsy one becomes 0.
      Since every truthy count is an integer, the result is always one. */
  function OrZero(v: Option<Count>): (r: int)
    ensures Truthy(v) ==> v == Some(Int(r))
    ensures !Truthy(v) ==> r == 0
    ensures r != 0 <==> Truthy(v)
  {
    if Truthy(v) then v.value.value else 0
  }
}
