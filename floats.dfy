/** Cells of the float64 arrays the budget engine works on.

    A cell holds a finite real or a non-finite value. NaN and the two
    infinities are all represented by `None`: the engine only ever asks
    whether a cell is finite, and IEEE rounding is not modelled. Arithmetic
    propagates `None`, as NaN does in numpy, and a division by zero yields
    `None` (numpy gives an infinity or NaN there). */
module Floats {

  datatype Option<T> = None | Some(value: T)

  /** The outcome of an operation the source can abandon with an exception. */
  datatype Result<T> = Success(value: T) | Failure(error: string)

  /** One float64 cell: `None` is NaN or an infinity. */
  type Val = Option<real>

  function Min(a: real, b: real): real { if a <= b then a else b }

  function Max(a: real, b: real): real { if a >= b then a else b }

  function Abs(a: real): real { if a < 0.0 then -a else a }

  function Add(a: Val, b: Val): Val
  {
    if a.Some? && b.Some? then Some(a.value + b.value) else None
  }

  function Sub(a: Val, b: Val): Val
  {
    if a.Some? && b.Some? then Some(a.value - b.value) else None
  }

  function Mul(a: Val, b: Val): Val
  {
    if a.Some? && b.Some? then Some(a.value * b.value) else None
  }

  function Div(a: Val, b: Val): Val
  {
    if a.Some? && b.Some? && b.value != 0.0 then Some(a.value / b.value) else None
  }

  function Neg(a: Val): Val
  {
    if a.Some? then Some(-a.value) else None
  }

  /** numpy `np.clip(a, lo, hi)`, which is `minimum(maximum(a, lo), hi)` and keeps NaN. */
  function Clip(a: Val, lo: real, hi: real): (r: Val)
    ensures r.Some? <==> a.Some?
    ensures r.Some? && lo <= hi ==> lo <= r.value <= hi
    ensures r.Some? && lo <= a.value <= hi ==> r.value == a.value
  {
    if a.Some? then Some(Min(Max(a.value, lo), hi)) else None
  }

  /** A numpy comparison `a < c`: false whenever `a` is NaN. */
  predicate Below(a: Val, c: real)
  {
    a.Some? && a.value < c
  }
}
