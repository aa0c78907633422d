/** Search scores: Python floats restricted to the values the search uses,
    the reals extended with `float('-inf')` and `float('inf')`. */
module Scores {

  datatype Score = NegInf | Fin(v: real) | PosInf

  /** The order Python's `<=` gives on these values. */
  predicate Le(a: Score, b: Score) {
    a == NegInf || b == PosInf || (a.Fin? && b.Fin? && a.v <= b.v)
  }

  predicate Lt(a: Score, b: Score) {
    Le(a, b) && a != b
  }

  /** `max(a, b)`: the larger, the first one on a tie. */
  function Max(a: Score, b: Score): (m: Score)
    ensures Le(a, m) && Le(b, m)
    ensures m == a || m == b
  {
    if Le(b, a) then a else b
  }

  /** `min(a, b)`: the smaller, the first one on a tie. */
  function Min(a: Score, b: Score): (m: Score)
    ensures Le(m, a) && Le(m, b)
    ensures m == a || m == b
  {
    if Le(a, b) then a else b
  }

  function Negate(a: Score): (r: Score)
    ensures r.Fin? <==> a.Fin?
    ensures r.Fin? ==> r.v == -a.v
    ensures a == NegInf <==> r == PosInf
  {
    match a
    case NegInf => PosInf
    case Fin(x) => Fin(-x)
    case PosInf => NegInf
  }

  /** `x` pulled into the window `[lo, hi]`. */
  function Clamp(lo: Score, hi: Score, x: Score): (r: Score)
    requires Le(lo, hi)
    ensures Le(lo, r) && Le(r, hi)
    ensures Le(lo, x) && Le(x, hi) ==> r == x
    ensures Le(x, lo) ==> r == lo
    ensures Le(hi, x) ==> r == hi
  {
    Max(lo, Min(x, hi))
  }

  /** `score + bonus` for a float `score` and a finite `bonus`. */
  function AddReal(a: Score, x: real): (r: Score)
    ensures r.Fin? <==> a.Fin?
    ensures r.Fin? ==> r.v - a.v == x
    ensures !a.Fin? ==> r == a
  {
    if a.Fin? then Fin(a.v + x) else a
  }
}
