/**
 Integers extended with the two infinities. The alpha-beta search starts its
 running value and its window at Python's `float('-inf')` and `float('inf')`;
 node values themselves stay finite.
 */
module ExtInt {

  datatype Ext = NegInf | Fin(n: int) | PosInf

  /** Strict order: NegInf < every Fin < PosInf. */
  predicate Less(x: Ext, y: Ext) {
    match x
    case NegInf => !y.NegInf?
    case Fin(m) => y.PosInf? || (y.Fin? && m < y.n)
    case PosInf => false
  }

  predicate LessEq(x: Ext, y: Ext) {
    !Less(y, x)
  }

  /** Python's `max(x, y)`. */
  function Max(x: Ext, y: Ext): (r: Ext)
    ensures LessEq(x, r) && LessEq(y, r)
    ensures r == x || r == y
  {
    if Less(x, y) then y else x
  }

  /** Python's `min(x, y)`. */
  function Min(x: Ext, y: Ext): (r: Ext)
    ensures LessEq(r, x) && LessEq(r, y)
    ensures r == x || r == y
  {
    if Less(y, x) then y else x
  }
}
