/** The values an `f64` can take in the ray tracer, without rounding: a
    finite real, one of the two infinities, or NaN. The operations are the
    IEEE-754 ones the source applies to values that may be infinite (the
    empty-box sentinels, reciprocals of zero direction components). */
module ExtReal {

  datatype Ext = Fin(v: real) | PosInf | NegInf | NaN

  /** Every value except NaN is ordered. */
  predicate IsNum(a: Ext) { !a.NaN? }

  /** Strictly positive (a positive real or +inf). */
  predicate IsPos(a: Ext) { a.PosInf? || (a.Fin? && a.v > 0.0) }

  /** Strictly negative (a negative real or -inf). */
  predicate IsNeg(a: Ext) { a.NegInf? || (a.Fin? && a.v < 0.0) }

  function ENeg(a: Ext): Ext
  {
    match a
    case Fin(x) => Fin(-x)
    case PosInf => NegInf
    case NegInf => PosInf
    case NaN => NaN
  }

  /** IEEE addition: infinities of opposite sign give NaN. */
  function EAdd(a: Ext, b: Ext): (r: Ext)
    ensures a.Fin? && b.Fin? ==> r == Fin(a.v + b.v)
    ensures r.NaN? <==> a.NaN? || b.NaN? || (a.PosInf? && b.NegInf?) || (a.NegInf? && b.PosInf?)
  {
    if a.NaN? || b.NaN? then NaN
    else if a.Fin? && b.Fin? then Fin(a.v + b.v)
    else if (a.PosInf? && b.NegInf?) || (a.NegInf? && b.PosInf?) then NaN
    else if a.PosInf? || b.PosInf? then PosInf
    else NegInf
  }

  function ESub(a: Ext, b: Ext): Ext
  {
    EAdd(a, ENeg(b))
  }

  /** IEEE multiplication: zero times an infinity gives NaN. */
  function EMul(a: Ext, b: Ext): (r: Ext)
    ensures a.Fin? && b.Fin? ==> r == Fin(a.v * b.v)
    ensures r.NaN? <==> a.NaN? || b.NaN? || (a == Fin(0.0) && !b.Fin?) || (b == Fin(0.0) && !a.Fin?)
  {
    if a.NaN? || b.NaN? then NaN
    else if a.Fin? && b.Fin? then Fin(a.v * b.v)
    else if a == Fin(0.0) || b == Fin(0.0) then NaN
    else if IsPos(a) == IsPos(b) then PosInf
    else NegInf
  }

  function EAbs(a: Ext): (r: Ext)
    ensures IsNum(a) ==> !IsNeg(r) && IsNum(r)
  {
    match a
    case Fin(x) => if x < 0.0 then Fin(-x) else Fin(x)
    case PosInf => PosInf
    case NegInf => PosInf
    case NaN => NaN
  }

  /** IEEE `<`: false whenever either side is NaN. */
  predicate Lt(a: Ext, b: Ext)
  {
    match a
    case NaN => false
    case PosInf => false
    case NegInf => b.Fin? || b.PosInf?
    case Fin(x) => b.PosInf? || (b.Fin? && x < b.v)
  }

  /** IEEE `<=`: false whenever either side is NaN. */
  predicate Le(a: Ext, b: Ext)
  {
    Lt(a, b) || (a == b && IsNum(a))
  }

  /** Rust's `f64::max`: a NaN argument is ignored in favour of the other. */
  function Max(a: Ext, b: Ext): (r: Ext)
    ensures IsNum(a) || IsNum(b) ==> IsNum(r)
    ensures IsNum(a) && IsNum(b) ==> Le(a, r) && Le(b, r) && (r == a || r == b)
  {
    if a.NaN? then b
    else if b.NaN? then a
    else if Lt(a, b) then b
    else a
  }

  /** Rust's `f64::min`: a NaN argument is ignored in favour of the other. */
  function Min(a: Ext, b: Ext): (r: Ext)
    ensures IsNum(a) || IsNum(b) ==> IsNum(r)
    ensures IsNum(a) && IsNum(b) ==> Le(r, a) && Le(r, b) && (r == a || r == b)
  {
    if a.NaN? then b
    else if b.NaN? then a
    else if Lt(b, a) then b
    else a
  }

  /** On ordered values `Le` is a total order. */
  lemma LeTotal(a: Ext, b: Ext)
    ensures IsNum(a) && IsNum(b) ==> Le(a, b) || Le(b, a)
    ensures Le(a, b) && Le(b, a) ==> a == b
    ensures IsNum(a) && IsNum(b) ==> (Lt(a, b) <==> !Le(b, a))
  {
  }

  lemma LeTrans(a: Ext, b: Ext, c: Ext)
    requires Le(a, b) && Le(b, c)
    ensures Le(a, c)
  {
  }
}
