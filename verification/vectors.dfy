/** Three-component vectors (src/vectors.rs). The source's `Vector3<T>` is
    generic over the component type; the model has one datatype per
    instantiation it uses: `Vec3` (`Vector3<f64>` with finite components),
    `EVec3` (`Vector3<f64>` whose components may be infinite or NaN) and
    `Sign3` (`Vector3<i32>`, the ray's sign bits). */
module Vectors {
  import opened ExtReal

  datatype Vec3 = Vector3(x: real, y: real, z: real)

  datatype EVec3 = EVector3(x: Ext, y: Ext, z: Ext)

  datatype Sign3 = Sign3(x: int, y: int, z: int)

  /** A finite vector seen as an `f64` vector. */
  function Embed(v: Vec3): (r: EVec3)
    ensures r.x.Fin? && r.y.Fin? && r.z.Fin?
  {
    EVector3(Fin(v.x), Fin(v.y), Fin(v.z))
  }

  /** `s` is the non-negative square root of `x`; stands in for `f64::sqrt`. */
  predicate IsSqrt(s: real, x: real)
  {
    s >= 0.0 && s * s == x
  }

  function Zero(): Vec3 { Vector3(0.0, 0.0, 0.0) }

  function One(): Vec3 { Vector3(1.0, 1.0, 1.0) }

  function FromTuple(t: (real, real, real)): (r: Vec3)
    ensures (r.x, r.y, r.z) == t
  {
    Vector3(t.0, t.1, t.2)
  }

  /** `Vector3::inf()`: +inf in every component. */
  function InfVec(): (r: EVec3)
    ensures r.x.PosInf? && r.y.PosInf? && r.z.PosInf?
  {
    EVector3(PosInf, PosInf, PosInf)
  }

  /** `Vector3::neg_inf()` as written: it also fills every component with
      +inf, so it is the same vector as `InfVec()`. */
  function NegInfVec(): (r: EVec3)
    ensures r == InfVec()
    ensures !r.x.NegInf? && !r.y.NegInf? && !r.z.NegInf?
  {
    EVector3(PosInf, PosInf, PosInf)
  }

  /** The vector `neg_inf` is evidently meant to build: every component is
      -inf, the negation of the corresponding one of `InfVec()`. */
  function NegInfVecIntended(): (r: EVec3)
    ensures r == EVector3(ENeg(InfVec().x), ENeg(InfVec().y), ENeg(InfVec().z))
    ensures r.x.NegInf? && r.y.NegInf? && r.z.NegInf?
    ensures r != NegInfVec()
  {
    EVector3(NegInf, NegInf, NegInf)
  }

  /** `from_tuple` and reading a vector's components back as a tuple are
      inverse to each other, so `from_tuple` is injective. */
  lemma FromTupleRoundTrip(v: Vec3, t: (real, real, real), u: (real, real, real))
    ensures FromTuple((v.x, v.y, v.z)) == v
    ensures (FromTuple(t).x, FromTuple(t).y, FromTuple(t).z) == t
    ensures FromTuple(t) == FromTuple(u) ==> t == u
  {
  }

  /** `inf()` lies strictly above every finite vector, componentwise: it is
      absorbing for `f64::max` and neutral for `f64::min` on any non-NaN
      component. */
  lemma InfVecAbove(v: Vec3, c: Ext)
    ensures Lt(Embed(v).x, InfVec().x) && Lt(Embed(v).y, InfVec().y) && Lt(Embed(v).z, InfVec().z)
    ensures !c.NaN? ==> Max(c, InfVec().x) == InfVec().x && Min(c, InfVec().x) == c
  {
  }

  /** Value and reference `Add`: componentwise sum. */
  function Add(a: Vec3, b: Vec3): Vec3
  {
    Vector3(a.x + b.x, a.y + b.y, a.z + b.z)
  }

  /** Value and reference `Sub`: componentwise difference; adding `b` back
      recovers `a`. */
  function Sub(a: Vec3, b: Vec3): (r: Vec3)
    ensures Add(r, b) == a
    ensures r == Zero() <==> a == b
  {
    Vector3(a.x - b.x, a.y - b.y, a.z - b.z)
  }

  /** `&v * s` and `s * v`: scaling by a scalar. */
  function Scale(v: Vec3, s: real): (r: Vec3)
    ensures s == 1.0 ==> r == v
    ensures s == 0.0 ==> r == Zero()
  {
    Vector3(v.x * s, v.y * s, v.z * s)
  }

  /** `Vector3<T> * &Vector3<U>`: componentwise product. */
  function MulComp(a: Vec3, b: Vec3): (r: Vec3)
    ensures b == One() ==> r == a
  {
    Vector3(a.x * b.x, a.y * b.y, a.z * b.z)
  }

  /** Value and reference `Div<U>`: division of every component by a scalar. */
  function DivScalar(v: Vec3, s: real): (r: Vec3)
    requires s != 0.0
    ensures Scale(r, s) == v
  {
    Vector3(v.x / s, v.y / s, v.z / s)
  }

  /** The inherent `div` method: componentwise quotient. */
  function DivComp(a: Vec3, b: Vec3): (r: Vec3)
    requires b.x != 0.0 && b.y != 0.0 && b.z != 0.0
    ensures MulComp(r, b) == a
  {
    Vector3(a.x / b.x, a.y / b.y, a.z / b.z)
  }

  function Dot(a: Vec3, b: Vec3): real
  {
    a.x * b.x + a.y * b.y + a.z * b.z
  }

  function Square(a: real): real { a * a }

  function SqrMagnitude(v: Vec3): real
  {
    Square(v.x) + Square(v.y) + Square(v.z)
  }

  lemma SquareSign(a: real)
    ensures Square(a) >= 0.0
    ensures Square(a) == 0.0 <==> a == 0.0
  {
    if a < 0.0 {
      calc { Square(a); (-a) * (-a); > 0.0; }
    } else if a > 0.0 {
      calc { Square(a); a * a; > 0.0; }
    } else {
      calc { Square(a); Square(0.0); 0.0; }
    }
  }

  /** Real multiplication as a function, so that facts about a product
      proved in one lemma carry over to its callers. */
  function Times(a: real, b: real): real { a * b }

  /** A product of two non-zero reals is non-zero. */
  lemma NonzeroProduct(x: real, y: real)
    requires x != 0.0 && y != 0.0
    ensures Times(x, y) != 0.0
  {
  }

  /** The squared magnitude is non-negative and vanishes only at zero. */
  lemma SqrMagnitudeZero(v: Vec3)
    ensures SqrMagnitude(v) >= 0.0
    ensures SqrMagnitude(v) == 0.0 <==> v == Zero()
  {
    SquareSign(v.x);
    SquareSign(v.y);
    SquareSign(v.z);
  }

  lemma QuotientSquare(a: real, m: real, q: real)
    requires q * m == a
    ensures Times(Square(q), Square(m)) == Square(a)
  {
    assert (q * q) * (m * m) == (q * m) * (q * m);
  }

  /** `k * m == m` with `m` positive forces `k == 1`. */
  lemma CancelFactor(k: real, m: real)
    requires m > 0.0 && Times(k, m) == m
    ensures k == 1.0
  {
    calc {
      k;
      (k * m) / m;
      m / m;
      1.0;
    }
  }

  /** Dividing a vector by its non-zero magnitude gives a unit vector. */
  lemma DivideByMagnitude(v: Vec3, m: real)
    requires IsSqrt(m, SqrMagnitude(v)) && m != 0.0
    ensures SqrMagnitude(DivScalar(v, m)) == 1.0
  {
    var w := DivScalar(v, m);
    assert Scale(w, m) == v;
    QuotientSquare(v.x, m, w.x);
    QuotientSquare(v.y, m, w.y);
    QuotientSquare(v.z, m, w.z);
    SquareSign(m);
    var k, mm := SqrMagnitude(w), Square(m);
    calc {
      Times(k, mm);
      (Square(w.x) + Square(w.y) + Square(w.z)) * mm;
      Times(Square(w.x), mm) + Times(Square(w.y), mm) + Times(Square(w.z), mm);
      Square(v.x) + Square(v.y) + Square(v.z);
      SqrMagnitude(v);
      m * m;
      mm;
    }
    CancelFactor(k, mm);
  }

  /** The magnitude vanishes exactly for the zero vector. */
  lemma MagnitudeZero(v: Vec3, m: real)
    requires IsSqrt(m, SqrMagnitude(v))
    ensures m == 0.0 <==> v == Zero()
  {
    SquareSign(m);
    SqrMagnitudeZero(v);
    calc { Square(m); m * m; SqrMagnitude(v); }
  }

  /** The cross product is orthogonal to both of its arguments. */
  function Cross(a: Vec3, b: Vec3): (r: Vec3)
    ensures Dot(a, r) == 0.0 && Dot(b, r) == 0.0
  {
    Vector3(a.y * b.z - a.z * b.y, a.z * b.x - a.x * b.z, a.x * b.y - a.y * b.x)
  }

  /** Mirror `v` about the plane with normal `n`; for a unit normal the
      component along `n` changes sign. */
  function Reflect(v: Vec3, n: Vec3): (r: Vec3)
    ensures Dot(n, n) == 1.0 ==> Dot(r, n) == -Dot(v, n)
  {
    Sub(v, Scale(n, 2.0 * Dot(v, n)))
  }

  /** `normalized`, given `m`, the magnitude (`sqrt` of the squared
      magnitude): the zero vector stays zero, every other vector becomes a
      unit vector pointing the same way. */
  function Normalized(v: Vec3, m: real): (r: Vec3)
    requires IsSqrt(m, SqrMagnitude(v))
    ensures v == Zero() ==> r == Zero()
    ensures v != Zero() ==> SqrMagnitude(r) == 1.0 && Scale(r, m) == v
  {
    MagnitudeZero(v, m);
    if m == 0.0 then Zero()
    else
      DivideByMagnitude(v, m);
      DivScalar(v, m)
  }

  /** `Sum` for `Vector3<f64>`: left fold of componentwise addition from zero. */
  function Sum(s: seq<Vec3>): Vec3
  {
    if |s| == 0 then Zero() else Add(Sum(s[..|s| - 1]), s[|s| - 1])
  }

  lemma DotCommutes(a: Vec3, b: Vec3)
    ensures Dot(a, b) == Dot(b, a)
    ensures Dot(a, a) == SqrMagnitude(a)
  {
  }

  /** Reversing a vector negates its dot products. */
  lemma DotReversed(a: Vec3, b: Vec3)
    ensures Dot(a, Scale(b, -1.0)) == -Dot(a, b)
  {
  }

  lemma CrossAnticommutes(a: Vec3, b: Vec3)
    ensures Cross(a, b) == Scale(Cross(b, a), -1.0)
    ensures Cross(a, a) == Zero()
  {
  }

  lemma AddCommutes(a: Vec3, b: Vec3)
    ensures Add(a, b) == Add(b, a)
    ensures Add(a, Zero()) == a
  {
  }

  /** Summing a concatenation is adding the two sums. */
  lemma {:induction false} SumAppend(s: seq<Vec3>, t: seq<Vec3>)
    ensures Sum(s + t) == Add(Sum(s), Sum(t))
    decreases |t|
  {
    if |t| == 0 {
      assert s + t == s;
    } else {
      var t', last := t[..|t| - 1], t[|t| - 1];
      var st := s + t;
      assert st[..|st| - 1] == s + t';
      assert st[|st| - 1] == last;
      SumAppend(s, t');
      assert Sum(st) == Add(Sum(s + t'), last);
    }
  }
}
