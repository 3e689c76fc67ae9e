/** Axis-aligned bounding boxes and the bounding volume hierarchy
    (src/BVH.rs). A primitive's own box (`get_bounds`) is an abstract value
    per object index: the boxes are given as a sequence. */
module Bvh {
  import opened Wrappers
  import opened ExtReal
  import opened Vectors
  import opened Rays
  import opened Hit

  datatype Axis = X | Y | Z

  /** `Bounds`: two corners and the `center` field, which the fitting
      functions set to the extent `max - min`. */
  datatype Bounds = Bounds(min: EVec3, max: EVec3, center: EVec3)

  function Comp(v: EVec3, a: Axis): Ext
  {
    match a
    case X => v.x
    case Y => v.y
    case Z => v.z
  }

  function CompR(v: Vec3, a: Axis): real
  {
    match a
    case X => v.x
    case Y => v.y
    case Z => v.z
  }

  function CompS(s: Sign3, a: Axis): int
  {
    match a
    case X => s.x
    case Y => s.y
    case Z => s.z
  }

  // ---------------------------------------------------------------------
  // Construction

  /** `Bounds::infinity`: the box containing everything. */
  function Infinity(): (r: Bounds)
    ensures forall a :: Comp(r.min, a) == NegInf && Comp(r.max, a) == PosInf
    ensures r.center == Embed(Zero())
  {
    Bounds(EVector3(NegInf, NegInf, NegInf), EVector3(PosInf, PosInf, PosInf), Embed(Zero()))
  }

  /** `Bounds::new`: the empty sentinel that fitting starts from. */
  function New(): (r: Bounds)
    ensures forall a :: Comp(r.min, a) == PosInf && Comp(r.max, a) == NegInf
    ensures r.center == Embed(Zero())
  {
    Bounds(EVector3(PosInf, PosInf, PosInf), EVector3(NegInf, NegInf, NegInf), Embed(Zero()))
  }

  /** `new()` is the identity of widening: widened by a pair of non-NaN
      corners it becomes exactly those corners. */
  lemma NewIsWidenIdentity(lo: EVec3, hi: EVec3, a: Axis)
    requires IsNum(Comp(lo, a)) && IsNum(Comp(hi, a))
    ensures Comp(Widen(New(), lo, hi).min, a) == Comp(lo, a)
    ensures Comp(Widen(New(), lo, hi).max, a) == Comp(hi, a)
  {
  }

  /** `Bounds::fromSphere`: the cube of half-side `r` around `p`. */
  function FromSphere(p: Vec3, r: real): (b: Bounds)
    ensures forall a :: Comp(b.min, a) == Fin(CompR(p, a) - r) && Comp(b.max, a) == Fin(CompR(p, a) + r)
    ensures b.center == Embed(p)
  {
    Bounds(Embed(Add(p, Scale(One(), -r))), Embed(Add(p, Scale(One(), r))), Embed(p))
  }

  /** The closed box test for a finite point. */
  predicate InSlab(b: Bounds, q: Vec3, a: Axis)
  {
    Comp(b.min, a).Fin? && Comp(b.max, a).Fin? && Comp(b.min, a).v <= CompR(q, a) <= Comp(b.max, a).v
  }

  predicate InBox(b: Bounds, q: Vec3)
  {
    InSlab(b, q, X) && InSlab(b, q, Y) && InSlab(b, q, Z)
  }

  /** `|a| <= r` follows from `a^2 <= r^2` for non-negative `r`. */
  lemma SquareBound(a: real, r: real)
    requires r >= 0.0 && Square(a) <= Square(r)
    ensures -r <= a <= r
  {
    if a > r {
      calc { Square(a); a * a; > r * a; >= r * r; Square(r); }
    } else if a < -r {
      calc { Square(a); (-a) * (-a); > r * (-a); >= r * r; Square(r); }
    }
  }

  /** Every point of the ball of radius `r >= 0` around `p` lies in
      `fromSphere(p, r)`. */
  lemma FromSphereContainsBall(p: Vec3, r: real, q: Vec3)
    requires r >= 0.0 && SqrMagnitude(Sub(q, p)) <= Square(r)
    ensures InBox(FromSphere(p, r), q)
  {
    var d := Sub(q, p);
    SquareSign(d.x);
    SquareSign(d.y);
    SquareSign(d.z);
    SquareBound(d.x, r);
    SquareBound(d.y, r);
    SquareBound(d.z, r);
  }

  /** One iteration of the fitting loops: the lower corner takes the
      `f64::min` with `lo`, the upper corner the `f64::max` with `hi`. */
  function Widen(b: Bounds, lo: EVec3, hi: EVec3): (r: Bounds)
    ensures forall a :: Comp(r.min, a) == Min(Comp(b.min, a), Comp(lo, a))
    ensures forall a :: Comp(r.max, a) == Max(Comp(b.max, a), Comp(hi, a))
    ensures r.center == b.center
  {
    Bounds(EVector3(Min(b.min.x, lo.x), Min(b.min.y, lo.y), Min(b.min.z, lo.z)),
           EVector3(Max(b.max.x, hi.x), Max(b.max.y, hi.y), Max(b.max.z, hi.z)),
           b.center)
  }

  /** `max - min` per component. */
  function Extent(b: Bounds): (e: EVec3)
    ensures forall a :: Comp(e, a) == ESub(Comp(b.max, a), Comp(b.min, a))
  {
    EVector3(ESub(b.max.x, b.min.x), ESub(b.max.y, b.min.y), ESub(b.max.z, b.min.z))
  }

  /** The assignment after both fitting loops: `center` becomes the extent. */
  function Recenter(b: Bounds): (r: Bounds)
    ensures r.min == b.min && r.max == b.max && r.center == Extent(b)
  {
    b.(center := Extent(b))
  }

  /** One widening step only grows the box, covers the non-NaN coordinates
      of `lo` and `hi`, and each new corner is either the old one or the
      point's. */
  lemma WidenGrows(b: Bounds, lo: EVec3, hi: EVec3, a: Axis)
    requires IsNum(Comp(b.min, a)) && IsNum(Comp(b.max, a))
    ensures Le(Comp(Widen(b, lo, hi).min, a), Comp(b.min, a))
    ensures Le(Comp(b.max, a), Comp(Widen(b, lo, hi).max, a))
    ensures IsNum(Comp(lo, a)) ==> Le(Comp(Widen(b, lo, hi).min, a), Comp(lo, a))
    ensures IsNum(Comp(hi, a)) ==> Le(Comp(hi, a), Comp(Widen(b, lo, hi).max, a))
    ensures Comp(Widen(b, lo, hi).min, a) == Comp(b.min, a) || Comp(Widen(b, lo, hi).min, a) == Comp(lo, a)
    ensures Comp(Widen(b, lo, hi).max, a) == Comp(b.max, a) || Comp(Widen(b, lo, hi).max, a) == Comp(hi, a)
  {
  }

  /** On a finite slab with ordered corners the extent is the width: it is
      non-negative and `min + extent == max`. */
  lemma ExtentSpans(b: Bounds, a: Axis)
    requires FiniteSlab(b, a)
    ensures Comp(Extent(b), a).Fin? && Comp(Extent(b), a).v >= 0.0
    ensures Comp(b.min, a).v + Comp(Extent(b), a).v == Comp(b.max, a).v
  {
  }

  /** `center` plays no part in containment or in the slab test: recentering
      changes neither, and recentering twice is recentering once. */
  lemma RecenterKeepsTests(b: Bounds, q: Vec3, ray: Ray)
    ensures InBox(Recenter(b), q) <==> InBox(b, q)
    ensures SlabHit(Recenter(b), ray) == SlabHit(b, ray)
    ensures Recenter(Recenter(b)) == Recenter(b)
  {
  }

  /** The loop of `fitPoints`, defined from the end of the point list. */
  function FitLoop(b: Bounds, points: seq<EVec3>): Bounds
    decreases |points|
  {
    if |points| == 0 then b
    else Widen(FitLoop(b, points[..|points| - 1]), points[|points| - 1], points[|points| - 1])
  }

  /** `fitPoints`: widen by every point, then set `center` to the extent. */
  function FitPoints(b: Bounds, points: seq<EVec3>): (r: Bounds)
    ensures r.min == FitLoop(b, points).min && r.max == FitLoop(b, points).max
    ensures r.center == Extent(r)
  {
    Recenter(FitLoop(b, points))
  }

  /** The fitted box only ever widens, and it contains every ordered
      coordinate of every point (NaN coordinates are ignored by `f64::min`
      and `f64::max`). */
  lemma {:induction false} FitLoopBounds(b: Bounds, points: seq<EVec3>, a: Axis)
    requires IsNum(Comp(b.min, a)) && IsNum(Comp(b.max, a))
    ensures IsNum(Comp(FitLoop(b, points).min, a)) && IsNum(Comp(FitLoop(b, points).max, a))
    ensures Le(Comp(FitLoop(b, points).min, a), Comp(b.min, a))
    ensures Le(Comp(b.max, a), Comp(FitLoop(b, points).max, a))
    ensures forall i :: 0 <= i < |points| && IsNum(Comp(points[i], a)) ==>
      Le(Comp(FitLoop(b, points).min, a), Comp(points[i], a)) && Le(Comp(points[i], a), Comp(FitLoop(b, points).max, a))
    decreases |points|
  {
    if |points| > 0 {
      var pre, q := points[..|points| - 1], points[|points| - 1];
      FitLoopBounds(b, pre, a);
      var w := FitLoop(b, pre);
      var r := FitLoop(b, points);
      assert r == Widen(w, q, q);
      forall i | 0 <= i < |points| && IsNum(Comp(points[i], a))
        ensures Le(Comp(r.min, a), Comp(points[i], a)) && Le(Comp(points[i], a), Comp(r.max, a))
      {
        if i < |pre| {
          assert pre[i] == points[i];
          LeTrans(Comp(r.min, a), Comp(w.min, a), Comp(points[i], a));
          LeTrans(Comp(points[i], a), Comp(w.max, a), Comp(r.max, a));
        }
      }
      LeTrans(Comp(r.min, a), Comp(w.min, a), Comp(b.min, a));
      LeTrans(Comp(b.max, a), Comp(w.max, a), Comp(r.max, a));
    }
  }

  /** `fitPoints` from any box with non-NaN corners: the box only grows, it
      ends up containing every non-NaN coordinate of the points, and its
      `center` is its extent. */
  lemma FitPointsWidens(b: Bounds, points: seq<EVec3>, a: Axis)
    requires IsNum(Comp(b.min, a)) && IsNum(Comp(b.max, a))
    ensures Le(Comp(FitPoints(b, points).min, a), Comp(b.min, a))
    ensures Le(Comp(b.max, a), Comp(FitPoints(b, points).max, a))
    ensures forall i :: 0 <= i < |points| && IsNum(Comp(points[i], a)) ==>
      Le(Comp(FitPoints(b, points).min, a), Comp(points[i], a)) && Le(Comp(points[i], a), Comp(FitPoints(b, points).max, a))
    ensures FitPoints(b, points).center == Extent(FitPoints(b, points))
  {
    FitLoopBounds(b, points, a);
  }

  /** Starting from `new()` over a non-empty list of ordered points, each
      corner coordinate of the fitted box is one of the points' coordinates. */
  lemma {:induction false} FitLoopAttained(points: seq<EVec3>, a: Axis)
    requires |points| > 0
    requires forall i :: 0 <= i < |points| ==> IsNum(Comp(points[i], a))
    ensures exists i :: 0 <= i < |points| && Comp(FitLoop(New(), points).min, a) == Comp(points[i], a)
    ensures exists i :: 0 <= i < |points| && Comp(FitLoop(New(), points).max, a) == Comp(points[i], a)
    decreases |points|
  {
    var pre, q := points[..|points| - 1], points[|points| - 1];
    var r := FitLoop(New(), points);
    var last := |points| - 1;
    if |pre| == 0 {
      assert FitLoop(New(), pre) == New();
      assert r == Widen(New(), q, q);
      assert Comp(r.min, a) == Comp(points[last], a);
      assert Comp(r.max, a) == Comp(points[last], a);
    } else {
      assert forall i :: 0 <= i < |pre| ==> pre[i] == points[i];
      FitLoopAttained(pre, a);
      FitLoopBounds(New(), pre, a);
      var w := FitLoop(New(), pre);
      var i :| 0 <= i < |pre| && Comp(w.min, a) == Comp(pre[i], a);
      var j :| 0 <= j < |pre| && Comp(w.max, a) == Comp(pre[j], a);
      if Comp(r.min, a) == Comp(w.min, a) {
        assert Comp(r.min, a) == Comp(points[i], a);
      } else {
        assert Comp(r.min, a) == Comp(points[last], a);
      }
      if Comp(r.max, a) == Comp(w.max, a) {
        assert Comp(r.max, a) == Comp(points[j], a);
      } else {
        assert Comp(r.max, a) == Comp(points[last], a);
      }
    }
  }

  /** `new().fitPoints(points)` on a non-empty list of ordered points has
      the componentwise minimum as `min` and the componentwise maximum as
      `max`, and every point lies between them. */
  lemma FitPointsFromNew(points: seq<EVec3>, a: Axis)
    requires |points| > 0
    requires forall i :: 0 <= i < |points| ==> IsNum(Comp(points[i], a))
    ensures forall i :: 0 <= i < |points| ==>
      Le(Comp(FitPoints(New(), points).min, a), Comp(points[i], a)) && Le(Comp(points[i], a), Comp(FitPoints(New(), points).max, a))
    ensures exists i :: 0 <= i < |points| && Comp(FitPoints(New(), points).min, a) == Comp(points[i], a)
    ensures exists i :: 0 <= i < |points| && Comp(FitPoints(New(), points).max, a) == Comp(points[i], a)
  {
    FitLoopBounds(New(), points, a);
    FitLoopAttained(points, a);
  }

  /** `center` is the extent, not the midpoint: fitting the points 10 and 11
      on every axis gives `center` 1, outside the box. */
  lemma CenterIsExtent()
    ensures FitPoints(New(), [Embed(Vector3(10.0, 10.0, 10.0)), Embed(Vector3(11.0, 11.0, 11.0))]).center == Embed(One())
    ensures !InBox(FitPoints(New(), [Embed(Vector3(10.0, 10.0, 10.0)), Embed(Vector3(11.0, 11.0, 11.0))]), One())
  {
    var pts := [Embed(Vector3(10.0, 10.0, 10.0)), Embed(Vector3(11.0, 11.0, 11.0))];
    assert pts[..1] == [pts[0]];
    assert pts[..1][..0] == [];
    assert FitLoop(New(), pts[..1][..0]) == New();
    var w0 := FitLoop(New(), pts[..1]);
    assert w0 == Widen(New(), pts[0], pts[0]);
    assert w0.min == pts[0] && w0.max == pts[0];
    var w1 := FitLoop(New(), pts);
    assert w1 == Widen(w0, pts[1], pts[1]);
    assert w1.min == pts[0] && w1.max == pts[1];
  }

  /** The loop of `from_hittables` over the objects' boxes. */
  function HittablesLoop(b: Bounds, boxes: seq<Bounds>): Bounds
    decreases |boxes|
  {
    if |boxes| == 0 then b
    else Widen(HittablesLoop(b, boxes[..|boxes| - 1]), boxes[|boxes| - 1].min, boxes[|boxes| - 1].max)
  }

  /** `from_hittables`: from `new()`, take the `min` of the objects' lower
      corners and the `max` of their upper corners, then set `center` to the
      extent. */
  function FromHittables(boxes: seq<Bounds>): (r: Bounds)
    ensures r.min == HittablesLoop(New(), boxes).min && r.max == HittablesLoop(New(), boxes).max
    ensures r.center == Extent(r)
  {
    Recenter(HittablesLoop(New(), boxes))
  }

  /** A box whose corners are ordered numbers with `min <= max`. */
  predicate Ordered(b: Bounds, a: Axis)
  {
    IsNum(Comp(b.min, a)) && IsNum(Comp(b.max, a)) && Le(Comp(b.min, a), Comp(b.max, a))
  }

  /** The box of `from_hittables` contains the box of every object. */
  lemma {:induction false} FromHittablesContains(boxes: seq<Bounds>, a: Axis)
    requires forall i :: 0 <= i < |boxes| ==> Ordered(boxes[i], a)
    ensures forall i :: 0 <= i < |boxes| ==>
      Le(Comp(FromHittables(boxes).min, a), Comp(boxes[i].min, a)) && Le(Comp(boxes[i].max, a), Comp(FromHittables(boxes).max, a))
  {
    HittablesLoopBounds(New(), boxes, a);
  }

  lemma {:induction false} HittablesLoopBounds(b: Bounds, boxes: seq<Bounds>, a: Axis)
    requires IsNum(Comp(b.min, a)) && IsNum(Comp(b.max, a))
    requires forall i :: 0 <= i < |boxes| ==> Ordered(boxes[i], a)
    ensures IsNum(Comp(HittablesLoop(b, boxes).min, a)) && IsNum(Comp(HittablesLoop(b, boxes).max, a))
    ensures forall i :: 0 <= i < |boxes| ==>
      Le(Comp(HittablesLoop(b, boxes).min, a), Comp(boxes[i].min, a)) && Le(Comp(boxes[i].max, a), Comp(HittablesLoop(b, boxes).max, a))
    decreases |boxes|
  {
    if |boxes| > 0 {
      var pre, o := boxes[..|boxes| - 1], boxes[|boxes| - 1];
      assert forall i :: 0 <= i < |pre| ==> pre[i] == boxes[i];
      HittablesLoopBounds(b, pre, a);
      var w := HittablesLoop(b, pre);
      var r := HittablesLoop(b, boxes);
      forall i | 0 <= i < |boxes|
        ensures Le(Comp(r.min, a), Comp(boxes[i].min, a)) && Le(Comp(boxes[i].max, a), Comp(r.max, a))
      {
        if i < |pre| {
          LeTrans(Comp(r.min, a), Comp(w.min, a), Comp(boxes[i].min, a));
          LeTrans(Comp(boxes[i].max, a), Comp(w.max, a), Comp(r.max, a));
        }
      }
    }
  }

  /** Starting from `new()` over a non-empty list of ordered boxes, each
      corner coordinate of the result is that corner of one of the boxes. */
  lemma {:induction false} HittablesLoopAttained(boxes: seq<Bounds>, a: Axis)
    requires |boxes| > 0
    requires forall i :: 0 <= i < |boxes| ==> Ordered(boxes[i], a)
    ensures exists i :: 0 <= i < |boxes| && Comp(HittablesLoop(New(), boxes).min, a) == Comp(boxes[i].min, a)
    ensures exists i :: 0 <= i < |boxes| && Comp(HittablesLoop(New(), boxes).max, a) == Comp(boxes[i].max, a)
    decreases |boxes|
  {
    var pre, o := boxes[..|boxes| - 1], boxes[|boxes| - 1];
    var r := HittablesLoop(New(), boxes);
    var last := |boxes| - 1;
    if |pre| == 0 {
      assert HittablesLoop(New(), pre) == New();
      assert r == Widen(New(), o.min, o.max);
      assert Comp(r.min, a) == Comp(boxes[last].min, a);
      assert Comp(r.max, a) == Comp(boxes[last].max, a);
    } else {
      assert forall i :: 0 <= i < |pre| ==> pre[i] == boxes[i];
      HittablesLoopAttained(pre, a);
      HittablesLoopBounds(New(), pre, a);
      var w := HittablesLoop(New(), pre);
      var i :| 0 <= i < |pre| && Comp(w.min, a) == Comp(pre[i].min, a);
      var j :| 0 <= j < |pre| && Comp(w.max, a) == Comp(pre[j].max, a);
      if Comp(r.min, a) == Comp(w.min, a) {
        assert Comp(r.min, a) == Comp(boxes[i].min, a);
      } else {
        assert Comp(r.min, a) == Comp(boxes[last].min, a);
      }
      if Comp(r.max, a) == Comp(w.max, a) {
        assert Comp(r.max, a) == Comp(boxes[j].max, a);
      } else {
        assert Comp(r.max, a) == Comp(boxes[last].max, a);
      }
    }
  }

  /** Over a non-empty list of ordered boxes `from_hittables` gives the
      tightest box: it contains every object's box, and each of its corner
      coordinates is that corner of some object. */
  lemma FromHittablesTight(boxes: seq<Bounds>, a: Axis)
    requires |boxes| > 0
    requires forall i :: 0 <= i < |boxes| ==> Ordered(boxes[i], a)
    ensures forall i :: 0 <= i < |boxes| ==>
      Le(Comp(FromHittables(boxes).min, a), Comp(boxes[i].min, a)) && Le(Comp(boxes[i].max, a), Comp(FromHittables(boxes).max, a))
    ensures exists i :: 0 <= i < |boxes| && Comp(FromHittables(boxes).min, a) == Comp(boxes[i].min, a)
    ensures exists i :: 0 <= i < |boxes| && Comp(FromHittables(boxes).max, a) == Comp(boxes[i].max, a)
  {
    FromHittablesContains(boxes, a);
    HittablesLoopAttained(boxes, a);
  }

  // ---------------------------------------------------------------------
  // Longest axis, corner index and slab test

  /** The `dist` closure of `getLongestAxis`: `(a - b).abs()`. */
  function Dist(hi: Ext, lo: Ext): (r: Ext)
    ensures IsNum(hi) && IsNum(lo) && !(hi.PosInf? && lo.PosInf?) && !(hi.NegInf? && lo.NegInf?) ==> IsNum(r) && !IsNeg(r)
  {
    EAbs(ESub(hi, lo))
  }

  function AxisDist(b: Bounds, a: Axis): Ext
  {
    Dist(Comp(b.max, a), Comp(b.min, a))
  }

  /** `getLongestAxis`: z when the z distance is strictly greater than the
      larger of the other two; otherwise x when the x distance is strictly
      greater than the y distance; otherwise y. For ordered distances the
      chosen axis is at least as long as the others; on ties y beats x and
      both beat z. */
  function LongestAxis(b: Bounds): (r: Axis)
    ensures IsNum(AxisDist(b, X)) && IsNum(AxisDist(b, Y)) && IsNum(AxisDist(b, Z)) ==>
      && (r == Z <==> Lt(AxisDist(b, X), AxisDist(b, Z)) && Lt(AxisDist(b, Y), AxisDist(b, Z)))
      && (r == X <==> Lt(AxisDist(b, Y), AxisDist(b, X)) && Le(AxisDist(b, Z), AxisDist(b, X)))
      && (forall a :: Le(AxisDist(b, a), AxisDist(b, r)))
  {
    var dx, dy, dz := AxisDist(b, X), AxisDist(b, Y), AxisDist(b, Z);
    var longest := if Lt(dy, dx) then dx else dy;
    var result := if Lt(dy, dx) then X else Y;
    LeTotal(dx, dy);
    LeTotal(dx, dz);
    LeTotal(dy, dz);
    if Lt(longest, dz) then Z else result
  }

  /** `impl Index<i32> for Bounds`: 1 selects `max`, every other index `min`. */
  function Index(b: Bounds, idx: int): (r: EVec3)
    ensures idx == 1 ==> r == b.max
    ensures idx != 1 ==> r == b.min
  {
    if idx == 1 then b.max else if idx == 0 then b.min else b.min
  }

  /** The entry and exit values of one slab, as the source computes them:
      `(self[sign].c - origin.c) * invDir.c` and the same with `1 - sign`.
      They are values of the NEGATED ray parameter, since `invDir` is the
      reciprocal of the negated direction. */
  function SlabNear(b: Bounds, ray: Ray, a: Axis): Ext
  {
    EMul(ESub(Comp(Index(b, CompS(ray.sign, a)), a), Fin(CompR(ray.origin, a))), Comp(ray.invDir, a))
  }

  function SlabFar(b: Bounds, ray: Ray, a: Axis): Ext
  {
    EMul(ESub(Comp(Index(b, 1 - CompS(ray.sign, a)), a), Fin(CompR(ray.origin, a))), Comp(ray.invDir, a))
  }

  /** For a sign bit `s`, the corners `self[s]` and `self[1 - s]` the slab
      test reads are the box's two corners, one each. */
  lemma IndexCorners(b: Bounds, s: int)
    requires s == 0 || s == 1
    ensures {Index(b, s), Index(b, 1 - s)} == {b.min, b.max}
    ensures s == 1 ==> Index(b, s) == b.max && Index(b, 1 - s) == b.min
  {
  }

  /** `Bounds::hit`. Its `tmin`/`tmax` parameters are shadowed by locals
      before use, so the model does not take them. */
  function SlabHit(b: Bounds, ray: Ray): bool
  {
    var tmin, tmax := SlabNear(b, ray, X), SlabFar(b, ray, X);
    var tymin, tymax := SlabNear(b, ray, Y), SlabFar(b, ray, Y);
    if Lt(tymax, tmin) || Lt(tmax, tymin) then false
    else
      var tmin' := if Lt(tmin, tymin) then tymin else tmin;
      var tmax' := if Lt(tymax, tmax) then tymax else tmax;
      var tzmin, tzmax := SlabNear(b, ray, Z), SlabFar(b, ray, Z);
      !(Lt(tzmax, tmin') || Lt(tmax', tzmin))
  }

  lemma ScaleMono(x: real, y: real, k: real)
    requires k > 0.0
    ensures x <= y <==> Times(x, k) <= Times(y, k)
  {
    assert Times(y, k) - Times(x, k) == Times(y - x, k);
    if x <= y {
      assert Times(y - x, k) >= 0.0;
    } else {
      assert Times(x - y, k) > 0.0;
    }
  }

  /** One slab in real arithmetic: with `inv * (-d) == 1` the interval
      `[near, far]` is non-empty and holds `-u` exactly when `o + d u`
      lies between `lo` and `hi`. */
  lemma AxisInterval(lo: real, hi: real, o: real, d: real, inv: real, u: real, near: real, far: real)
    requires lo <= hi && d != 0.0 && inv * (-d) == 1.0
    requires near == Times((if d >= 0.0 then hi else lo) - o, inv)
    requires far == Times((if d >= 0.0 then lo else hi) - o, inv)
    ensures near <= far
    ensures near <= -u <= far <==> lo <= o + Times(d, u) <= hi
  {
    assert Times(near, -d) == (if d >= 0.0 then hi else lo) - o;
    assert Times(far, -d) == (if d >= 0.0 then lo else hi) - o;
    assert Times(-u, -d) == Times(d, u);
    if d > 0.0 {
      ScaleMono(-near, -far, d);
      ScaleMono(-far, u, d);
      ScaleMono(u, -near, d);
    } else {
      ScaleMono(near, far, -d);
      ScaleMono(near, -u, -d);
      ScaleMono(-u, far, -d);
    }
  }

  /** A finite box with ordered corners on axis `a`. */
  predicate FiniteSlab(b: Bounds, a: Axis)
  {
    Comp(b.min, a).Fin? && Comp(b.max, a).Fin? && Comp(b.min, a).v <= Comp(b.max, a).v
  }

  /** The derived fields of a ray built by `Ray::new`, one axis at a time. */
  lemma ValidAxis(ray: Ray, a: Axis)
    requires Valid(ray)
    ensures AxisDerived(ray, a)
  {
    match a
    case X =>
    case Y =>
    case Z =>
  }

  /** On axis `a`, the reciprocal and sign bit are the ones `Ray::new` derives. */
  predicate AxisDerived(ray: Ray, a: Axis)
  {
    && Comp(ray.invDir, a) == InvNeg(CompR(ray.dir, a))
    && (CompS(ray.sign, a) == 0 || CompS(ray.sign, a) == 1)
    && (CompS(ray.sign, a) == 1 <==> CompR(ray.dir, a) >= 0.0)
  }

  /** The slab values of one axis in real arithmetic. */
  lemma SlabValues(b: Bounds, ray: Ray, a: Axis)
    requires FiniteSlab(b, a) && AxisDerived(ray, a) && CompR(ray.dir, a) != 0.0
    ensures Comp(ray.invDir, a).Fin? && Comp(ray.invDir, a).v * (-CompR(ray.dir, a)) == 1.0
    ensures SlabNear(b, ray, a) == Fin(Times((if CompR(ray.dir, a) >= 0.0 then Comp(b.max, a).v else Comp(b.min, a).v) - CompR(ray.origin, a), Comp(ray.invDir, a).v))
    ensures SlabFar(b, ray, a) == Fin(Times((if CompR(ray.dir, a) >= 0.0 then Comp(b.min, a).v else Comp(b.max, a).v) - CompR(ray.origin, a), Comp(ray.invDir, a).v))
  {
    var d, o := CompR(ray.dir, a), CompR(ray.origin, a);
    var inv := Comp(ray.invDir, a);
    var sg := CompS(ray.sign, a);
    var nearC := Comp(Index(b, sg), a);
    var farC := Comp(Index(b, 1 - sg), a);
    assert nearC == if d >= 0.0 then Comp(b.max, a) else Comp(b.min, a);
    assert farC == if d >= 0.0 then Comp(b.min, a) else Comp(b.max, a);
    assert ESub(nearC, Fin(o)) == Fin(nearC.v - o);
    assert ESub(farC, Fin(o)) == Fin(farC.v - o);
  }

  /** The slab values of one axis are finite, ordered, and bracket `-u`
      exactly when the ray point at `u` is inside the slab. */
  lemma SlabAxis(b: Bounds, ray: Ray, a: Axis, u: real)
    requires FiniteSlab(b, a) && AxisDerived(ray, a) && CompR(ray.dir, a) != 0.0
    ensures SlabNear(b, ray, a).Fin? && SlabFar(b, ray, a).Fin?
    ensures SlabNear(b, ray, a).v <= SlabFar(b, ray, a).v
    ensures SlabNear(b, ray, a).v <= -u <= SlabFar(b, ray, a).v <==> InSlab(b, At(ray, u), a)
  {
    SlabValues(b, ray, a);
    AtAxis(ray, u, a);
    var lo, hi := Comp(b.min, a).v, Comp(b.max, a).v;
    var o, d, inv := CompR(ray.origin, a), CompR(ray.dir, a), Comp(ray.invDir, a).v;
    var near, far := SlabNear(b, ray, a).v, SlabFar(b, ray, a).v;
    assert InSlab(b, At(ray, u), a) <==> lo <= CompR(At(ray, u), a) <= hi;
    AxisInterval(lo, hi, o, d, inv, u, near, far);
  }

  lemma AtAxis(ray: Ray, u: real, a: Axis)
    ensures CompR(At(ray, u), a) == CompR(ray.origin, a) + Times(CompR(ray.dir, a), u)
  {
    match a
    case X =>
    case Y =>
    case Z =>
  }

  /** A successful slab test: the ray's point at minus the largest entry
      value is inside the box. */
  lemma SlabHitFindsPoint(b: Bounds, ray: Ray)
    requires FiniteSlab(b, X) && FiniteSlab(b, Y) && FiniteSlab(b, Z)
    requires Valid(ray) && ray.dir.x != 0.0 && ray.dir.y != 0.0 && ray.dir.z != 0.0
    requires SlabHit(b, ray)
    ensures exists u :: InBox(b, At(ray, u))
  {
    ValidAxis(ray, X);
    ValidAxis(ray, Y);
    ValidAxis(ray, Z);
    SlabAxis(b, ray, X, 0.0);
    SlabAxis(b, ray, Y, 0.0);
    SlabAxis(b, ray, Z, 0.0);
    var nx, ny, nz := SlabNear(b, ray, X).v, SlabNear(b, ray, Y).v, SlabNear(b, ray, Z).v;
    var s := if nx >= ny && nx >= nz then nx else if ny >= nz then ny else nz;
    SlabAxis(b, ray, X, -s);
    SlabAxis(b, ray, Y, -s);
    SlabAxis(b, ray, Z, -s);
    assert InBox(b, At(ray, -s));
  }

  /** A point of the line inside the box makes the slab test succeed. */
  lemma PointPassesSlab(b: Bounds, ray: Ray, u: real)
    requires FiniteSlab(b, X) && FiniteSlab(b, Y) && FiniteSlab(b, Z)
    requires Valid(ray) && ray.dir.x != 0.0 && ray.dir.y != 0.0 && ray.dir.z != 0.0
    requires InBox(b, At(ray, u))
    ensures SlabHit(b, ray)
  {
    ValidAxis(ray, X);
    ValidAxis(ray, Y);
    ValidAxis(ray, Z);
    SlabAxis(b, ray, X, u);
    SlabAxis(b, ray, Y, u);
    SlabAxis(b, ray, Z, u);
  }

  /** For a finite box and a ray built by `Ray::new` with no zero direction
      component, the slab test is exactly the line-box test: it succeeds iff
      some point of the (two-sided, unbounded) line lies in the closed box. */
  lemma SlabHitIsLineTest(b: Bounds, ray: Ray)
    requires FiniteSlab(b, X) && FiniteSlab(b, Y) && FiniteSlab(b, Z)
    requires Valid(ray) && ray.dir.x != 0.0 && ray.dir.y != 0.0 && ray.dir.z != 0.0
    ensures SlabHit(b, ray) <==> exists u :: InBox(b, At(ray, u))
  {
    if SlabHit(b, ray) {
      SlabHitFindsPoint(b, ray);
    }
    if exists u :: InBox(b, At(ray, u)) {
      var u :| InBox(b, At(ray, u));
      PointPassesSlab(b, ray, u);
    }
  }

  /** The reciprocal of the negated direction has the opposite sign. */
  lemma InvNegSign(d: real)
    ensures d > 0.0 ==> InvNeg(d).v < 0.0
    ensures d < 0.0 ==> InvNeg(d).v > 0.0
  {
    if d > 0.0 {
      NegativeReciprocal(InvNeg(d).v, d);
    } else if d < 0.0 {
      NegativeReciprocal(-InvNeg(d).v, -d);
    }
  }

  lemma NegativeReciprocal(v: real, d: real)
    requires d > 0.0 && v * (-d) == 1.0
    ensures v < 0.0
  {
    assert Times(v, d) == -1.0;
  }

  /** On `infinity()` each axis of the slab test enters at -inf and leaves
      at +inf, whatever the ray's direction on that axis. */
  lemma InfinityAxis(ray: Ray, a: Axis)
    requires AxisDerived(ray, a)
    ensures SlabNear(Infinity(), ray, a) == NegInf && SlabFar(Infinity(), ray, a) == PosInf
  {
    InvNegSign(CompR(ray.dir, a));
  }

  /** `infinity()` never prunes: every ray built by `Ray::new` passes its
      slab test. */
  lemma InfinityAlwaysHit(ray: Ray)
    requires Valid(ray)
    ensures SlabHit(Infinity(), ray)
    ensures forall a :: SlabNear(Infinity(), ray, a) == NegInf && SlabFar(Infinity(), ray, a) == PosInf
  {
    forall a ensures SlabNear(Infinity(), ray, a) == NegInf && SlabFar(Infinity(), ray, a) == PosInf {
      ValidAxis(ray, a);
      InfinityAxis(ray, a);
    }
  }

  // ---------------------------------------------------------------------
  // Builder (one step of `from_HittableList`)

  datatype Node = Node(indices: seq<nat>, left: Option<Node>, right: Option<Node>, bbox: Bounds)

  predicate IndicesIn(indices: seq<nat>, n: nat)
  {
    forall k :: 0 <= k < |indices| ==> indices[k] < n
  }

  /** The box the builder fits over its index list: from `new()`,
      `fitPoints(vec![o.min, o.max])` for every referenced object in turn. */
  function BuilderBox(boxes: seq<Bounds>, indices: seq<nat>): Bounds
    requires IndicesIn(indices, |boxes|)
    decreases |indices|
  {
    if |indices| == 0 then New()
    else
      var o := boxes[indices[|indices| - 1]];
      FitPoints(BuilderBox(boxes, indices[..|indices| - 1]), [o.min, o.max])
  }

  /** The boxes the index list refers to, in its order. */
  function Select(boxes: seq<Bounds>, indices: seq<nat>): (r: seq<Bounds>)
    requires IndicesIn(indices, |boxes|)
    ensures |r| == |indices| && forall k :: 0 <= k < |indices| ==> r[k] == boxes[indices[k]]
  {
    seq(|indices|, k requires 0 <= k < |indices| => boxes[indices[k]])
  }

  predicate OrderedAll(boxes: seq<Bounds>)
  {
    forall i, a :: 0 <= i < |boxes| ==> Ordered(boxes[i], a)
  }

  /** Widening by `lo` then `hi` with `lo <= hi` is widening the lower
      corner by `lo` and the upper corner by `hi`. */
  lemma WidenTwice(acc: Bounds, o: Bounds)
    requires forall a :: IsNum(Comp(acc.min, a)) && IsNum(Comp(acc.max, a)) && Ordered(o, a)
    ensures Widen(Widen(acc, o.min, o.min), o.max, o.max) == Widen(acc, o.min, o.max)
  {
    var w1, w2, w := Widen(Widen(acc, o.min, o.min), o.max, o.max), Widen(acc, o.min, o.min), Widen(acc, o.min, o.max);
    forall a ensures Comp(w1.min, a) == Comp(w.min, a) && Comp(w1.max, a) == Comp(w.max, a) {
      LeTotal(Comp(acc.min, a), Comp(o.min, a));
      LeTotal(Comp(acc.max, a), Comp(o.max, a));
      LeTotal(Comp(acc.max, a), Comp(o.min, a));
      LeTotal(Comp(acc.min, a), Comp(o.max, a));
    }
    assert Comp(w1.min, X) == Comp(w.min, X) && Comp(w1.min, Y) == Comp(w.min, Y) && Comp(w1.min, Z) == Comp(w.min, Z);
    assert Comp(w1.max, X) == Comp(w.max, X) && Comp(w1.max, Y) == Comp(w.max, Y) && Comp(w1.max, Z) == Comp(w.max, Z);
  }

  /** The corners the builder fits equal those of `from_hittables` over the
      referenced boxes, when those boxes are ordered. */
  lemma {:induction false} BuilderCorners(boxes: seq<Bounds>, indices: seq<nat>)
    requires IndicesIn(indices, |boxes|) && OrderedAll(boxes)
    ensures BuilderBox(boxes, indices).min == HittablesLoop(New(), Select(boxes, indices)).min
    ensures BuilderBox(boxes, indices).max == HittablesLoop(New(), Select(boxes, indices)).max
    ensures forall a :: IsNum(Comp(BuilderBox(boxes, indices).min, a)) && IsNum(Comp(BuilderBox(boxes, indices).max, a))
    decreases |indices|
  {
    if |indices| > 0 {
      var pre := indices[..|indices| - 1];
      var o := boxes[indices[|indices| - 1]];
      BuilderCorners(boxes, pre);
      var sel, selPre := Select(boxes, indices), Select(boxes, pre);
      assert sel[..|sel| - 1] == selPre;
      var acc := BuilderBox(boxes, pre);
      assert [o.min, o.max][..1] == [o.min];
      assert [o.min, o.max][..1][..0] == [];
      assert FitLoop(acc, [o.min]) == Widen(acc, o.min, o.min);
      assert FitLoop(acc, [o.min, o.max]) == Widen(Widen(acc, o.min, o.min), o.max, o.max);
      WidenTwice(acc, o);
      var h := HittablesLoop(New(), selPre);
      assert HittablesLoop(New(), sel) == Widen(h, o.min, o.max);
      assert acc.min == h.min && acc.max == h.max;
    }
  }

  /** On a non-empty list of ordered boxes the builder's box is the box of
      `from_hittables` over the referenced objects. (On an empty list they
      differ: the builder keeps `new()`'s zero centre, `from_hittables` has
      the extent `-inf - +inf`.) */
  lemma BuilderBoxIsFromHittables(boxes: seq<Bounds>, indices: seq<nat>)
    requires IndicesIn(indices, |boxes|) && OrderedAll(boxes) && |indices| > 0
    ensures BuilderBox(boxes, indices) == FromHittables(Select(boxes, indices))
  {
    BuilderCorners(boxes, indices);
  }

  /** The builder's box contains the box of every referenced object. */
  lemma BuilderBoxContains(boxes: seq<Bounds>, indices: seq<nat>, a: Axis)
    requires IndicesIn(indices, |boxes|) && OrderedAll(boxes)
    ensures forall k :: 0 <= k < |indices| ==>
      Le(Comp(BuilderBox(boxes, indices).min, a), Comp(boxes[indices[k]].min, a)) &&
      Le(Comp(boxes[indices[k]].max, a), Comp(BuilderBox(boxes, indices).max, a))
  {
    BuilderCorners(boxes, indices);
    var sel := Select(boxes, indices);
    HittablesLoopBounds(New(), sel, a);
  }

  /** The sort key: the centre of the object's own box on the chosen axis. */
  function Key(boxes: seq<Bounds>, a: Axis, i: nat): Ext
  {
    if i < |boxes| then Comp(boxes[i].center, a) else NaN
  }

  predicate KeysOrdered(boxes: seq<Bounds>, a: Axis, s: seq<nat>)
  {
    forall k :: 0 <= k < |s| ==> IsNum(Key(boxes, a, s[k]))
  }

  predicate SortedByKey(boxes: seq<Bounds>, a: Axis, s: seq<nat>)
  {
    forall i, j :: 0 <= i < j < |s| ==> Le(Key(boxes, a, s[i]), Key(boxes, a, s[j]))
  }

  /** Insert `x` after every element whose key is not greater than its own. */
  function Insert(boxes: seq<Bounds>, a: Axis, x: nat, s: seq<nat>): (r: seq<nat>)
    ensures multiset(r) == multiset(s) + multiset{x}
    ensures |r| == |s| + 1
  {
    if |s| == 0 then [x]
    else if Lt(Key(boxes, a, x), Key(boxes, a, s[0])) then [x] + s
    else
      assert s == [s[0]] + s[1..];
      [s[0]] + Insert(boxes, a, x, s[1..])
  }

  /** `slice.sort_by(...)` for keys that all compare: a stable sort by key,
      written as an insertion sort. */
  function SortByKey(boxes: seq<Bounds>, a: Axis, s: seq<nat>): (r: seq<nat>)
    ensures multiset(r) == multiset(s)
    ensures |r| == |s|
    decreases |s|
  {
    if |s| == 0 then []
    else
      assert s == s[..|s| - 1] + [s[|s| - 1]];
      Insert(boxes, a, s[|s| - 1], SortByKey(boxes, a, s[..|s| - 1]))
  }

  /** Every element of `Insert(x, s)` is `x` or an element of `s`. */
  lemma InsertMembers(boxes: seq<Bounds>, a: Axis, x: nat, s: seq<nat>)
    ensures forall y :: y in Insert(boxes, a, x, s) ==> y == x || y in s
  {
    forall y | y in Insert(boxes, a, x, s) ensures y == x || y in s {
      assert y in multiset(Insert(boxes, a, x, s));
    }
  }

  /** Inserting an element with a numeric key keeps every key numeric. */
  lemma InsertKeys(boxes: seq<Bounds>, a: Axis, x: nat, s: seq<nat>)
    requires IsNum(Key(boxes, a, x)) && KeysOrdered(boxes, a, s)
    ensures KeysOrdered(boxes, a, Insert(boxes, a, x, s))
  {
    var r := Insert(boxes, a, x, s);
    InsertMembers(boxes, a, x, s);
    forall k | 0 <= k < |r| ensures IsNum(Key(boxes, a, r[k])) {
      assert r[k] in r;
      if r[k] != x {
        var m :| 0 <= m < |s| && s[m] == r[k];
      }
    }
  }

  /** A sorted list stays sorted under a head no greater than any element. */
  lemma ConsSorted(boxes: seq<Bounds>, a: Axis, h: nat, t: seq<nat>)
    requires SortedByKey(boxes, a, t)
    requires forall k :: 0 <= k < |t| ==> Le(Key(boxes, a, h), Key(boxes, a, t[k]))
    ensures SortedByKey(boxes, a, [h] + t)
  {
    var r := [h] + t;
    forall i, j | 0 <= i < j < |r| ensures Le(Key(boxes, a, r[i]), Key(boxes, a, r[j])) {
      assert r[j] == t[j - 1];
      if i > 0 {
        assert r[i] == t[i - 1];
      }
    }
  }

  /** Inserting into a key-sorted list keeps it key-sorted. */
  lemma {:induction false} InsertSorted(boxes: seq<Bounds>, a: Axis, x: nat, s: seq<nat>)
    requires IsNum(Key(boxes, a, x)) && KeysOrdered(boxes, a, s) && SortedByKey(boxes, a, s)
    ensures SortedByKey(boxes, a, Insert(boxes, a, x, s)) && KeysOrdered(boxes, a, Insert(boxes, a, x, s))
    decreases |s|
  {
    InsertKeys(boxes, a, x, s);
    if |s| == 0 {
    } else if Lt(Key(boxes, a, x), Key(boxes, a, s[0])) {
      forall j | 0 <= j < |s| ensures Le(Key(boxes, a, x), Key(boxes, a, s[j])) {
        LeTrans(Key(boxes, a, x), Key(boxes, a, s[0]), Key(boxes, a, s[j]));
      }
      ConsSorted(boxes, a, x, s);
    } else {
      var t := s[1..];
      assert KeysOrdered(boxes, a, t) && SortedByKey(boxes, a, t);
      InsertSorted(boxes, a, x, t);
      InsertMembers(boxes, a, x, t);
      LeTotal(Key(boxes, a, x), Key(boxes, a, s[0]));
      var it := Insert(boxes, a, x, t);
      forall k | 0 <= k < |it| ensures Le(Key(boxes, a, s[0]), Key(boxes, a, it[k])) {
        assert it[k] in it;
        if it[k] != x {
          var m :| 0 <= m < |t| && t[m] == it[k];
          assert s[m + 1] == it[k];
        }
      }
      ConsSorted(boxes, a, s[0], it);
    }
  }

  /** With every key ordered, the sort yields a key-sorted permutation. */
  lemma {:induction false} SortSorted(boxes: seq<Bounds>, a: Axis, s: seq<nat>)
    requires KeysOrdered(boxes, a, s)
    ensures SortedByKey(boxes, a, SortByKey(boxes, a, s)) && KeysOrdered(boxes, a, SortByKey(boxes, a, s))
    decreases |s|
  {
    if |s| > 0 {
      var pre := s[..|s| - 1];
      assert KeysOrdered(boxes, a, pre);
      SortSorted(boxes, a, pre);
      InsertSorted(boxes, a, s[|s| - 1], SortByKey(boxes, a, pre));
    }
  }

  /** The outcome of one builder step: a childless node, a split waiting for
      the recursive calls on its two halves, or a panic (an index outside
      the list, or a NaN key reaching `partial_cmp().unwrap()`). */
  datatype Step =
    | Leaf(node: Node)
    | Split(sorted: seq<nat>, bbox: Bounds, leftIndices: seq<nat>, rightIndices: seq<nat>)
    | Panic

  /** `from_HittableList` down to the recursive calls, with `p` the value
      `partition_point` returns (any index in `[0, len]`). A list longer than
      three becomes a leaf; a shorter one is sorted by centre on the longest
      axis and cut into `sorted[p..]` (left) and `sorted[..p]` (right). */
  function BuildStep(boxes: seq<Bounds>, indices: seq<nat>, p: nat): (r: Step)
    requires p <= |indices|
    ensures r.Panic? <==> (!IndicesIn(indices, |boxes|)
      || (|indices| <= 3 && |indices| >= 2 && !KeysOrdered(boxes, LongestAxis(BuilderBox(boxes, indices)), indices)))
    ensures r.Leaf? <==> IndicesIn(indices, |boxes|) && |indices| > 3
    ensures r.Leaf? ==> (r.node.indices == indices && r.node.left.None? && r.node.right.None?
      && r.node.bbox == BuilderBox(boxes, indices))
    ensures r.Split? ==> (|indices| <= 3 && r.bbox == BuilderBox(boxes, indices)
      && multiset(r.sorted) == multiset(indices)
      && r.leftIndices == r.sorted[p..] && r.rightIndices == r.sorted[..p]
      && multiset(r.leftIndices) + multiset(r.rightIndices) == multiset(indices))
    ensures r.Split? ==> SortedByKey(boxes, LongestAxis(r.bbox), r.sorted)
  {
    if !IndicesIn(indices, |boxes|) then Panic
    else
      var bbox := BuilderBox(boxes, indices);
      var axis := LongestAxis(bbox);
      if |indices| > 3 then Leaf(Node(indices, None, None, bbox))
      else if |indices| >= 2 && !KeysOrdered(boxes, axis, indices) then Panic
      else
        var sorted := SortByKey(boxes, axis, indices);
        assert sorted == sorted[..p] + sorted[p..];
        SortedSplit(boxes, axis, indices);
        Split(sorted, bbox, sorted[p..], sorted[..p])
  }

  /** A list of at most one element is already sorted, whatever its keys. */
  lemma SortedSplit(boxes: seq<Bounds>, a: Axis, s: seq<nat>)
    requires |s| < 2 || KeysOrdered(boxes, a, s)
    ensures SortedByKey(boxes, a, SortByKey(boxes, a, s))
  {
    if |s| >= 2 {
      SortSorted(boxes, a, s);
    } else {
      assert |SortByKey(boxes, a, s)| < 2;
    }
  }

  /** The recursion of the builder never reaches its base case: a split's
      halves have at most three indices, so each of them splits again (or
      panics), and the empty list splits into two empty lists. */
  lemma SplitNeverEnds(boxes: seq<Bounds>, indices: seq<nat>, p: nat, q: nat)
    requires p <= |indices|
    requires BuildStep(boxes, indices, p).Split?
    ensures q <= |BuildStep(boxes, indices, p).leftIndices| ==> !BuildStep(boxes, BuildStep(boxes, indices, p).leftIndices, q).Leaf?
    ensures q <= |BuildStep(boxes, indices, p).rightIndices| ==> !BuildStep(boxes, BuildStep(boxes, indices, p).rightIndices, q).Leaf?
  {
  }

  /** The empty index list is split into two empty lists. */
  lemma EmptySplitsIntoEmpty(boxes: seq<Bounds>)
    ensures BuildStep(boxes, [], 0) == Split([], New(), [], [])
  {
  }

  /** `0..n`, the index list `create_from_hlist` starts from. */
  function Range(n: nat): (r: seq<nat>)
    ensures |r| == n && forall k :: 0 <= k < n ==> r[k] == k
  {
    seq(n, k requires 0 <= k < n => k)
  }

  /** `0..n` lists every index below `n` exactly once, and nothing else. */
  lemma RangeEnumerates(n: nat)
    ensures IndicesIn(Range(n), n)
    ensures forall k: nat :: k in Range(n) <==> k < n
    ensures forall i, j :: 0 <= i < j < n ==> Range(n)[i] != Range(n)[j]
  {
    forall k: nat | k < n
      ensures k in Range(n)
    {
      assert Range(n)[k] == k;
    }
  }

  /** `create_from_hlist`: one builder step over every object index. More
      than three objects give a single childless node; fewer never panic on
      an index. */
  function CreateFromHList(boxes: seq<Bounds>, p: nat): (r: Step)
    requires p <= |boxes|
    ensures |boxes| > 3 ==> r.Leaf? && r.node.indices == Range(|boxes|) && r.node.left.None?
    ensures |boxes| <= 1 ==> r.Split?
  {
    BuildStep(boxes, Range(|boxes|), p)
  }

  // ---------------------------------------------------------------------
  // Traversal (`bvhNode::hit`)

  /** The outcome of `bvhNode::hit`: no hit, a hit, or a panic (an index
      outside the object list in the discarded leaf scan, or `unwrap` of a
      missing child). */
  datatype Traversal = Miss | Found(hit: HitInfo) | Panicked

  /** `bvhNode::hit` for a node over `objectCount` objects. The leaf scan's
      result is thrown away, so only its indexing matters; the window
      parameters only reach the box tests, which ignore them. One child is
      descended: the left if its box is hit, else the right. Nothing ever
      reaches a `Some`: a node without children either misses or panics. */
  function NodeHit(n: Node, objectCount: nat, ray: Ray): (r: Traversal)
    ensures !r.Found?
    ensures |n.indices| < 3 && !IndicesIn(n.indices, objectCount) ==> r.Panicked?
    ensures (|n.indices| >= 3 || IndicesIn(n.indices, objectCount)) && !SlabHit(n.bbox, ray) ==> r.Miss?
    ensures (|n.indices| >= 3 || IndicesIn(n.indices, objectCount)) && SlabHit(n.bbox, ray) && n.left.None? ==> r.Panicked?
    decreases n
  {
    if |n.indices| < 3 && !IndicesIn(n.indices, objectCount) then Panicked
    else if !SlabHit(n.bbox, ray) then Miss
    else if n.left.None? then Panicked
    else if SlabHit(n.left.value.bbox, ray) then NodeHit(n.left.value, objectCount, ray)
    else if n.right.None? then Panicked
    else NodeHit(n.right.value, objectCount, ray)
  }
}
