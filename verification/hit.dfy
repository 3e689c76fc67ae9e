/** Hit records, the nearest-hit scan over a list of objects and the
    ray-sphere intersection (src/hit.rs). */
module Hit {
  import opened Wrappers
  import opened Vectors
  import opened Rays

  /** `HitInfo`. The material is a shared reference in the source; here it
      is an opaque material number. */
  datatype HitInfo = HitInfo(t: real, p: Vec3, normal: Vec3, frontFace: bool, mat: nat)

  datatype Sphere = Sphere(center: Vec3, radius: real, mat: nat)

  /** `Hittable::hit` of one object for a fixed ray: the object and the open
      window `(t_min, t_max)` it is asked about. */
  type ObjectHit<!O> = (O, real, real) -> Option<HitInfo>

  // ---------------------------------------------------------------------
  // Hittable_List

  /** `Hittable_List::clear`: no objects are left. */
  function Clear<O>(objects: seq<O>): (r: seq<O>)
    ensures |r| == 0
  {
    []
  }

  /** `Hittable_List::add`: the new object goes after the existing ones. */
  function AddObject<O>(objects: seq<O>, h: O): (r: seq<O>)
    ensures |r| == |objects| + 1
    ensures r[..|objects|] == objects && r[|objects|] == h
  {
    objects + [h]
  }

  /** The upper end of the window the next object is asked about: the `t`
      of the hit found so far, or `t_max` when there is none. */
  function Closest(found: Option<HitInfo>, tmax: real): real
  {
    if found.Some? then found.value.t else tmax
  }

  /** The hit a later object must beat: a hit strictly below `bound`, or none. */
  function Below(h: Option<HitInfo>, bound: real): (r: Option<HitInfo>)
    ensures r.Some? ==> r == h && h.value.t < bound
    ensures h.Some? && h.value.t < bound ==> r == h
  {
    if h.Some? && h.value.t < bound then h else None
  }

  /** `Hittable_List::hit`: the objects are asked in order, each with the
      window narrowed to the closest hit so far; the last object that
      reports a hit wins. Defined from the end of the list. */
  function ListHit<O>(objects: seq<O>, hit: ObjectHit<O>, tmin: real, tmax: real): Option<HitInfo>
    decreases |objects|
  {
    if |objects| == 0 then None
    else
      var prev := ListHit(objects[..|objects| - 1], hit, tmin, tmax);
      var q := hit(objects[|objects| - 1], tmin, Closest(prev, tmax));
      if q.Some? then q else prev
  }

  /** The loop of `Hittable_List::hit`, computing the fold above. */
  method HitList<O>(objects: seq<O>, hit: ObjectHit<O>, tmin: real, tmax: real) returns (out: Option<HitInfo>)
    ensures out == ListHit(objects, hit, tmin, tmax)
  {
    out := None;
    var closest := tmax;
    for k := 0 to |objects|
      invariant out == ListHit(objects[..k], hit, tmin, tmax)
      invariant closest == Closest(out, tmax)
    {
      assert objects[..k + 1][..k] == objects[..k];
      var q := hit(objects[k], tmin, closest);
      match q {
        case Some(h) =>
          closest := h.t;
          out := Some(h);
        case None =>
      }
    }
    assert objects[..|objects|] == objects;
  }

  /** The scan finds nothing exactly when no object reports a hit in the
      full window (the window is only narrowed once something is found). */
  lemma {:induction false} ListHitNone<O>(objects: seq<O>, hit: ObjectHit<O>, tmin: real, tmax: real)
    ensures ListHit(objects, hit, tmin, tmax).None?
        <==> forall i :: 0 <= i < |objects| ==> hit(objects[i], tmin, tmax).None?
    decreases |objects|
  {
    if |objects| > 0 {
      var pre := objects[..|objects| - 1];
      ListHitNone(pre, hit, tmin, tmax);
      assert forall i :: 0 <= i < |pre| ==> pre[i] == objects[i];
    }
  }

  /** `h` is absent or strictly inside the window. */
  predicate InWindow(h: Option<HitInfo>, lo: real, hi: real)
  {
    h.Some? ==> lo < h.value.t < hi
  }

  /** Every object only reports hits strictly inside the window it is given. */
  ghost predicate RespectsWindow<O(!new)>(hit: ObjectHit<O>)
  {
    forall o, lo, hi :: InWindow(hit(o, lo, hi), lo, hi)
  }

  /** An object's answer for a narrower window is its answer for the wider
      one, kept only when it lies below the narrower upper end. */
  ghost predicate NarrowsByFilter<O(!new)>(hit: ObjectHit<O>)
  {
    forall o, lo, hi, hi2 :: hi2 <= hi ==> hit(o, lo, hi2) == Below(hit(o, lo, hi), hi2)
  }

  /** When every object respects its window, so does the scan. */
  lemma {:induction false} ListHitWindow<O(!new)>(objects: seq<O>, hit: ObjectHit<O>, tmin: real, tmax: real)
    requires RespectsWindow(hit)
    ensures InWindow(ListHit(objects, hit, tmin, tmax), tmin, tmax)
    decreases |objects|
  {
    if |objects| > 0 {
      var pre := objects[..|objects| - 1];
      ListHitWindow(pre, hit, tmin, tmax);
      assert InWindow(hit(objects[|objects| - 1], tmin, Closest(ListHit(pre, hit, tmin, tmax), tmax)), tmin, Closest(ListHit(pre, hit, tmin, tmax), tmax));
    }
  }

  /** Object `i` reports a hit in the full window, every earlier object's
      hit is strictly farther and every later object's hit is no nearer:
      `i` is the first of the nearest objects. */
  ghost predicate IsFirstNearest<O(!new)>(objects: seq<O>, hit: ObjectHit<O>, tmin: real, tmax: real, i: int)
  {
    && 0 <= i < |objects|
    && hit(objects[i], tmin, tmax).Some?
    && (forall j :: 0 <= j < i && hit(objects[j], tmin, tmax).Some? ==>
          hit(objects[j], tmin, tmax).value.t > hit(objects[i], tmin, tmax).value.t)
    && (forall j :: i < j < |objects| && hit(objects[j], tmin, tmax).Some? ==>
          hit(objects[j], tmin, tmax).value.t >= hit(objects[i], tmin, tmax).value.t)
  }

  lemma FirstNearestUnique<O(!new)>(objects: seq<O>, hit: ObjectHit<O>, tmin: real, tmax: real, i: int, k: int)
    requires IsFirstNearest(objects, hit, tmin, tmax, i)
    requires IsFirstNearest(objects, hit, tmin, tmax, k)
    ensures i == k
  {
  }

  /** A hit returned by the scan is the full-window hit of the first of the
      nearest objects. */
  lemma {:induction false} ListHitFindsFirstNearest<O(!new)>(objects: seq<O>, hit: ObjectHit<O>, tmin: real, tmax: real) returns (i: int)
    requires RespectsWindow(hit) && NarrowsByFilter(hit)
    ensures ListHit(objects, hit, tmin, tmax).Some? ==>
      IsFirstNearest(objects, hit, tmin, tmax, i) && ListHit(objects, hit, tmin, tmax) == hit(objects[i], tmin, tmax)
    decreases |objects|
  {
    i := 0;
    if |objects| > 0 {
      var last := |objects| - 1;
      var pre := objects[..last];
      assert forall j :: 0 <= j < |pre| ==> pre[j] == objects[j];
      var prev := ListHit(pre, hit, tmin, tmax);
      if prev.None? {
        ListHitNone(pre, hit, tmin, tmax);
        i := last;
      } else {
        var k := ListHitFindsFirstNearest(pre, hit, tmin, tmax);
        ListHitWindow(pre, hit, tmin, tmax);
        assert hit(objects[last], tmin, prev.value.t) == Below(hit(objects[last], tmin, tmax), prev.value.t);
        if hit(objects[last], tmin, prev.value.t).Some? {
          i := last;
        } else {
          i := k;
        }
      }
    }
  }

  /** The nearest-hit contract of `Hittable_List::hit`: under the two
      assumptions about objects, the scan returns nothing exactly when no
      object is hit, and otherwise the hit of the first nearest object. */
  lemma ListHitNearest<O(!new)>(objects: seq<O>, hit: ObjectHit<O>, tmin: real, tmax: real)
    requires RespectsWindow(hit) && NarrowsByFilter(hit)
    ensures ListHit(objects, hit, tmin, tmax).Some? ==>
      exists i :: IsFirstNearest(objects, hit, tmin, tmax, i) && ListHit(objects, hit, tmin, tmax) == hit(objects[i], tmin, tmax)
    ensures forall i :: IsFirstNearest(objects, hit, tmin, tmax, i) ==> ListHit(objects, hit, tmin, tmax) == hit(objects[i], tmin, tmax)
  {
    var k := ListHitFindsFirstNearest(objects, hit, tmin, tmax);
    forall i | IsFirstNearest(objects, hit, tmin, tmax, i)
      ensures ListHit(objects, hit, tmin, tmax) == hit(objects[i], tmin, tmax)
    {
      ListHitNone(objects, hit, tmin, tmax);
      FirstNearestUnique(objects, hit, tmin, tmax, i, k);
    }
  }

  /** After `clear` nothing is hit; after `add`, a hit found before is
      replaced only by one that is strictly nearer. */
  lemma ListHitEdits<O(!new)>(objects: seq<O>, h: O, hit: ObjectHit<O>, tmin: real, tmax: real)
    requires RespectsWindow(hit)
    ensures ListHit(Clear(objects), hit, tmin, tmax).None?
    ensures ListHit(objects, hit, tmin, tmax).Some? ==>
      ListHit(AddObject(objects, h), hit, tmin, tmax).Some? &&
      (ListHit(AddObject(objects, h), hit, tmin, tmax) == ListHit(objects, hit, tmin, tmax) ||
       ListHit(AddObject(objects, h), hit, tmin, tmax).value.t < ListHit(objects, hit, tmin, tmax).value.t)
  {
    var r := AddObject(objects, h);
    assert r[..|r| - 1] == objects;
  }

  // ---------------------------------------------------------------------
  // Sphere::hit

  /** `half_b`: the dot product of `origin - center` with the direction. */
  function HalfB(s: Sphere, ray: Ray): real
  {
    Dot(Sub(ray.origin, s.center), ray.dir)
  }

  /** `half_b^2 - a c` with `a` the squared length of the direction and `c`
      the squared distance from the centre less the squared radius. */
  function Disc(s: Sphere, ray: Ray): real
  {
    Square(HalfB(s, ray)) - Times(SqrMagnitude(ray.dir), SqrMagnitude(Sub(ray.origin, s.center)) - Square(s.radius))
  }

  /** Lagrange's identity in three dimensions. */
  lemma Lagrange(ux: real, uy: real, uz: real, vx: real, vy: real, vz: real)
    ensures (ux * ux + uy * uy + uz * uz) * (vx * vx + vy * vy + vz * vz) - (ux * vx + uy * vy + uz * vz) * (ux * vx + uy * vy + uz * vz)
      == (uy * vz - uz * vy) * (uy * vz - uz * vy) + (uz * vx - ux * vz) * (uz * vx - ux * vz) + (ux * vy - uy * vx) * (ux * vy - uy * vx)
  {
  }

  /** Cauchy-Schwarz, through Lagrange's identity. */
  lemma CauchySchwarz(u: Vec3, v: Vec3)
    ensures Square(Dot(u, v)) <= Times(SqrMagnitude(u), SqrMagnitude(v))
  {
    var w := Cross(u, v);
    SqrMagnitudeZero(w);
    Lagrange(u.x, u.y, u.z, v.x, v.y, v.z);
  }

  /** `0^2 - 0 c` is zero whatever `c` is. */
  lemma ZeroDiscForm(c: real)
    ensures Square(0.0) - Times(0.0, c) == 0.0
  {
  }

  /** With a zero direction both `half_b` and `a` vanish, leaving `0^2 - 0 c`. */
  lemma ZeroDirectionDisc(s: Sphere, ray: Ray)
    requires ray.dir == Zero()
    ensures Disc(s, ray) == Square(0.0) - Times(0.0, SqrMagnitude(Sub(ray.origin, s.center)) - Square(s.radius))
  {
    assert HalfB(s, ray) == 0.0;
  }

  /** A zero radius gives a discriminant of at most zero. */
  lemma ZeroRadiusDisc(s: Sphere, ray: Ray)
    ensures s.radius == 0.0 ==> Disc(s, ray) <= 0.0
  {
    if s.radius == 0.0 {
      var oc := Sub(ray.origin, s.center);
      var a := SqrMagnitude(ray.dir);
      CauchySchwarz(oc, ray.dir);
      calc {
        Disc(s, ray);
        Square(Dot(oc, ray.dir)) - Times(a, SqrMagnitude(oc) - Square(0.0));
        Square(Dot(oc, ray.dir)) - Times(SqrMagnitude(oc), a);
        <= 0.0;
      }
    }
  }

  /** A positive discriminant needs a moving ray and a non-zero radius, so
      neither division in `Sphere::hit` is by zero; in particular a zero
      direction always misses. */
  lemma DiscPositive(s: Sphere, ray: Ray)
    ensures Disc(s, ray) > 0.0 ==> SqrMagnitude(ray.dir) > 0.0 && s.radius != 0.0
  {
    SqrMagnitudeZero(ray.dir);
    ZeroRadiusDisc(s, ray);
    if ray.dir == Zero() {
      ZeroDirectionDisc(s, ray);
      ZeroDiscForm(SqrMagnitude(Sub(ray.origin, s.center)) - Square(s.radius));
      assert Disc(s, ray) == 0.0;
    } else {
      assert SqrMagnitude(ray.dir) > 0.0;
    }
  }

  /** `(-half_b - root) / a`. */
  function NearRoot(s: Sphere, ray: Ray, root: real): real
    requires Disc(s, ray) > 0.0
  {
    DiscPositive(s, ray);
    (-HalfB(s, ray) - root) / SqrMagnitude(ray.dir)
  }

  /** `(-half_b + root) / a`. */
  function FarRoot(s: Sphere, ray: Ray, root: real): real
    requires Disc(s, ray) > 0.0
  {
    DiscPositive(s, ray);
    (-HalfB(s, ray) + root) / SqrMagnitude(ray.dir)
  }

  /** The outward normal at the near root: `(at(temp) - center) / radius`. */
  function Outward(s: Sphere, ray: Ray, root: real): Vec3
    requires Disc(s, ray) > 0.0
  {
    DiscPositive(s, ray);
    DivScalar(Sub(At(ray, NearRoot(s, ray, root)), s.center), s.radius)
  }

  /** `Sphere::hit`, given `root`, the square root of the discriminant.
      Tangency is a miss; the near root is preferred; the far root is used
      only when the near one is outside the window, and then the record
      still carries the point, normal and facing of the near root. */
  function SphereHit(s: Sphere, ray: Ray, tmin: real, tmax: real, root: real): (r: Option<HitInfo>)
    requires Disc(s, ray) > 0.0 ==> IsSqrt(root, Disc(s, ray))
    ensures Disc(s, ray) <= 0.0 ==> r.None?
    ensures InWindow(r, tmin, tmax)
    ensures Disc(s, ray) > 0.0 && tmin < NearRoot(s, ray, root) < tmax ==> r.Some? && r.value.t == NearRoot(s, ray, root)
    ensures r.Some? && r.value.t != NearRoot(s, ray, root) ==>
      !(tmin < NearRoot(s, ray, root) < tmax) && r.value.t == FarRoot(s, ray, root)
    ensures Disc(s, ray) > 0.0 && !(tmin < NearRoot(s, ray, root) < tmax) && tmin < FarRoot(s, ray, root) < tmax ==> r.Some?
    ensures r.Some? ==> r.value.p == At(ray, NearRoot(s, ray, root)) && r.value.mat == s.mat
    ensures r.Some? ==> (r.value.frontFace <==> Dot(ray.dir, Outward(s, ray, root)) < 0.0)
    ensures r.Some? ==> r.value.normal == (if r.value.frontFace then Outward(s, ray, root) else Scale(Outward(s, ray, root), -1.0))
    ensures r.Some? ==> Dot(ray.dir, r.value.normal) <= 0.0
  {
    var oc := Sub(ray.origin, s.center);
    var a := SqrMagnitude(ray.dir);
    var halfB := Dot(oc, ray.dir);
    var c := SqrMagnitude(oc) - Square(s.radius);
    var discriminant := Square(halfB) - Times(a, c);
    if discriminant > 0.0 then
      DiscPositive(s, ray);
      var temp := (-halfB - root) / a;
      var hitP := At(ray, temp);
      var outward := DivScalar(Sub(At(ray, temp), s.center), s.radius);
      var fFace := Dot(ray.dir, outward) < 0.0;
      var normal := if fFace then outward else Scale(outward, -1.0);
      assert discriminant == Disc(s, ray) && temp == NearRoot(s, ray, root) && outward == Outward(s, ray, root);
      DotReversed(ray.dir, outward);
      if temp < tmax && temp > tmin then
        Some(HitInfo(temp, hitP, normal, fFace, s.mat))
      else
        var temp2 := (-halfB + root) / a;
        if temp2 < tmax && temp2 > tmin then
          Some(HitInfo(temp2, hitP, normal, fFace, s.mat))
        else
          None
    else
      None
  }

  /** `(o + d t)^2` expanded in powers of `t`. */
  lemma ExpandOne(o: real, d: real, t: real)
    ensures Square(o + d * t) == Square(o) + 2.0 * Times(t, o * d) + Times(Square(t), Square(d))
  {
  }

  /** Multiplication distributes over a sum of three. */
  lemma Distribute(k: real, a: real, b: real, c: real)
    ensures Times(k, a + b + c) == Times(k, a) + Times(k, b) + Times(k, c)
  {
  }

  /** `|o + t d|^2` expanded in powers of `t`. */
  lemma ExpandAlong(o: Vec3, d: Vec3, t: real)
    ensures SqrMagnitude(Add(o, Scale(d, t))) == SqrMagnitude(o) + 2.0 * Times(t, Dot(o, d)) + Times(Square(t), SqrMagnitude(d))
  {
    ExpandOne(o.x, d.x, t);
    ExpandOne(o.y, d.y, t);
    ExpandOne(o.z, d.z, t);
    Distribute(t, o.x * d.x, o.y * d.y, o.z * d.z);
    Distribute(Square(t), Square(d.x), Square(d.y), Square(d.z));
  }

  /** From `a t == -hb - w`, `w^2 == hb^2 - a c` and `a != 0`: `t` solves
      `a t^2 + 2 hb t + c == 0`. */
  lemma RootSolves(a: real, hb: real, c: real, w: real, t: real)
    requires a != 0.0
    requires Times(a, t) == -hb - w
    requires Square(w) == Square(hb) - Times(a, c)
    ensures Times(Square(t), a) + 2.0 * Times(t, hb) + c == 0.0
  {
    var q := Times(Square(t), a) + 2.0 * Times(t, hb) + c;
    calc {
      Times(a, q);
      Square(Times(a, t)) + 2.0 * Times(Times(a, t), hb) + Times(a, c);
      Square(-hb - w) + 2.0 * Times(-hb - w, hb) + Times(a, c);
      Square(w) - Square(hb) + Times(a, c);
      0.0;
    }
    calc {
      q;
      Times(a, q) / a;
      0.0 / a;
      0.0;
    }
  }

  /** The squared distance from the centre, less the squared radius, along
      the ray: the quadratic `a t^2 + 2 half_b t + c`. */
  lemma SphereQuadratic(s: Sphere, ray: Ray, t: real)
    ensures SqrMagnitude(Sub(At(ray, t), s.center)) - Square(s.radius)
      == Times(Square(t), SqrMagnitude(ray.dir)) + 2.0 * Times(t, HalfB(s, ray)) + (SqrMagnitude(Sub(ray.origin, s.center)) - Square(s.radius))
  {
    var oc := Sub(ray.origin, s.center);
    assert Sub(At(ray, t), s.center) == Add(oc, Scale(ray.dir, t));
    ExpandAlong(oc, ray.dir, t);
  }

  /** A parameter `t` with `a t == -half_b - w`, where `w^2` is the
      discriminant, gives a point at distance `radius` from the centre. */
  lemma PointOnSphere(s: Sphere, ray: Ray, w: real, t: real)
    requires SqrMagnitude(ray.dir) != 0.0 && Square(w) == Disc(s, ray)
    requires Times(SqrMagnitude(ray.dir), t) == -HalfB(s, ray) - w
    ensures SqrMagnitude(Sub(At(ray, t), s.center)) == Square(s.radius)
  {
    var c := SqrMagnitude(Sub(ray.origin, s.center)) - Square(s.radius);
    RootSolves(SqrMagnitude(ray.dir), HalfB(s, ray), c, w, t);
    SphereQuadratic(s, ray, t);
  }

  /** Completing the square: `(a t + hb)^2 - (hb^2 - a c)` is `a` times
      `a t^2 + 2 hb t + c`. */
  lemma CompleteSquare(a: real, hb: real, c: real, t: real)
    ensures Square(Times(a, t) + hb) - (Square(hb) - Times(a, c)) == Times(a, Times(Square(t), a) + 2.0 * Times(t, hb) + c)
  {
  }

  /** Conversely, a point of the ray on the sphere comes from a root: its
      parameter `t` has `(a t + half_b)^2` equal to the discriminant. */
  lemma OnSphereIsRoot(s: Sphere, ray: Ray, t: real)
    ensures SqrMagnitude(Sub(At(ray, t), s.center)) == Square(s.radius) ==>
      Square(Times(SqrMagnitude(ray.dir), t) + HalfB(s, ray)) == Disc(s, ray)
  {
    var c := SqrMagnitude(Sub(ray.origin, s.center)) - Square(s.radius);
    SphereQuadratic(s, ray, t);
    CompleteSquare(SqrMagnitude(ray.dir), HalfB(s, ray), c, t);
  }

  /** Both roots lie on the sphere: the point at either parameter is at
      distance `radius` from the centre. */
  lemma RootsOnSphere(s: Sphere, ray: Ray, root: real)
    requires Disc(s, ray) > 0.0 && IsSqrt(root, Disc(s, ray))
    ensures SqrMagnitude(Sub(At(ray, NearRoot(s, ray, root)), s.center)) == Square(s.radius)
    ensures SqrMagnitude(Sub(At(ray, FarRoot(s, ray, root)), s.center)) == Square(s.radius)
  {
    DiscPositive(s, ray);
    var a, hb := SqrMagnitude(ray.dir), HalfB(s, ray);
    var near, far := NearRoot(s, ray, root), FarRoot(s, ray, root);
    assert Times(a, near) == -hb - root;
    assert Times(a, far) == -hb - (-root);
    assert Square(-root) == Square(root) == Disc(s, ray);
    PointOnSphere(s, ray, root, near);
    PointOnSphere(s, ray, -root, far);
  }

  /** The near root is strictly before the far root. */
  lemma NearBeforeFar(s: Sphere, ray: Ray, root: real)
    requires Disc(s, ray) > 0.0 && IsSqrt(root, Disc(s, ray))
    ensures NearRoot(s, ray, root) < FarRoot(s, ray, root)
  {
    DiscPositive(s, ray);
    var a, hb := SqrMagnitude(ray.dir), HalfB(s, ray);
    assert root > 0.0 by {
      SquareSign(root);
      assert Square(root) == Disc(s, ray);
    }
    calc {
      FarRoot(s, ray, root) - NearRoot(s, ray, root);
      (-hb + root) / a - (-hb - root) / a;
      (2.0 * root) / a;
      > 0.0;
    }
  }

  /** Distinct parameters give distinct points on a moving ray. */
  lemma AtInjective(ray: Ray, t1: real, t2: real)
    requires ray.dir != Zero() && t1 != t2
    ensures At(ray, t1) != At(ray, t2)
  {
    var d, k := ray.dir, t1 - t2;
    var p1, p2 := At(ray, t1), At(ray, t2);
    if d.x != 0.0 {
      NonzeroProduct(d.x, k);
      assert p1.x - p2.x == Times(d.x, k);
    } else if d.y != 0.0 {
      NonzeroProduct(d.y, k);
      assert p1.y - p2.y == Times(d.y, k);
    } else {
      NonzeroProduct(d.z, k);
      assert p1.z - p2.z == Times(d.z, k);
    }
  }

  /** When the far root is returned, the recorded point is not the point
      at the returned `t`: it is the near root's point. */
  lemma FarHitKeepsNearPoint(s: Sphere, ray: Ray, tmin: real, tmax: real, root: real)
    requires Disc(s, ray) > 0.0 && IsSqrt(root, Disc(s, ray))
    requires SphereHit(s, ray, tmin, tmax, root).Some?
    requires SphereHit(s, ray, tmin, tmax, root).value.t == FarRoot(s, ray, root)
    ensures SphereHit(s, ray, tmin, tmax, root).value.p == At(ray, NearRoot(s, ray, root))
    ensures SphereHit(s, ray, tmin, tmax, root).value.p != At(ray, SphereHit(s, ray, tmin, tmax, root).value.t)
  {
    DiscPositive(s, ray);
    SqrMagnitudeZero(ray.dir);
    NearBeforeFar(s, ray, root);
    AtInjective(ray, NearRoot(s, ray, root), FarRoot(s, ray, root));
  }

  /** Asking a sphere about a narrower window gives its wider-window answer
      filtered by the narrower upper end. */
  lemma SphereNarrows(s: Sphere, ray: Ray, lo: real, hi: real, hi2: real, root: real)
    requires Disc(s, ray) > 0.0 ==> IsSqrt(root, Disc(s, ray))
    requires hi2 <= hi
    ensures SphereHit(s, ray, lo, hi2, root) == Below(SphereHit(s, ray, lo, hi, root), hi2)
  {
    if Disc(s, ray) > 0.0 {
      NearBeforeFar(s, ray, root);
    }
  }

  /** A sphere together with the square root of its discriminant for the
      ray at hand (the value `f64::sqrt` would produce). */
  datatype SphereRoot = SphereRoot(sphere: Sphere, root: real)

  predicate RootFits(o: SphereRoot, ray: Ray)
  {
    Disc(o.sphere, ray) > 0.0 ==> IsSqrt(o.root, Disc(o.sphere, ray))
  }

  /** `Sphere::hit` for one ray as an object of a list; an entry whose root
      is not the discriminant's square root reports nothing. */
  function SphereObjectHit(ray: Ray): ObjectHit<SphereRoot>
  {
    (o: SphereRoot, lo: real, hi: real) =>
      if RootFits(o, ray) then SphereHit(o.sphere, ray, lo, hi, o.root) else None
  }

  /** Spheres meet both assumptions of `ListHitNearest`, so a list of
      spheres returns the hit of its first nearest sphere. */
  lemma SpheresAreWellBehaved(ray: Ray)
    ensures RespectsWindow(SphereObjectHit(ray))
    ensures NarrowsByFilter(SphereObjectHit(ray))
  {
    var f := SphereObjectHit(ray);
    forall o, lo, hi ensures InWindow(f(o, lo, hi), lo, hi) {
    }
    forall o, lo, hi, hi2 | hi2 <= hi ensures f(o, lo, hi2) == Below(f(o, lo, hi), hi2) {
      if RootFits(o, ray) {
        SphereNarrows(o.sphere, ray, lo, hi, hi2, o.root);
      }
    }
  }
}
