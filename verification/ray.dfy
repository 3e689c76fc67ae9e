/** Rays (src/ray.rs): an origin, a direction, and the per-axis reciprocal
    and sign bits the box test reads. */
module Rays {
  import opened ExtReal
  import opened Vectors

  datatype Ray = Ray(origin: Vec3, dir: Vec3, invDir: EVec3, sign: Sign3)

  /** The point at parameter `t`; its offset from the origin is `dir * t`. */
  function At(r: Ray, t: real): (p: Vec3)
    ensures Sub(p, r.origin) == Scale(r.dir, t)
    ensures t == 0.0 ==> p == r.origin
  {
    Add(r.origin, Scale(r.dir, t))
  }

  /** Moving `t2` further along the ray from `At(r, t1)` reaches `At(r, t1 + t2)`. */
  lemma AtShift(r: Ray, t1: real, t2: real)
    ensures At(r, t1 + t2) == Add(At(r, t1), Scale(r.dir, t2))
  {
  }

  /** One component of `1.0 / &(-1.0 * d)`. The reciprocal is of the NEGATED
      direction. The model takes a zero component to be `+0.0`: its
      negation is `-0.0`, and `1.0 / -0.0` is -inf. */
  function InvNeg(d: real): (r: Ext)
    ensures d != 0.0 <==> r.Fin?
    ensures d != 0.0 ==> r.v * (-d) == 1.0
    ensures d == 0.0 ==> r == NegInf
  {
    if d == 0.0 then NegInf else Fin(1.0 / (-d))
  }

  /** `(inv < 0.0) as i32`. */
  function SignBit(inv: Ext): (s: int)
    ensures s == 0 || s == 1
    ensures s == 1 <==> Lt(inv, Fin(0.0))
  {
    if Lt(inv, Fin(0.0)) then 1 else 0
  }

  /** `Ray::new`: stores origin and direction unchanged and derives the
      reciprocal of the negated direction and its sign bits. Because of the
      negation a sign bit is 1 exactly when the direction component is
      non-negative. */
  function NewRay(o: Vec3, d: Vec3): (r: Ray)
    ensures r.origin == o && r.dir == d
    ensures r.invDir == EVector3(InvNeg(d.x), InvNeg(d.y), InvNeg(d.z))
    ensures r.sign.x == SignBit(r.invDir.x) && r.sign.y == SignBit(r.invDir.y) && r.sign.z == SignBit(r.invDir.z)
    ensures r.sign.x == 1 <==> d.x >= 0.0
    ensures r.sign.y == 1 <==> d.y >= 0.0
    ensures r.sign.z == 1 <==> d.z >= 0.0
  {
    var inv := EVector3(InvNeg(d.x), InvNeg(d.y), InvNeg(d.z));
    Ray(o, d, inv, Sign3(SignBit(inv.x), SignBit(inv.y), SignBit(inv.z)))
  }

  /** A ray whose derived fields are the ones `Ray::new` computes. */
  predicate Valid(r: Ray)
  {
    r == NewRay(r.origin, r.dir)
  }
}
