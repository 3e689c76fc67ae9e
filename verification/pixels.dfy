/** The pure helpers of the renderer's entry point (src/main.rs): clamping,
    colour quantisation and packing, pixel index arithmetic, the reversed
    buffer slot, the batching of the render loop, and the stand-alone
    `hitsphere` test. */
module Pixels {
  import opened ExtReal
  import opened Vectors
  import opened Rays
  import opened Hit

  // ---------------------------------------------------------------------
  // clamp and quantisation

  /** `clamp`: the lower bound is tested first, then the upper one; a NaN
      input fails both tests and comes back unchanged. */
  function Clamp(x: Ext, lo: Ext, hi: Ext): (r: Ext)
    ensures IsNum(x) && IsNum(lo) && IsNum(hi) && Le(lo, hi) ==> Le(lo, r) && Le(r, hi)
    ensures Le(lo, x) && Le(x, hi) ==> r == x
    ensures Lt(hi, lo) && Lt(x, lo) ==> r == lo
    ensures x.NaN? ==> r.NaN?
  {
    if Lt(x, lo) then lo
    else if Lt(hi, x) then hi
    else x
  }

  /** With ordered bounds, clamping twice is clamping once. */
  lemma ClampIdempotent(x: Ext, lo: Ext, hi: Ext)
    requires IsNum(lo) && IsNum(hi) && Le(lo, hi)
    ensures Clamp(Clamp(x, lo, hi), lo, hi) == Clamp(x, lo, hi)
  {
    LeTotal(x, lo);
    LeTotal(x, hi);
  }

  /** With crossed bounds clamping is not idempotent: `clamp(0, 2, 1)` is 2,
      and `clamp(2, 2, 1)` is 1. */
  lemma ClampCrossedBounds()
    ensures Clamp(Fin(0.0), Fin(2.0), Fin(1.0)) == Fin(2.0)
    ensures Clamp(Clamp(Fin(0.0), Fin(2.0), Fin(1.0)), Fin(2.0), Fin(1.0)) == Fin(1.0)
  {
  }

  /** An unsigned 8-bit channel value. */
  newtype U8 = n: int | 0 <= n < 0x100

  /** An unsigned 32-bit pixel value. */
  newtype U32 = n: int | 0 <= n < 0x1_0000_0000

  /** Rust's `f64 as u8`: truncation toward zero, saturating at both ends,
      NaN to 0. */
  function CastU8(v: Ext): (r: U8)
    ensures v.NaN? || v.NegInf? ==> r == 0
    ensures v.PosInf? ==> r == 255
    ensures v.Fin? && 0.0 <= v.v < 256.0 ==> r as int == v.v.Floor
    ensures v.Fin? && v.v < 0.0 ==> r == 0
    ensures v.Fin? && v.v >= 256.0 ==> r == 255
  {
    match v
    case NaN => 0
    case NegInf => 0
    case PosInf => 255
    case Fin(x) =>
      if x < 1.0 then 0
      else if x >= 255.0 then 255
      else x.Floor as U8
  }

  /** One colour channel: `(255 as f64 * clamp(c, 0.0, 1.0)) as u8`, with `c`
      the square root the caller has already taken. */
  function Quantise(c: Ext): (r: U8)
    ensures c.Fin? && 0.0 <= c.v <= 1.0 ==> r as int == (255.0 * c.v).Floor
    ensures (c.Fin? && c.v >= 1.0) || c.PosInf? ==> r == 255
    ensures (c.Fin? && c.v <= 0.0) || c.NegInf? || c.NaN? ==> r == 0
  {
    var k := Clamp(c, Fin(0.0), Fin(1.0));
    assert c.Fin? && 0.0 <= c.v <= 1.0 ==> k == c;
    assert (c.Fin? && c.v >= 1.0) || c.PosInf? ==> k == Fin(1.0);
    assert (c.Fin? && c.v <= 0.0) || c.NegInf? ==> k == Fin(0.0);
    assert c.NaN? ==> k.NaN?;
    CastU8(EMul(Fin(255.0), k))
  }

  // ---------------------------------------------------------------------
  // from_u8_rgb

  /** `from_u8_rgb`: `(r << 16) | (g << 8) | b` in a `u32`. The three
      shifted channels occupy disjoint bits and cannot overflow, so the
      `|` is their sum. */
  function FromU8Rgb(r: U8, g: U8, b: U8): (v: U32)
    ensures v < 0x100_0000
    ensures (v as int / 0x1_0000) % 0x100 == r as int
    ensures (v as int / 0x100) % 0x100 == g as int
    ensures v as int % 0x100 == b as int
  {
    var v := r as int * 0x1_0000 + g as int * 0x100 + b as int;
    assert v / 0x100 == r as int * 0x100 + g as int;
    assert v / 0x1_0000 == r as int;
    v as U32
  }

  /** The inverse of the packing: the three channel bytes of a pixel,
      `(v >> 16) & 0xFF`, `(v >> 8) & 0xFF` and `v & 0xFF`. */
  function Unpack(v: U32): (U8, U8, U8)
  {
    (((v as int / 0x1_0000) % 0x100) as U8, ((v as int / 0x100) % 0x100) as U8, (v as int % 0x100) as U8)
  }

  lemma UnpackPack(r: U8, g: U8, b: U8)
    ensures Unpack(FromU8Rgb(r, g, b)) == (r, g, b)
  {
  }

  /** Unpacking recovers the channels, so packing is injective. */
  lemma PackRoundTrip(r: U8, g: U8, b: U8, r2: U8, g2: U8, b2: U8)
    ensures Unpack(FromU8Rgb(r, g, b)) == (r, g, b)
    ensures FromU8Rgb(r, g, b) == FromU8Rgb(r2, g2, b2) ==> (r, g, b) == (r2, g2, b2)
  {
    UnpackPack(r, g, b);
    UnpackPack(r2, g2, b2);
  }

  /** The value `bufferIterator` stores for a pixel: the three quantised
      channels packed into the low 24 bits. */
  function PixelValue(c: (Ext, Ext, Ext)): (v: U32)
    ensures v < 0x100_0000
    ensures Unpack(v) == (Quantise(c.0), Quantise(c.1), Quantise(c.2))
  {
    UnpackPack(Quantise(c.0), Quantise(c.1), Quantise(c.2));
    FromU8Rgb(Quantise(c.0), Quantise(c.1), Quantise(c.2))
  }

  // ---------------------------------------------------------------------
  // Pixel indices

  /** `i = idx % width` and `j = idx / width` in `bufferIterator`. */
  function PixelCoords(idx: nat, width: nat): (c: (nat, nat))
    requires width > 0
    ensures c.0 < width && c.1 * width + c.0 == idx
  {
    (idx % width, idx / width)
  }

  /** Column `i` of row `j`, the inverse of `PixelCoords`. */
  function PixelIndex(i: nat, j: nat, width: nat): nat
  {
    j * width + i
  }

  /** A multiple of a positive `w` strictly between `-w` and `w` is zero. */
  lemma ZeroMultiple(k: int, w: int)
    requires w > 0 && -w < k * w < w
    ensures k == 0
  {
  }

  /** Decomposing an index and recomposing it are inverse. */
  lemma PixelCoordsRoundTrip(i: nat, j: nat, width: nat, idx: nat)
    requires width > 0 && i < width
    ensures PixelCoords(PixelIndex(i, j, width), width) == (i, j)
    ensures PixelIndex(PixelCoords(idx, width).0, PixelCoords(idx, width).1, width) == idx
  {
    var c := PixelCoords(PixelIndex(i, j, width), width);
    assert (c.1 - j) * width == i - c.0;
    ZeroMultiple(c.1 - j, width);
  }

  /** `buffer[size - 1 - j]`: pixels are written from the end of the buffer. */
  function Slot(size: nat, j: nat): (s: nat)
    requires j < size
    ensures s < size
    ensures s + j == size - 1
  {
    size - 1 - j
  }

  /** The slot map is its own inverse, hence a bijection of `[0, size)`:
      distinct pixels are written to distinct slots. */
  lemma SlotBijective(size: nat, j: nat, k: nat)
    requires j < size && k < size
    ensures Slot(size, Slot(size, j)) == j
    ensures Slot(size, j) == Slot(size, k) ==> j == k
  {
  }

  // ---------------------------------------------------------------------
  // The render loop's batching

  /** `size / (2 ^ 16)`: `^` is exclusive or in Rust, so the divisor is 18. */
  function Batch(size: nat): (b: nat)
    ensures b == size / 18
  {
    var divisor := ((2 as bv64) ^ (16 as bv64)) as nat;
    assert divisor == 18;
    size / divisor
  }

  /** `lo, lo + 1, ..., hi - 1`. */
  function Interval(lo: nat, hi: nat): (r: seq<nat>)
    ensures |r| == if lo <= hi then hi - lo else 0
    ensures forall k :: 0 <= k < |r| ==> r[k] == lo + k
  {
    if lo < hi then seq(hi - lo, k requires 0 <= k < hi - lo => lo + k) else []
  }

  /** Adjacent intervals concatenate. */
  lemma IntervalAppend(lo: nat, mid: nat, hi: nat)
    requires lo <= mid <= hi
    ensures Interval(lo, mid) + Interval(mid, hi) == Interval(lo, hi)
  {
    assert forall k :: 0 <= k < hi - lo ==> (Interval(lo, mid) + Interval(mid, hi))[k] == lo + k;
  }

  /** One pass of the window loop body from `i`: when `i < size`, indices
      `i .. i + batch` are rendered until one exceeds `size - 1`, and `i`
      advances by `batch` regardless. Returns the indices rendered, in
      order, and the next `i`. */
  method RenderFrame(i: nat, size: nat) returns (rendered: seq<nat>, next: nat)
    ensures next == if i < size then i + Batch(size) else i
    ensures rendered == if i < size then Interval(i, if i + Batch(size) < size then i + Batch(size) else size) else []
    ensures forall k :: 0 <= k < |rendered| ==> rendered[k] < size
  {
    rendered := [];
    next := i;
    if i < size {
      var batch := Batch(size);
      for j := i to i + batch
        invariant rendered == Interval(i, if j < size then j else size)
      {
        if j > size - 1 {
          break;
        }
        rendered := rendered + [j];
      }
      next := i + batch;
    }
  }

  /** The loop counter after `frames` passes from 0. */
  function Progress(size: nat, frames: nat): nat
  {
    if frames == 0 then 0
    else
      var i := Progress(size, frames - 1);
      if i < size then i + Batch(size) else i
  }

  /** The indices rendered during the first `frames` passes, in order. */
  function RenderedSoFar(size: nat, frames: nat): seq<nat>
  {
    if frames == 0 then []
    else
      var i := Progress(size, frames - 1);
      RenderedSoFar(size, frames - 1)
        + (if i < size then Interval(i, if i + Batch(size) < size then i + Batch(size) else size) else [])
  }

  /** The passes render the indices `0 .. min(i, size)` in order, each once;
      with at least 18 pixels every pixel is rendered after `size` passes. */
  lemma {:induction false} FramesCoverBuffer(size: nat, frames: nat)
    ensures RenderedSoFar(size, frames) == Interval(0, if Progress(size, frames) < size then Progress(size, frames) else size)
    ensures size >= 18 ==> Progress(size, frames) >= (if frames < size then frames else size)
  {
    if frames > 0 {
      FramesCoverBuffer(size, frames - 1);
      var i := Progress(size, frames - 1);
      var prev := RenderedSoFar(size, frames - 1);
      if i < size {
        var hi := if i + Batch(size) < size then i + Batch(size) else size;
        IntervalAppend(0, i, hi);
      }
    }
  }

  /** With fewer than 18 pixels the batch is empty: the counter never moves
      and no pixel is ever rendered. */
  lemma SmallBufferNeverRenders(size: nat, frames: nat)
    requires size < 18
    ensures Progress(size, frames) == 0
    ensures RenderedSoFar(size, frames) == []
  {
    if frames > 0 {
      SmallBufferNeverRenders(size, frames - 1);
      if size > 0 {
        assert Interval(0, 0) == [];
      }
    }
  }

  // ---------------------------------------------------------------------
  // hitsphere

  /** `hitsphere` as written, given `root`, the square root of the
      discriminant: -1 for a negative discriminant, otherwise
      `-half_b - root / a`, where only the root is divided by `a` (a zero
      `a` forces a zero discriminant, and `0.0 / 0.0` is NaN). */
  function HitSphereAsWritten(s: Sphere, ray: Ray, root: real): (r: Ext)
    requires Disc(s, ray) >= 0.0 ==> IsSqrt(root, Disc(s, ray))
    ensures r == Fin(-1.0) <==> Disc(s, ray) < 0.0 || (SqrMagnitude(ray.dir) != 0.0 && -HalfB(s, ray) - root / SqrMagnitude(ray.dir) == -1.0)
    ensures Disc(s, ray) >= 0.0 && SqrMagnitude(ray.dir) != 0.0 ==> r == Fin(-HalfB(s, ray) - root / SqrMagnitude(ray.dir))
    ensures Disc(s, ray) >= 0.0 && SqrMagnitude(ray.dir) == 0.0 ==> r.NaN?
  {
    var oc := Sub(ray.origin, s.center);
    var a := SqrMagnitude(ray.dir);
    var halfB := Dot(oc, ray.dir);
    var c := SqrMagnitude(oc) - Square(s.radius);
    var discriminant := Square(halfB) - Times(a, c);
    if discriminant < 0.0 then Fin(-1.0)
    else if a == 0.0 then NaN
    else Fin(-halfB - root / a)
  }

  /** `hitsphere` with the quotient meant: `(-half_b - root) / a`. For a
      non-negative discriminant and a moving ray the point at the returned
      parameter is on the sphere. */
  function HitSphere(s: Sphere, ray: Ray, root: real): (r: Ext)
    requires Disc(s, ray) >= 0.0 ==> IsSqrt(root, Disc(s, ray))
    ensures Disc(s, ray) < 0.0 ==> r == Fin(-1.0)
    ensures Disc(s, ray) >= 0.0 && SqrMagnitude(ray.dir) != 0.0 ==>
      r.Fin? && SqrMagnitude(Sub(At(ray, r.v), s.center)) == Square(s.radius)
    ensures Disc(s, ray) >= 0.0 && SqrMagnitude(ray.dir) == 0.0 ==> r.NaN?
  {
    var a := SqrMagnitude(ray.dir);
    if Disc(s, ray) < 0.0 then Fin(-1.0)
    else if a == 0.0 then NaN
    else
      var t := (-HalfB(s, ray) - root) / a;
      assert Times(a, t) == -HalfB(s, ray) - root;
      assert Square(root) == Disc(s, ray);
      PointOnSphere(s, ray, root, t);
      Fin(t)
  }

  /** Two numbers with equal squares differ at most in sign. */
  lemma EqualSquares(k: real, w: real)
    requires w >= 0.0 && Square(k) == Square(w)
    ensures k >= -w
  {
    assert Times(k - w, k + w) == Square(k) - Square(w);
    if k != w {
      calc {
        k + w;
        Times(k - w, k + w) / (k - w);
        0.0;
      }
    }
  }

  /** Dividing both sides of an inequality by a positive factor. */
  lemma CancelPositive(a: real, x: real, y: real)
    requires a > 0.0 && Times(a, x) <= Times(a, y)
    ensures x <= y
  {
    assert Times(a, y - x) == Times(a, y) - Times(a, x);
  }

  /** The corrected `hitsphere` returns the nearest intersection: no point
      of the ray on the sphere has a smaller parameter. */
  lemma HitSphereNearest(s: Sphere, ray: Ray, root: real, t: real)
    requires Disc(s, ray) >= 0.0 && IsSqrt(root, Disc(s, ray))
    requires SqrMagnitude(ray.dir) != 0.0
    requires SqrMagnitude(Sub(At(ray, t), s.center)) == Square(s.radius)
    ensures HitSphere(s, ray, root).Fin? && HitSphere(s, ray, root).v <= t
  {
    var a, hb := SqrMagnitude(ray.dir), HalfB(s, ray);
    OnSphereIsRoot(s, ray, t);
    EqualSquares(Times(a, t) + hb, root);
    SqrMagnitudeZero(ray.dir);
    var r := HitSphere(s, ray, root).v;
    assert r == (-hb - root) / a;
    assert Times(a, r) == -hb - root;
    CancelPositive(a, r, t);
  }


  /** At the as-written parameter `t = -hb - w / a`, `a t + hb` is
      `hb (1 - a) - w`. */
  lemma AsWrittenOffset(a: real, hb: real, w: real)
    requires a != 0.0
    ensures Times(a, -hb - w / a) + hb == Times(hb, 1.0 - a) - w
  {
    calc {
      Times(a, -hb - w / a) + hb;
      -(a * hb) - a * (w / a) + hb;
      Times(hb, 1.0 - a) - w;
    }
  }

  /** `(k - w)^2 - w^2 = k (k - 2 w)`. */
  lemma SquareDifference(k: real, w: real)
    ensures Square(k - w) - Square(w) == Times(k, k - 2.0 * w)
  {
  }

  /** As written, `hitsphere` misses the sphere: whenever `half_b (1 - a)` is
      neither 0 nor twice the root (for the sphere of radius 0.5 at
      (0, 0, -1) and the ray from the origin along (0, 0, -2) it is 6, with
      root 1), the point at the returned parameter is off the sphere, so the
      result differs from the intended one. */
  lemma HitSphereOffSphere(s: Sphere, ray: Ray, root: real)
    requires Disc(s, ray) >= 0.0 && IsSqrt(root, Disc(s, ray))
    requires SqrMagnitude(ray.dir) != 0.0
    requires Times(HalfB(s, ray), 1.0 - SqrMagnitude(ray.dir)) != 0.0
    requires Times(HalfB(s, ray), 1.0 - SqrMagnitude(ray.dir)) != 2.0 * root
    ensures HitSphereAsWritten(s, ray, root).Fin?
    ensures SqrMagnitude(Sub(At(ray, HitSphereAsWritten(s, ray, root).v), s.center)) != Square(s.radius)
    ensures HitSphereAsWritten(s, ray, root) != HitSphere(s, ray, root)
  {
    var a, hb := SqrMagnitude(ray.dir), HalfB(s, ray);
    var t := -hb - root / a;
    var k := Times(hb, 1.0 - a);
    assert HitSphereAsWritten(s, ray, root) == Fin(t);
    AsWrittenOffset(a, hb, root);
    SquareDifference(k, root);
    NonzeroProduct(k, k - 2.0 * root);
    OnSphereIsRoot(s, ray, t);
  }
}
