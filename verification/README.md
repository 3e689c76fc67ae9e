# A verified model of the core of a small Rust ray tracer

This project models the geometric core of a "ray tracing in one weekend"
style renderer written in Rust. It is a Dafny model of what that core
computes, with proofs of properties of that model:

- **Vectors.** The vector arithmetic of `Vector3`: sums, differences,
  scaling, componentwise products and quotients, dot and cross products,
  reflection and normalisation.
- **Rays.** The `Ray` value: the point at a parameter, and the inverted
  direction and sign vector that `Ray::new` precomputes.
- **Hit testing.** The hittable list, which scans its objects and keeps
  the nearest hit, and the quadratic ray–sphere intersection.
- **Bounding volumes.** Bounding boxes: the two sentinels, boxes around
  spheres, fitting to points, the longest axis and the slab test. Also
  one step of the BVH builder (sort, partition, split) and node traversal.
- **Renderer helpers.** The pure helpers of the entry point: `clamp`,
  colour quantisation and 0RGB packing, pixel index arithmetic, the
  reversed buffer slot, the batched render loop and the stand-alone
  `hitsphere` test.
- **OBJ loading.** The Wavefront OBJ loader: line splitting, the
  two-byte record tag, and vertex and face records with their index
  arithmetic and panics.

Real numbers stand in for `f64` without rounding. Where the source relies
on IEEE special values, the model keeps them explicitly in `ExtReal.Ext`
(`Fin`, `PosInf`, `NegInf`, `NaN`). These are the empty-box sentinels,
the reciprocal of a zero direction component, NaN-ignoring
`f64::max`/`f64::min`, and the saturating `as u8` cast.

`f64::sqrt` is never computed. A member that needs a square root takes it
as a parameter, constrained by `Vectors.IsSqrt`.

Panics are values. In the BVH they are `Step.Panic` and
`Traversal.Panicked`; in the OBJ loader they are `Parsed.Fail`, with the
reason recorded.

Modules, one per source file: `Wrappers` (Option), `ExtReal`, `Vectors`
(src/vectors.rs), `Rays` (src/ray.rs), `Hit` (src/hit.rs), `Bvh`
(src/BVH.rs), `Pixels` (src/main.rs), `ObjLoader` (src/objLoader.rs).

## Model

| member | source | states |
|---|---|---|
| ExtReal.Max | src/BVH.rs:57-59 | `f64::max` ignores a NaN argument; on two numbers it returns one of them, and it is at least both |
| ExtReal.Min | src/BVH.rs:60-62 | `f64::min` ignores a NaN argument; on two numbers it returns one of them, and it is at most both |
| Vectors.FromTupleRoundTrip | src/vectors.rs:39-45 | `from_tuple` and reading the components back as a tuple are inverse, so distinct tuples give distinct vectors |
| Vectors.InfVecAbove | src/vectors.rs:113-119 | `inf()` is strictly above every finite vector on each axis; for any non-NaN value it absorbs `f64::max` and is neutral for `f64::min` |
| Vectors.NegInfVec | src/vectors.rs:120-126 | as written, `neg_inf` is the same vector as `inf`: no component is -inf |
| Vectors.NegInfVecIntended | src/vectors.rs:120-126 | the intended `neg_inf` negates `inf` componentwise, so every component is -inf and it differs from the as-written vector |
| Vectors.Sub | src/vectors.rs:338-364 | subtraction is undone by adding back; the difference is zero exactly when the operands are equal |
| Vectors.Scale | src/vectors.rs:366-381 | scaling by 1 is the identity and scaling by 0 gives the zero vector |
| Vectors.MulComp | src/vectors.rs:382-398 | the componentwise product with the all-ones vector is the identity |
| Vectors.DivScalar | src/vectors.rs:202-247 | dividing by a non-zero scalar is undone by scaling by it |
| Vectors.DivComp | src/vectors.rs:32-38 | componentwise division by a vector with no zero component is undone by the componentwise product |
| Vectors.Cross | src/vectors.rs:192-199 | the cross product is orthogonal to both operands |
| Vectors.CrossAnticommutes | src/vectors.rs:192-199 | swapping the operands negates the cross product; a vector crossed with itself is zero |
| Vectors.Reflect | src/vectors.rs:87-90 | reflecting about a unit normal negates the component along that normal |
| Vectors.Normalized | src/vectors.rs:175-182 | the zero vector maps to itself; any other vector maps to a unit vector that, scaled by the magnitude, gives the input back |
| Vectors.DivideByMagnitude | src/vectors.rs:175-182 | a non-zero vector divided by its magnitude has squared magnitude 1 |
| Vectors.MagnitudeZero | src/vectors.rs:183-188 | the magnitude is zero exactly for the zero vector |
| Vectors.SqrMagnitudeZero | src/vectors.rs:183-185 | the squared magnitude is non-negative and zero exactly for the zero vector |
| Vectors.DotCommutes | src/vectors.rs:183-191 | the dot product is symmetric, and a vector dotted with itself is its squared magnitude |
| Vectors.DotReversed | src/vectors.rs:189-191 | dotting with a negated vector negates the dot product |
| Vectors.AddCommutes | src/vectors.rs:310-336 | addition is commutative and the zero vector is its identity |
| Vectors.SumAppend | src/vectors.rs:272-309 | the sum of a concatenation is the sum of the two partial sums |
| Rays.At | src/ray.rs:16-18 | the point at `t` is the origin displaced by `t` times the direction; at 0 it is the origin |
| Rays.AtShift | src/ray.rs:16-18 | advancing the parameter by `t2` moves the point by `t2` times the direction |
| Rays.InvNeg | src/ray.rs:20 | `1.0 / (-1.0 * d)` is finite exactly when `d` is non-zero, and then times `-d` it gives 1; for a zero component it is -inf (the product is -0.0) |
| Rays.NewRay | src/ray.rs:19-31 | the ray keeps origin and direction, stores the negated reciprocal direction, and each sign is 1 exactly when that direction component is non-negative |
| Hit.HitList | src/hit.rs:31-46 | the imperative scan with the shrinking `closest_hit` computes the same result as the fold over the list |
| Hit.ListHitNone | src/hit.rs:31-46 | the list reports no hit exactly when every object misses the full window `(t_min, t_max)`; in particular an empty list is never hit |
| Hit.ListHitWindow | src/hit.rs:31-46 | when every object's test answers inside its window, the list's answer lies strictly between `t_min` and `t_max` |
| Hit.FirstNearestUnique | src/hit.rs:31-46 | at most one object is the first one among those at the nearest distance |
| Hit.ListHitFindsFirstNearest | src/hit.rs:31-46 | a list hit is the answer of the first object whose hit is nearest, and no object's hit in the window is nearer |
| Hit.ListHitNearest | src/hit.rs:31-46 | the list answers exactly with the first nearest object's own hit, and nothing in the window is nearer |
| Hit.ListHitEdits | src/hit.rs:23-46 | after `clear` nothing is hit; after `add` a hit is never lost, and it either stays the same or becomes strictly nearer |
| Hit.DiscPositive | src/hit.rs:54-59 | a positive discriminant implies a moving ray and a non-zero radius, so neither division by `a` nor by the radius is by zero |
| Hit.ZeroRadiusDisc | src/hit.rs:54-58 | a sphere of radius zero never has a positive discriminant |
| Hit.CauchySchwarz | src/hit.rs:55-58 | the squared `half_b` never exceeds `a` times the squared length of `oc`, the bound used for the two discriminant lemmas |
| Hit.SphereHit | src/hit.rs:53-92 | tangency or a miss gives None; the result lies in the window; the near root is chosen when it is inside the window; otherwise only the far root can be returned, and the record still carries the near point, near normal and near facing; the normal always faces against the ray |
| Hit.PointOnSphere | src/hit.rs:55-62 | a parameter with `a t = -half_b - root` puts the ray's point on the sphere |
| Hit.OnSphereIsRoot | src/hit.rs:55-62 | conversely, any parameter whose point is on the sphere satisfies `(a t + half_b)^2 = discriminant` |
| Hit.RootsOnSphere | src/hit.rs:59-78 | both roots the code computes put the ray's point on the sphere |
| Hit.NearBeforeFar | src/hit.rs:61-77 | the near root is strictly smaller than the far root |
| Hit.AtInjective | src/ray.rs:16-18 | a moving ray visits a different point at every parameter |
| Hit.FarHitKeepsNearPoint | src/hit.rs:77-89 | when the far root is returned, the record's point is the near one, which is not the point at the returned `t` |
| Hit.SphereNarrows | src/hit.rs:53-92 | shrinking `t_max` filters the sphere's answer instead of changing it; this is what the list's shrinking window relies on |
| Hit.SpheresAreWellBehaved | src/hit.rs:31-92 | spheres meet both assumptions of the list lemmas: answers inside the window, and narrowing is filtering |
| Bvh.InfinityAlwaysHit | src/BVH.rs:33-39 | `infinity()` never prunes: for every ray built by `Ray::new` each axis enters at -inf and leaves at +inf, so the slab test succeeds |
| Bvh.NewIsWidenIdentity | src/BVH.rs:40-46 | `new()` is the identity of widening: widened by non-NaN corners it becomes exactly those corners |
| Bvh.FromSphere | src/BVH.rs:47-53 | the box spans the centre minus and plus the radius on every axis and is centred on the sphere's centre |
| Bvh.FromSphereContainsBall | src/BVH.rs:47-53 | every point of the ball lies in its box |
| Bvh.WidenGrows | src/BVH.rs:57-62 | one loop iteration only grows the box, covers the point's non-NaN coordinates, and each new corner is the old one or the point's |
| Bvh.ExtentSpans | src/BVH.rs:64-68 | on a finite slab with ordered corners the extent is a non-negative width with `min + extent == max` |
| Bvh.RecenterKeepsTests | src/BVH.rs:64-68 | setting `center` changes neither which points the box contains nor the slab test, and doing it twice is doing it once |
| Bvh.FitPointsWidens | src/BVH.rs:55-69 | from any box with non-NaN corners, fitting only grows the box, ends containing every non-NaN point coordinate, and sets `center` to the extent |
| Bvh.FitLoopBounds | src/BVH.rs:55-63 | the loop only grows the box, and every non-NaN coordinate of a point ends up between the corners |
| Bvh.FitLoopAttained | src/BVH.rs:55-63 | starting from the empty box, each corner coordinate is a coordinate of one of the points |
| Bvh.FitPointsFromNew | src/BVH.rs:40-69 | fitting the empty box to points gives the tightest box: it contains every point and each corner is attained |
| Bvh.CenterIsExtent | src/BVH.rs:64-68 | for the points (10,10,10) and (11,11,11) the `center` is (1,1,1), which lies outside the box |
| Bvh.FromHittablesTight | src/BVH.rs:70-86 | over a non-empty list of ordered boxes the result is the tightest box: it contains each object's box and each corner coordinate is that corner of some object |
| Bvh.HittablesLoopAttained | src/BVH.rs:72-79 | starting from `new()`, each corner coordinate the loop ends with is that corner of one of the boxes |
| Bvh.HittablesLoopBounds | src/BVH.rs:72-79 | the loop only grows the box and ends containing every object's box |
| Bvh.FromHittablesContains | src/BVH.rs:70-86 | the result contains every object's box on every axis |
| Bvh.Dist | src/BVH.rs:90 | the distance closure gives a non-negative number whenever its arguments are numbers and not equal infinities |
| Bvh.LongestAxis | src/BVH.rs:87-103 | the chosen axis has the largest extent; ties go to y over x and to the earlier axis over z |
| Bvh.IndexCorners | src/BVH.rs:21-31 | for a sign bit `s`, `self[s]` and `self[1 - s]` are the box's two corners, one each, with `self[1]` the maximum |
| Bvh.AxisInterval | src/BVH.rs:105-108 | on one axis with a non-zero direction the slab gives an ordered interval, and `-u` lies in it exactly when the ray's coordinate at `u` is inside the slab |
| Bvh.ValidAxis | src/ray.rs:19-31 | a ray built by `Ray::new` has on each axis the inverted component and sign the slab test relies on |
| Bvh.SlabValues | src/BVH.rs:105-120 | for a finite slab, the near and far values are `(corner - origin) * inv` with the corner chosen by the direction's sign |
| Bvh.SlabAxis | src/BVH.rs:105-120 | the per-axis interval is ordered, and its membership test is the slab membership of the ray's point |
| Bvh.SlabHitFindsPoint | src/BVH.rs:104-133 | when the slab test succeeds, the ray's line has a point inside the box |
| Bvh.PointPassesSlab | src/BVH.rs:104-133 | when a point of the ray's line is inside the box, the slab test succeeds |
| Bvh.SlabHitIsLineTest | src/BVH.rs:104-133 | for a finite box and a ray with no zero direction component, the slab test answers yes exactly when some point of the ray's line is in the box, ignoring the `t` window |
| Bvh.BuilderCorners | src/BVH.rs:189-194 | fitting the builder's box to each object's two corners gives the corners `from_hittables` gives on the selected objects |
| Bvh.BuilderBoxIsFromHittables | src/BVH.rs:186-194 | for a non-empty selection the builder's box is exactly `from_hittables` on the selected objects |
| Bvh.BuilderBoxContains | src/BVH.rs:189-194 | the builder's box contains the box of every selected object |
| Bvh.Insert | src/BVH.rs:208-212 | one insertion step keeps every element and adds the new one |
| Bvh.SortByKey | src/BVH.rs:208-212 | the sort is a permutation of the indices |
| Bvh.InsertMembers | src/BVH.rs:208-212 | insertion introduces no element other than the inserted one |
| Bvh.InsertKeys | src/BVH.rs:208-212 | insertion keeps every sort key a number, so the comparator's `unwrap` cannot fail later |
| Bvh.InsertSorted | src/BVH.rs:208-212 | inserting into a list sorted by centre keeps it sorted |
| Bvh.SortSorted | src/BVH.rs:208-212 | with NaN-free keys, the sort orders the indices by their objects' centres on the chosen axis |
| Bvh.SortedSplit | src/BVH.rs:208-212 | a list of fewer than two indices, or one with NaN-free keys, comes out sorted; the comparator is never asked to compare a NaN |
| Bvh.BuildStep | src/BVH.rs:186-232 | an out-of-range index panics, and so does comparing a NaN centre when sorting two or three indices; more than three indices give a childless leaf; otherwise the box is fitted, the indices are sorted along the longest axis and split at the partition point, with the larger centres on the left |
| Bvh.SplitNeverEnds | src/BVH.rs:197-230 | a split hands each child at most three indices, so the "more than three" leaf case is never reached again and the recursion never stops |
| Bvh.EmptySplitsIntoEmpty | src/BVH.rs:186-232 | an empty index list does not become a leaf: it splits into two empty lists under the empty box |
| Bvh.RangeEnumerates | src/BVH.rs:180-183 | the initial index list names every object index below `n` exactly once and nothing else |
| Bvh.CreateFromHList | src/BVH.rs:180-183 | more than three objects give a childless leaf over all indices; zero or one object goes on to split |
| Bvh.NodeHit | src/BVH.rs:148-172 | traversal never reports a hit; a small node with a bad index panics; a missed box is a miss; a hit box without a left child panics |
| Pixels.Clamp | src/main.rs:57-65 | for ordered bounds the result lies between them; a value already in range is unchanged; NaN passes through; crossed bounds return `min` for values below it |
| Pixels.ClampIdempotent | src/main.rs:57-65 | for ordered bounds, clamping twice equals clamping once |
| Pixels.ClampCrossedBounds | src/main.rs:57-65 | with `min` above `max`, clamping 0 gives `min`, and clamping again gives `max`: not idempotent |
| Pixels.CastU8 | src/main.rs:308-316 | `as u8` saturates: NaN, -inf and every negative value give 0, +inf and every value from 256 up give 255, and in-range values are truncated toward zero |
| Pixels.Quantise | src/main.rs:308-316 | given the square root of a channel, `clamp` to [0,1], scale by 255 and `as u8`: a value in [0,1] becomes `floor(255 c)`; values at or above 1 give 255; values at or below 0, and NaN, give 0 |
| Pixels.FromU8Rgb | src/main.rs:319-322 | the packed value fits in 24 bits with red, green and blue in bytes 2, 1 and 0 |
| Pixels.PackRoundTrip | src/main.rs:319-322 | unpacking gives back the three channels, and packing is injective |
| Pixels.PixelValue | src/main.rs:312-316 | the pixel's packed value unpacks to the three quantised channels |
| Pixels.PixelCoords | src/main.rs:295-296 | `i` is below the width and `j * width + i` is the buffer index |
| Pixels.PixelCoordsRoundTrip | src/main.rs:295-296 | index-to-coordinates and coordinates-to-index are inverse bijections |
| Pixels.Slot | src/main.rs:370 | the reversed slot `size - 1 - j` is in range and mirrors `j` |
| Pixels.SlotBijective | src/main.rs:370 | the reversal is its own inverse, hence injective: no two pixels share a slot |
| Pixels.Batch | src/main.rs:365 | the batch is `size / 18` with integer division |
| Pixels.IntervalAppend | src/main.rs:364-379 | two adjacent ranges concatenate to the combined range |
| Pixels.RenderFrame | src/main.rs:364-379 | a frame renders the next batch, cut off at the buffer's end, and advances by the batch; once the cursor reaches the size nothing happens |
| Pixels.FramesCoverBuffer | src/main.rs:364-379 | after any number of frames exactly a prefix of the buffer has been rendered, each pixel once and in order; for a buffer of at least 18 pixels every frame makes progress, so the whole buffer is eventually covered |
| Pixels.SmallBufferNeverRenders | src/main.rs:365-379 | with fewer than 18 pixels the batch is 0 and no frame renders anything |
| Pixels.HitSphereAsWritten | src/main.rs:66-77 | -1 for a negative discriminant; otherwise `-half_b - root / a`, and NaN when `a` is zero |
| Pixels.HitSphereOffSphere | src/main.rs:75 | whenever `half_b (1 - a)` is neither 0 nor `2 root`, the as-written value is a number whose point is not on the sphere, and it differs from the corrected value |
| Pixels.HitSphere | src/main.rs:66-77 | the corrected test gives -1 for a negative discriminant; otherwise, for a moving ray, a parameter whose point is on the sphere |
| Pixels.HitSphereNearest | src/main.rs:66-77 | the corrected test returns the nearest intersection: every parameter whose point is on the sphere is at least the returned one |
| ObjLoader.Utf8Len | src/objLoader.rs:33 | a character takes 1 to 4 bytes in UTF-8, and 1 exactly for ASCII |
| ObjLoader.LineLength | src/objLoader.rs:29 | `read_line` reads up to and including the first newline, or to the end of the text |
| ObjLoader.Lines | src/objLoader.rs:27-32 | the loop sees only non-empty lines; a zero-byte read ends it |
| ObjLoader.LinesRoundTrip | src/objLoader.rs:27-32 | the lines concatenate back to the whole text |
| ObjLoader.LinesEndInNewline | src/objLoader.rs:27-32 | every line but the last ends in a newline |
| ObjLoader.FirstTwoBytes | src/objLoader.rs:33 | `&line[0..2]` panics on a line shorter than two bytes or one where byte 2 falls inside a character; otherwise it gives the leading one or two characters |
| ObjLoader.Classify | src/objLoader.rs:33-69 | a line is a vertex record exactly when it starts with "v ", a face record exactly when it starts with "f ", and panics exactly when the slice panics |
| ObjLoader.ClassifyExamples | src/objLoader.rs:33-69 | a blank line panics on the slice; a comment and a "vn" line are ignored; "v 1 2 3" is a vertex record |
| ObjLoader.RunLength | src/objLoader.rs:36 | the length of the leading run of non-whitespace characters |
| ObjLoader.Tokens | src/objLoader.rs:36 | `split_whitespace` yields non-empty tokens without whitespace |
| ObjLoader.TokensConcat | src/objLoader.rs:36 | the tokens concatenated are the line with its whitespace removed: only whitespace is dropped |
| ObjLoader.TokensSplit | src/objLoader.rs:36 | a whitespace character separates tokens: the tokens around it are those of each side, in order, so no token spans whitespace |
| ObjLoader.TokensOfWord | src/objLoader.rs:36 | a non-empty word without whitespace is exactly one token |
| ObjLoader.TagToken | src/objLoader.rs:36-37 | a one-character tag followed by whitespace is the first token, and the remaining tokens are those of the rest of the line |
| ObjLoader.TagAssertHolds | src/objLoader.rs:33-47 | the `assert_eq!` on the record tag never fails for a line the match sent there |
| ObjLoader.ParseVertex | src/objLoader.rs:36-42 | a vertex record succeeds exactly when it has three parsable coordinates after the tag, and gives those three values |
| ObjLoader.Vertex | src/objLoader.rs:51-54 | a face index `idx > 0` selects `points[(idx - 1) % len]`, a point that was loaded; index 0 underflows; no points yet is a division by zero |
| ObjLoader.ParseFace | src/objLoader.rs:46-56 | a face record succeeds exactly when its three indices parse, are positive and points exist, and its corners are the selected points |
| ObjLoader.Step | src/objLoader.rs:33-69 | a short line panics; an ignored line changes nothing; a vertex record appends exactly its point; a face record appends exactly its triangle |
| ObjLoader.ObjToTrilist | src/objLoader.rs:18-74 | an empty file gives no triangles |
| ObjLoader.ReadAll | src/objLoader.rs:27-73 | the read loop computes the same result as the fold over the file's lines |
| ObjLoader.LoadCounts | src/objLoader.rs:27-70 | loading keeps what was loaded before, and adds one point per vertex record and one triangle per face record |
| ObjLoader.LoadKeepsVertices | src/objLoader.rs:27-70 | every corner of every loaded triangle is a loaded point |
| ObjLoader.StepKeepsVertices | src/objLoader.rs:33-69 | one record preserves "every triangle's corners are loaded points" |
| ObjLoader.TrilistShape | src/objLoader.rs:18-74 | a successful load has exactly one triangle per face record of the file |
| ObjLoader.FaceBeforePoints | src/objLoader.rs:54 | a face record before any vertex record panics on the modulo by zero |
| ObjLoader.FaceIndexZero | src/objLoader.rs:51-54 | a face index of 0 panics on the `idx - 1` underflow |

## Left out

- Materials, the camera, the scene setup (`makeWorld`), `raycolor` and the generic-vector backup file are not part of this model. A sphere's material is an opaque number.
- The window, threads, timing and file I/O are left out: `minifb`, the rayon worker, the atomic counters, `Instant`, opening the OBJ file and the I/O errors of `read_line`. The OBJ text is a parameter.
- The `f64` text parsers are left out. `str::parse::<f64>` and `str::parse::<usize>` are parameters (`FloatParser`, `IndexParser`), and a `None` from either is the `unwrap` panic.
- Rounding and signed zero are not modelled: arithmetic is exact on reals. The one place signed zero changes a result is `1.0 / (-1.0 * 0.0) = -inf` in `Ray::new`, and that case is written out for a zero component taken to be `+0.0`. A `-0.0` component, which the camera or scatter arithmetic can produce, would give +inf and sign bit 0 instead; the model does not distinguish it.
- `f64::sqrt` is a parameter constrained by `IsSqrt`, not a computed value.
- Random sampling is left out because it is randomness: `random`, `random_range`, `random_in_unit_disk`, `random_unit_vector`, `random_in_hemisphere`, `random_in_unitsphere`.
- Also left out, because nothing in the modelled core calls them: `refract`, `from_vector`, `up`, `right`, `forward` and `Display`.
- The generic `Vector3<T>` is modelled only at `T = f64`: `Vec3` holds finite components and `EVec3` holds IEEE values.
- `f64 / &Vector3` is modelled only where it is used, as `Rays.InvNeg` in `Ray::new`.
- Objects other than spheres are not modelled as a type. The list and the BVH take an object's hit test as a function and an object's box as a `Bounds` value. The BVH's shared reference to the object list is the `boxes` sequence.
- Bvh.BuildStep: models one call of `from_HittableList`, with the partition point as a parameter, not the whole recursion. The source's recursion does not terminate: its base case returns for more than three indices, so a split child never meets it again (`Bvh.SplitNeverEnds`). A total Dafny function cannot follow that recursion.
- Bvh.SortSorted: proves that the result is sorted and a permutation, but not that `sort_by` is stable.
- Bvh.NodeHit: the descent into a hit left child is followed only as far as the panic or miss cases stated. A traversal that reaches a leaf through children is not given a contract beyond "never a hit".
- Bvh.CreateFromHList: the source's `[0..len].iter().collect()` collects a one-element array of ranges and does not type-check as written. The model uses the evident index list 0..n-1.
- ObjLoader.Vertex: `idx - 1` with `idx = 0` is modelled as the debug-build overflow panic. A release build wraps it to `usize::MAX`.
- ObjLoader.Step: a vertex or face line with more tokens than needed ignores the extra ones, as the source does. The model does not distinguish a failed `get` from the modulo's panic, since `% len` keeps the index in range.
- ObjLoader.ObjToTrilist: triangles are records of three `EVec3` corners rather than nested `Vec<Vec<f64>>`.
- Pixels.PixelCoords: the source's `%` and `/` by a zero width would panic. The model requires a positive width instead of modelling that panic.
- Pixels.RenderFrame: the pixel colours are not modelled here, only which slots a frame renders. Colours come from `raycolor`, which is out of scope.

## Findings

| source | as written | input that shows it | evidently intended | confidence | as-written member | corrected member |
|---|---|---|---|---|---|---|
| src/main.rs:75 | `-half_b - discriminant.sqrt() / a` divides only the root by `a` | sphere at (0,0,-1) with radius 0.5 and ray from the origin along (0,0,-2): a = 4, half_b = -2, root = 1; it returns 1.75, whose point (0,0,-3.5) is 2.5 from the centre, instead of 0.25 | `(-half_b - discriminant.sqrt()) / a`, the near root as in `Sphere::hit` | high; not executed | Pixels.HitSphereOffSphere | Pixels.HitSphere |
| src/vectors.rs:120-126 | `neg_inf` fills every component with `f64::INFINITY` | `Vector3::neg_inf()` returns (+inf, +inf, +inf) | every component `f64::NEG_INFINITY` | high; not executed | Vectors.NegInfVec | Vectors.NegInfVecIntended |
