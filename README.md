# Ray tracer core, modelled in Dafny

This project models the core of `ray-tracing-one-weekend-rs`, a small Rust ray tracer, and proves
properties of that model. Rust's `f64` is modelled as ideal `real`. `f64::sqrt` is a function
parameter constrained by `Vectors.IsSqrt`: on a non-negative argument it returns the non-negative
square root. Every random draw is an input: the sub-pixel offset, the unit vector of Lambertian
scattering, and the hemisphere sampler of the bounce.

The modules follow the source files:

| module | file | source |
|---|---|---|
| `Vectors` | `vec3.dfy` | `src/vec3.rs` |
| `Rays` | `ray.dfy` | `src/ray.rs` |
| `Intervals` | `interval.dfy` | `src/interval.rs` |
| `Hits` | `hit.dfy` | `src/hit.rs` |
| `Materials`, `Scattering` | `material.dfy` | `src/material.rs` |
| `Spheres` | `sphere.dfy` | `src/sphere.rs` |
| `Scene` | `hittable_list.dfy` | `src/hittable_list.rs` |
| `Colors` | `color.dfy` | `src/color.rs` |
| `Cameras` | `camera.dfy` | `src/camera.rs` |

`Options` (`option.dfy`) holds the `Option` datatype.

Pure code (vector operators, rays, clamp, hit records, sphere intersection, scattering, colour
quantisation, camera geometry and the recursive ray colour) is modelled as datatypes, functions and
lemmas. The in-place `add`/`scale`/`scale_inv` of `Vec3` are methods of the class
`Vectors.MutVec3`. `HittableList` is a class with a `seq<Sphere>` field. Its `add` appends to that
field, and its `hit` is the source's loop, proved against the recursive specification
`Scene.Nearest`.

The central result is about the scene's nearest-hit loop. Each sphere is queried on
`(min, closest_so_far)`. The lemma `Spheres.HitNarrowed` shows that this narrowed query returns
the sphere's own hit exactly when that hit lies below the bound. From it, the loop is shown to compute a simpler reference fold (`Scene.FirstNearest`) over the
spheres queried alone, and its result is shown to:
- be `None` exactly when no sphere is hit;
- be no farther than any sphere's own hit;
- be the hit of the first sphere reaching that distance.

Sphere intersection is proved correct against geometry: the selected root is the least parameter
in the open interval at which the ray lies on the sphere, and `None` means the ray meets the sphere
nowhere in that interval.

## Model

| member | source | states |
|---|---|---|
| Vectors.Neg | src/vec3.rs:16 | `v + neg(v)` is the zero vector |
| Vectors.AddThenSub | src/vec3.rs:57-67 | `(a + b) - b == a` and `(a + b) - a == b`: subtraction undoes `+` |
| Vectors.Sub | src/vec3.rs:79-90 | `a - b` is the zero vector exactly when `a == b` |
| Vectors.MulIdentityAndZero | src/vec3.rs:101-111 | scaling by 1 keeps the vector; scaling by 0, or scaling the zero vector, gives the zero vector |
| Vectors.Div | src/vec3.rs:113-126 | division by exactly zero panics and is excluded; dividing by 1 keeps the vector, and the result is zero exactly when the vector is |
| Vectors.DotWithZero | src/vec3.rs:42-44 | the dot product with the zero vector is 0 on either side |
| Vectors.DivThenMul | src/vec3.rs:101-125 | division by exactly zero panics and is excluded; dividing by a non-zero `s` and scaling by `s` gives back the vector |
| Vectors.LenSq | src/vec3.rs:35-37 | the squared length is non-negative, and positive for every non-zero vector |
| Vectors.LenSqIsDot | src/vec3.rs:35-44 | `len_sq(v) == dot(v, v)` |
| Vectors.DotSymmetric | src/vec3.rs:42-44 | `dot(a, b) == dot(b, a)` |
| Vectors.DotAddLeft | src/vec3.rs:42-44 | `dot` distributes over `+` |
| Vectors.DotNeg | src/vec3.rs:16 | negating one argument negates `dot` |
| Vectors.NegInvolutive | src/vec3.rs:16 | `neg(neg(v)) == v` |
| Vectors.LenSqNeg | src/vec3.rs:16 | negation keeps the squared length |
| Vectors.SubIsAddNeg | src/vec3.rs:79-90 | `a - b == a + neg(b)` |
| Vectors.LenSqAdd | src/vec3.rs:57-67 | `len_sq(a + b) == len_sq(a) + 2 dot(a, b) + len_sq(b)` |
| Vectors.Len | src/vec3.rs:39 | the length is non-negative, squares to `len_sq`, and is zero exactly for the zero vector |
| Vectors.UnitVec | src/vec3.rs:46-48 | a zero-length vector panics; otherwise the result has squared length 1, scales back to `v` by `len(v)`, and has every component in [-1, 1] |
| Vectors.MutVec3.constructor | src/vec3.rs:13 | a new vector holds the given components |
| Vectors.MutVec3.AddInPlace | src/vec3.rs:18-22 | in-place `add` leaves the value of the by-value `Add` of the old value and `other` |
| Vectors.MutVec3.Scale | src/vec3.rs:24-28 | every component is multiplied by `scalar` |
| Vectors.MutVec3.ScaleInv | src/vec3.rs:30-33 | equals `scale(1/scalar)`, and scaling the result by `scalar` restores the old value |
| Rays.Ray.At | src/ray.rs:16-18 | `at(t) - orig == dir * t` |
| Rays.AtZero | src/ray.rs:16-18 | `at(0) == orig` |
| Rays.AtZeroDirection | src/ray.rs:16-18 | with a zero direction every `at(t)` is the origin |
| Rays.AtAdditive | src/ray.rs:16-18 | `at(s + t) == at(s) + dir * t` |
| Intervals.Interval.Clamp | src/interval.rs:17-21 | below `min` gives `min`; otherwise above `max` gives `max`; a value in range is unchanged; when `min <= max` the result is in range |
| Intervals.ClampIdempotent | src/interval.rs:17-21 | clamping twice equals clamping once when `min <= max` |
| Intervals.ClampNotIdempotentWhenEmpty | src/interval.rs:17-21 | an interval with `min > max` where clamping twice differs from clamping once |
| Intervals.ClampMonotone | src/interval.rs:17-21 | `x <= y` implies `clamp(x) <= clamp(y)` when `min <= max` |
| Hits.HitRecord.New | src/hit.rs:22-31 | `front_face` holds exactly when `dot(dir, outward) < 0`; the normal is the outward one or its negation accordingly, never points along the ray, and keeps its squared length; point, t and material are stored unchanged |
| Hits.ReorientStable | src/hit.rs:22-31 | orienting a normal that already faces the ray keeps it |
| Hits.ReorientGrazingFlips | src/hit.rs:22-31 | a grazing ray (`dot == 0`) counts as a back face, so the normal is flipped |
| Scattering.Scatter | src/material.rs:41-46 | the attenuation is the albedo, the scattered ray starts at the hit point, and its direction minus the normal is the supplied unit vector |
| Scattering.ScatterIgnoresIncoming | src/material.rs:42 | the result does not depend on the incoming ray |
| Scattering.ScatterLeavesSurface | src/material.rs:43-44 | with a unit normal and unit sample the scattered direction never points into the surface, and it is zero exactly when the sample is the negated normal |
| Spheres.Sphere.New | src/sphere.rs:16-22 | a negative radius is stored as 0, any other radius as given |
| Spheres.DistanceQuadratic | src/sphere.rs:27-30 | the squared distance from the centre along the ray is `a t^2 - 2 h t + len_sq(oc)` |
| Spheres.OnSurfaceIffQuadratic | src/sphere.rs:27-30 | the ray is on the sphere at `t` exactly when `t` solves `a t^2 - 2 h t + c == 0` |
| Spheres.QuadraticRoots | src/sphere.rs:32-39 | for `a > 0` and a square root `s` of `h*h - a*c`, the solutions are exactly `(h - s)/a <= (h + s)/a` |
| Spheres.OnSurfaceIffRoot | src/sphere.rs:27-39 | with a non-negative discriminant, the ray is on the sphere at `t` exactly when `t` is the near or the far root, and near <= far |
| Spheres.AllRoots | src/sphere.rs:27-39 | the same for all `t` at once |
| Spheres.NoRoots | src/sphere.rs:32-35 | with a negative discriminant the ray never meets the sphere |
| Spheres.Sphere.Root | src/sphere.rs:26-43 | a negative discriminant gives `None`; a chosen root lies strictly inside the interval, is on the sphere, and is the least such parameter; `None` means no parameter in the interval is on the sphere |
| Spheres.Sphere.Hit | src/sphere.rs:26-49 | a zero radius reaching the normal division is excluded; the hit exists exactly when a root does; its `t` is the root, its point is `at(t)`, its material is the sphere's, its normal is a unit vector facing the ray, and `front_face` is computed from `(point - center) / radius`; the normal is `(point - center) / radius` on a front face and its negation on a back face |
| Spheres.RootNarrowed | src/sphere.rs:37-43 | querying with a smaller exclusive upper bound `c` gives the same root when it lies below `c`, and `None` otherwise |
| Spheres.HitNarrowed | src/sphere.rs:26-49 | the same for the hit record, and the narrowed query is still free of the zero-radius division |
| Scene.Nearest | src/hittable_list.rs:25-38 | the hit held after visiting the spheres in order has `t` strictly inside the interval and a unit normal facing the ray |
| Scene.FirstNearestNoneIff | src/hittable_list.rs:26-37 | the reference fold (a solo result replaces the held one only when strictly closer) finds nothing exactly when every solo result is `None` |
| Scene.FirstNearestIsMinimal | src/hittable_list.rs:27-36 | the reference fold's result is no farther than any solo result |
| Scene.FirstNearestIsEarliest | src/hittable_list.rs:29-31 | the reference fold's result is the solo result at some index, and every earlier solo result is strictly farther |
| Scene.NearestUnfold | src/hittable_list.rs:28-35 | the last sphere's narrowed query replaces the result over the others exactly when its solo hit is strictly closer, or the others found nothing |
| Scene.NearestIsFirstNearest | src/hittable_list.rs:25-38 | the loop with its narrowing upper bound computes the reference fold over the spheres queried alone on the full interval |
| Scene.NearestNoneIff | src/hittable_list.rs:26-37 | the result is `None` exactly when no sphere is hit on the interval alone; an empty list gives `None` |
| Scene.NearestIsMinimal | src/hittable_list.rs:27-36 | the returned `t` is no greater than that of any sphere queried alone |
| Scene.NearestIsEarliest | src/hittable_list.rs:29-31 | the returned hit is that of a sphere that no earlier sphere hits at the same or a smaller `t` |
| Scene.NearestStep | src/hittable_list.rs:28-35 | one loop iteration: the sphere is queried below the closest hit so far, and a hit replaces the previous result |
| Scene.NearestIsClosest | src/hittable_list.rs:25-38 | the three properties above together |
| Scene.ClosestNeverIncreases | src/hittable_list.rs:27-33 | `closest_so_far` never increases from one iteration to the next |
| Scene.HittableList.constructor | src/hittable_list.rs:13-17 | a new list is empty |
| Scene.HittableList.Add | src/hittable_list.rs:19-21 | the sphere is appended; earlier spheres and their order are unchanged |
| Scene.HittableList.Hit | src/hittable_list.rs:24-39 | the loop returns `Nearest`: `None` exactly when no sphere is hit; otherwise `t` is strictly inside the interval, no farther than any sphere's own hit, and the hit of the first sphere at that distance |
| Colors.ColorToBytes | src/color.rs:7-12 | black gives the bytes `0 0 0`; a colour with every channel at least 1 gives `255 255 255` |
| Colors.Channel | src/color.rs:8-12 | a channel `<= 0` gives 0, `>= 0.999` gives 255, and in between `floor(256 c)`; always a byte |
| Colors.ChannelMonotone | src/color.rs:10-12 | quantisation is monotone |
| Colors.ChannelRoundTrip | src/color.rs:10-12 | `k/256` quantises back to `k` for every byte `k`, so every byte value is reached |
| Colors.ChannelsIndependent | src/color.rs:10-12 | each byte depends only on its own channel |
| Cameras.ComputeImageHeight | src/camera.rs:21-28 | the height is at least 1; it is `floor(width / aspect)` whenever that is at least 1 and fits in `u32`, 1 below that, and `u32::MAX` above |
| Cameras.AspectRatioRecoversWidth | src/camera.rs:30-33 | the aspect ratio times the height is the width; it is non-negative, and 1 for a square image |
| Cameras.Camera.New | src/camera.rs:41-73 | a zero width panics and is excluded; the camera has the computed height, sits at the origin, and has square pixels of side `2/height` on a viewport at `z = -1`, with pixel (0, 0) half a step inside the upper-left corner |
| Cameras.Camera.Place | src/camera.rs:44-72 | the viewport and pixel-grid part of `new`, with the same closed form |
| Cameras.GridClosedForm | src/camera.rs:52-61 | the pixel deltas and the upper-left pixel centre in closed form |
| Cameras.Camera.GetRay | src/camera.rs:75-81 | the ray starts at the camera centre and passes through the sample point of the pixel for the supplied offset |
| Cameras.GetRayInPixel | src/camera.rs:75-81 | with an offset in `[-0.5, 0.5]^2` the ray passes through the viewport at `z = -1`, inside the cell of pixel (row, col) |
| Cameras.PixelGridCentred | src/camera.rs:59-61 | mirrored pixel centres sum to `(0, 0, -2)`: the grid is centred on the view axis |
| Cameras.Sky | src/camera.rs:94-97 | for a unit direction every channel of the background lies in [0.5, 1], and blue is 1 |
| Cameras.SkyEnds | src/camera.rs:94-97 | straight down gives white; straight up gives `(0.5, 0.7, 1.0)` |
| Cameras.Camera.RayColor | src/camera.rs:85-100 | black at the depth limit; every channel in [0, 1]; a miss shows the sky of the unit direction; a hit gives at most half intensity per channel; terminates with measure `max_depth - depth` |

## Left out

- `Camera::render` (src/camera.rs:102-120): it prints the PPM header, the pixels and the progress messages, and it holds the per-sample accumulation. This is I/O and is not modelled.
- The text produced by `format!` in `color_to_string` and by `impl fmt::Display for Vec3`: only the byte quantisation is modelled (`Colors.ColorToBytes`).
- Randomness is not modelled. `src/util.rs`, `sample_square` and the unit-vector samplers become parameters: the `offset` of `GetRay`, the `randomUnit` of `Scatter`, and the `hemisphere` function of `RayColor`. The sampler is indexed by bounce depth and normal and is assumed to return a unit vector on the normal's side. The source calls samplers that it does not define (`random_f64`, `uniform_random_unit_vec*`) and uses `Neg`, `AddAssign` and `DivAssign` impls that it does not have; the model gives these the meaning their names state.
- IEEE-754 behaviour is not modelled: rounding, NaN and infinity. Where the source would divide by zero without panicking, the model requires a non-zero divisor instead:
  - the sphere's `/ a` when the ray direction is zero;
  - `scale_inv(0)`;
  - `actual_aspect_ratio` with height 0;
  - `compute_image_height` with aspect ratio 0.
- `f64::MAX` is the exact real value of the largest finite double. The `as u32` and `as u8` casts are modelled as saturating truncation.
- Spheres.Sphere.Root, Spheres.Sphere.Hit and Scene.HittableList.Hit require a non-zero ray direction. With a zero direction, IEEE arithmetic computes `0/0`; that case is left out.
- Scene.HittableList.Hit and Scene.Nearest require every zero-radius sphere to have no root on the whole query interval. This is stronger than the source, which divides by the zero radius (and panics) only when the narrowed query on `(min, closest_so_far)` finds a root. A zero-radius sphere behind a closer hit is therefore excluded here but harmless in the source. The comparison with the reference fold `Scene.FirstNearest` queries every sphere alone on the whole interval, so every such query must be defined.
- Vectors.Add, Vectors.Mul, Vectors.Dot and Cameras.ActualAspectRatio carry no `ensures` of their own. Their properties are stated as lemmas (`Vectors.AddThenSub`, `Vectors.MulIdentityAndZero`, `Vectors.DotWithZero`, `Vectors.DotSymmetric`, `Cameras.AspectRatioRecoversWidth`), because these functions occur in nearly every proof about the camera and the sphere.
- Cameras.Camera.RayColor requires every sphere's radius to be non-zero. This is stronger than needed: the source only panics when a zero-radius sphere is actually hit. The stronger condition keeps the requirement independent of the bounced rays.
- The by-reference operators `Add<&Self>` and `Sub<&Self>` forward to the by-value ones. They are the same functions `Vectors.Add` and `Vectors.Sub`.
- `Vec3::new`, the accessors of `Ray`, `Interval`, `HitRecord`, `ScatterResult` and `Lambertian`, and `Lambertian::new` are datatype constructors and fields, so they need no separate members.
- `Rc<dyn Hit>` and `Rc<dyn Material>` sharing and trait dispatch are replaced by datatypes. `Sphere` is the only geometry and `Lambertian` the only material in this code, so `HittableList` holds `Sphere` values and the `Hit` trait's contract is stated on `Sphere.Hit`.
- Intervals.ClampIdempotent and Intervals.ClampMonotone require `min <= max`. For an empty interval clamping is not idempotent (`Intervals.ClampNotIdempotentWhenEmpty`).
- `src/main.rs` only wires up a scene and a camera, so it is not part of this model.
