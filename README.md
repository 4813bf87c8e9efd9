# A verified model of a small Whitted-style ray tracer

This project models the core of `ray_tracer.js`, a browser ray tracer that
renders spheres and infinite planes lit by point lights. For every pixel it
shoots a ray from the camera. It finds the nearest primitive the ray hits,
lights that point with ambient light plus every light whose shadow ray is
unobstructed, and recursively blends in what a mirror reflection sees, up to a
fixed depth. The resulting colour is written into the canvas's RGBA buffer.

The model is written over the reals and has six modules:

- `Optional`: the "no hit" result.
- `Vectors`: the gl-matrix `vec3` operations the tracer uses (`add`, `sub`,
  `scale`, `scaleAndAdd`, `dot`), re-defined on real triples.
- `Geometry`: the two intersection tests, `Sphere.hit` and `Plane.hit`.
  - `Math.sqrt` is a parameter `sqrt`.
  - The predicate `IsSqrt` states the two facts the proofs use about it: the
    result is non-negative, and its square is the argument.
- `Resolver`: `closest_intersection`.
  - The function `Closest` is the specification, built up over prefixes of
    the primitive list.
  - `FirstNearest` characterises the answer independently: a qualifying hit,
    no farther than any other qualifying hit, and strictly nearer than every
    qualifying hit before it.
  - The method `ClosestIntersection` is the source's loop, proved equal to
    `Closest`.
- `Shading`: `trace_ray`.
  - The function `Trace` is the specification.
  - The method `TraceRay` is the source's light loop plus its recursion,
    proved equal to `Trace`.
  - The diffuse+specular factor of one light is the parameter `lightTerm`.
- `Pixels`: `assign_color`, writing into the canvas's `Uint8ClampedArray`.

The scene (the source's globals `objects` and `lights`) is the explicit
parameter `Scene`.

## Model

| member | source | states |
|---|---|---|
| `Geometry.SphereHit` | ray_tracer.js:15-58 | A negative discriminant gives no hit. Any hit has `tmin > kEpsilon`, its hit point is `origin + tmin * direction`, and its normal is the hit point minus the centre. |
| `Geometry.SurfaceIdentity` | ray_tracer.js:18-22 | Carries the facts about `SphereQuadratic`, which has no contract of its own. The quadratic built from `temp`, `a`, `b`, `c` at `t` equals the squared distance of the ray point from the centre minus `radius²`. Its roots are exactly the surface crossings. |
| `Geometry.OnSphereIsRoot` | ray_tracer.js:18-22 | The ray point at `s` lies on the sphere if and only if `s` is a root of the sphere's quadratic. |
| `Geometry.ZeroDirection` | ray_tracer.js:19 | The leading coefficient `a` of `SphereQuadratic`, `Sphere.hit`'s quadratic, is never negative, and `a == 0` holds exactly for a zero direction. |
| `Geometry.DiscriminantOfRoot` | ray_tracer.js:22-25 | If the quadratic has any real root, the discriminant is non-negative. So a negative discriminant correctly means no crossing. |
| `Geometry.RootsAreRoots` | ray_tracer.js:27-43 | `(-b - e) / 2a` and `(-b + e) / 2a` are both roots when `e*e` is the discriminant. |
| `Geometry.OnlyRoots` | ray_tracer.js:27-43 | Those two values are the only roots. |
| `Geometry.RootsOrdered` | ray_tracer.js:30-43 | For `a > 0` and `e >= 0`, the root tried first is the smaller one. |
| `Geometry.NoCrossingWithoutRoots` | ray_tracer.js:22-25 | With a negative discriminant, the ray is on the sphere at no parameter. |
| `Geometry.CrossingsAreRoots` | ray_tracer.js:27-43 | When the ray meets the sphere, the smaller and the larger root lie on it, they are ordered, and they are the only parameters on the surface. |
| `Geometry.SphereHitNearest` | ray_tracer.js:24-57 | A reported `tmin` is the least parameter beyond `kEpsilon` at which the ray is on the sphere. So the smaller root is used whenever it exceeds `kEpsilon`, and the larger root only otherwise. |
| `Geometry.SphereMissIsMiss` | ray_tracer.js:24-57 | For a non-zero direction, "no hit" means the ray meets the sphere at no parameter beyond `kEpsilon`. |
| `Geometry.PlaneHit` | ray_tracer.js:70-84 | Any hit has `tmin > kEpsilon`, carries the plane's stored normal unchanged, and its hit point is `origin + tmin * direction`. A ray parallel to the plane gives no hit. |
| `Geometry.PlaneOffset` | ray_tracer.js:72-73 | The signed offset from the plane along the normal is linear in the ray parameter. |
| `Geometry.PlaneHitCrossing` | ray_tracer.js:72-83 | For a ray not parallel to the plane, crossing it at `s`: a hit is reported if and only if `s > kEpsilon`, and then `tmin == s`. |
| `Geometry.PlaneHitOnPlane` | ray_tracer.js:72-81 | Every reported hit point lies on the plane. |
| `Geometry.DegeneratePlaneNeverHit` | ray_tracer.js:71-73 | A plane whose normal is zero is never hit, whatever the ray: the source's `0/0` is NaN and fails `t > kEpsilon`. |
| `Geometry.HitPrimitiveHit` | ray_tracer.js:239 | Carries the facts about `HitPrimitive`, which has no contract of its own. Whichever primitive `objects[i].hit` dispatches to, a hit lies beyond `kEpsilon`, its hit point is `origin + tmin * direction`, and its normal is the sphere's outward normal or the plane's stored normal. |
| `Resolver.Closest` | ray_tracer.js:233-252 | The answer satisfies `FirstNearest`. A returned hit lies strictly inside `(t_min, t_max)` and below 1000, is tagged with the index of the primitive that produced it, and has the smallest `tmin` of all qualifying hits. Among equal `tmin`, the lowest index wins. With no qualifying primitive, the answer is no hit. |
| `Resolver.FirstNearestUnique` | ray_tracer.js:238-245 | At most one answer satisfies the first-nearest characterisation, so it determines the resolver's result. |
| `Resolver.ClosestIsFirstNearest` | ray_tracer.js:238-245 | For any qualifying primitive, a hit is returned. That hit is no farther than the primitive's hit, and strictly nearer if the primitive comes before the winner. |
| `Resolver.ClosestIntersection` | ray_tracer.js:233-252 | The loop over the running `tmin`, `object_idx` and best record returns exactly `Closest`, so it satisfies `FirstNearest`. |
| `Shading.NormalNonDegenerate` | ray_tracer.js:177-179 | The hit normal of a sphere with non-zero radius, or of any plane, has positive squared length `n`, so the divisions by `n` are defined. |
| `Shading.Reflect` | ray_tracer.js:219 | The reflected direction has the normal component of the incoming direction negated, and keeps its length. |
| `Shading.ReflectAlong` | ray_tracer.js:205 | The `scaleAndAdd` with factor `-2 (normal·d)/n` negates the component along the normal and preserves length. Line 205 applies it to the light vector, line 219 to the ray direction. |
| `Shading.ReflectKeepsTangent` | ray_tracer.js:219 | Every component of the direction perpendicular to the normal is kept. With the `Reflect` row, this fixes the reflected direction completely. |
| `Shading.ReflectInvolution` | ray_tracer.js:219 | Reflecting twice returns the original direction. |
| `Shading.ContributionsAppend` | ray_tracer.js:184-211 | The light loop's accumulated contribution over a concatenation of light lists is the sum over the parts. |
| `Shading.ShadowedLightIgnored` | ray_tracer.js:194-210 | A light whose shadow ray over `(kEpsilon, 1)` hits something leaves the intensity unchanged, wherever it sits in the list. |
| `Shading.AllShadowedIsAmbient` | ray_tracer.js:182-211 | With every light shadowed, the intensity is the ambient light 2. |
| `Shading.AccumulateLight` | ray_tracer.js:182-211 | The loop starting from `ambient_light`, which shoots a shadow ray over `(kEpsilon, 1)` towards each light in order and adds that light's term only when nothing blocks it, returns exactly `Intensity` over the scene's lights. |
| `Shading.Blend` | ray_tracer.js:223-227 | With `k = reflectiveness / 9`, the result is `recur*k + local*(1-k)`. Reflectiveness 0 gives exactly the local colour, 9 the reflected colour, and anything in `[0, 9]` gives channels between the two. |
| `Shading.Mix` | ray_tracer.js:225-227 | One channel of the blend: weight 0 gives the local value, weight 1 the reflected value, and a weight in `[0, 1]` gives a value between them. |
| `Shading.Trace` | ray_tracer.js:169-231 | In a scene whose primitives are all black, every ray is black at every depth: the local colour is black, and the blend of a black reflection with it is black. |
| `Shading.TraceMiss` | ray_tracer.js:171-174 | When no primitive qualifies, the colour is black. |
| `Shading.NonReflectiveIsLocal` | ray_tracer.js:214-230 | With `depth <= 0`, or a hit primitive of reflectiveness 0, the colour is exactly the local colour. |
| `Shading.MirrorShowsReflection` | ray_tracer.js:217-227 | With depth left and reflectiveness 9, the colour is the trace of the reflected ray over `(kEpsilon, 600)` with `depth - 1`. |
| `Shading.NoMirrorsDepthIrrelevant` | ray_tracer.js:217-230 | In a scene with no reflective primitive, the recursion depth does not change any colour. |
| `Shading.TraceRay` | ray_tracer.js:169-231 | The method does the following and returns exactly `Trace`: <br>• resolves the hit; <br>• accumulates `light_intensity` from 2 over the lights in order, skipping shadowed ones; <br>• scales the colour by `intensity * 2.8`; <br>• with `depth > 0`, recurses with `depth - 1` along the reflected ray and blends. <br>The recursion terminates. |
| `Pixels.ToUint8Clamp` | ray_tracer.js:163-166 | A stored channel value is 0 at or below 0 and 255 at or above 255. Otherwise it is within 0.5 of the value, and an exact half goes to the even neighbour. |
| `Pixels.Store` | ray_tracer.js:163-166 | A store changes only the addressed element, and nothing when the index is outside the buffer. |
| `Pixels.WritePixel` | ray_tracer.js:162-167 | After the write, slots `o`, `o+1`, `o+2` (with `o = r*width*4 + c*4`) hold the clamped R, G and B. Slot `o+3` holds 255. Every other element is unchanged, and the length is kept. |
| `Pixels.AssignColor` | ray_tracer.js:162-167 | The array after the four stores is `WritePixel` of the array before. |
| `Pixels.WritePixelIdempotent` | ray_tracer.js:162-167 | Writing the same pixel twice with the same colour equals writing it once. |
| `Pixels.PixelSlotsDisjoint` | ray_tracer.js:163-166 | For columns in `0..width-1`, distinct pixels own disjoint groups of four slots. |
| `Pixels.WritesCommute` | ray_tracer.js:162-167 | Writes to two distinct pixels, with columns in range, can be done in either order. |

## Left out

- `render`, `main` and `setup_scene` (ray_tracer.js:120-159, 254-284) are left out. They handle the canvas, the DOM checkboxes, the per-pixel loop and the mapping from pixel to ray direction.
- The hard-coded lights and primitives (ray_tracer.js:99-118) are data, not logic.
- IEEE-754 arithmetic is not modelled: every quantity is a real number. Rounding, overflow, NaN and Infinity are therefore out of scope, and so is the order dependence of floating-point sums over the lights.
- `Math.sqrt` is the parameter `sqrt`, constrained only by `IsSqrt`.
- The diffuse and specular factor of a light is the parameter `lightTerm`. It stands for the `Math.sqrt`, `Math.pow` and `Math.max` arithmetic of ray_tracer.js:199-207. Numeric colour values are therefore not modelled. Neither is the fact that the source does not clamp a negative diffuse term.
- `Geometry.PlaneHit`: for a ray parallel to the plane, the source divides by zero and produces NaN or an infinite `t`. NaN fails the `kEpsilon` test. An infinite `t` yields a record that `closest_intersection` always discards, because every upper bound passed to it is finite. The model therefore returns no hit. The resolver's result is the same, but the direct result of `Plane.hit` differs.
- `Geometry.SphereHit`: a zero direction gives `a == 0`, and the source divides by zero. Both roots are then NaN and fail the `kEpsilon` test, which the model reproduces as no hit.
- `Shading.TraceRay`: requires every sphere of the scene to have a non-zero radius, and `sqrt` to satisfy `IsSqrt`. Every sphere the source builds (ray_tracer.js:110-118) has a positive radius, so its scene meets this. A zero-radius sphere is hit only by a ray through its centre, where the normal and so `n` are zero. At that point the source divides by zero at line 199 for every unshadowed light and at line 219 when depth is left. The colour is non-finite whenever some light reaches the point. When no light does, the NaN reflection direction hits nothing, and the source returns a finite colour that the model does not describe. Planes need no condition, since a plane with a zero normal is never hit.
- `Shading.TraceRay`: the depth is an integer. The source reads it from a DOM field as a string, which JavaScript converts for `>` and `-`. A fractional depth is not modelled.
- The gl-matrix library is replaced by value-returning vector functions. Its out-parameter style, with `vec3.create()` as destination, is not modelled.
- `closest_intersection` attaches `idx` to the record that `hit` returned. The model builds a tagged record instead; each `hit` call returns a fresh object, so there is no aliasing to lose.
- `Pixels.ToUint8Clamp`: NaN, which the typed array stores as 0, is not modelled.
