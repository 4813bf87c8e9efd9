/**
  The shader (`trace_ray` in ray_tracer.js): nearest hit, ambient light plus
  the contribution of every light whose shadow ray is unobstructed, and a
  depth-bounded mirror reflection blended in by the primitive's
  reflectiveness.

  The diffuse and specular factor of one light (computed with `Math.sqrt`
  and `Math.pow` in the source) is the parameter `lightTerm`, applied to
  the surface normal, the vector from the hit point to the light, the
  incoming ray direction and the primitive's specular exponent.
*/
module Shading {
  import opened Optional
  import opened Vectors
  import opened Geometry
  import opened Resolver

  const AmbientLight: real := 2.0
  /** Factor applied to light intensity when colouring (colours are on a 0..9 scale). */
  const ToneScale: real := 2.8
  /** Reflectiveness is stored on a 0..9 scale. */
  const ReflectivenessScale: real := 9.0
  /** Shadow rays stop at the light: parameter 1 is the light's position. */
  const ShadowTMax: real := 1.0
  const ReflectionTMax: real := 600.0
  const Black: Vec3 := Zero

  /** The globals `objects` and `lights`. */
  datatype Scene = Scene(objects: seq<Primitive>, lights: seq<Light>)

  /**
    Spheres have a non-zero radius. (Planes need no condition: one with a
    zero normal is never hit.)
  */
  predicate ValidPrimitive(p: Primitive) {
    p.Sphere? ==> p.radius != 0.0
  }

  predicate ValidScene(scene: Scene) {
    forall i :: 0 <= i < |scene.objects| ==> ValidPrimitive(scene.objects[i])
  }

  /**
    The normal of any hit on a valid primitive has a positive squared
    length `n`, so the divisions by `n` in the shader are defined.
  */
  lemma NormalNonDegenerate(p: Primitive, sqrt: real -> real, ray: Ray, h: Hit)
    requires ValidPrimitive(p) && IsSqrt(sqrt)
    requires HitPrimitive(p, sqrt, ray) == Some(h)
    ensures Dot(h.normal, h.normal) > 0.0
  {
    match p
    case Sphere(center, radius, _, _, _) =>
      SphereHitNearest(center, radius, sqrt, ray, h);
      calc {
        Dot(h.normal, h.normal);
        Dot(Sub(At(ray, h.tmin), center), Sub(At(ray, h.tmin), center));
        radius * radius;
      > { Square(radius); }
        0.0;
      }
    case Plane(point, normal, _, _, _) =>
      if normal == Zero {
        DegeneratePlaneNeverHit(point, ray);
      }
      DotSelf(normal);
  }

  // ---------------------------------------------------------------------
  // Reflection

  /**
    The mirror image of `d` in the surface with normal `normal`, the
    reflection direction of ray_tracer.js:219 (ray_tracer.js:205 applies the
    same formula to the light vector): the component along the normal
    changes sign and the length is kept.
  */
  function Reflect(d: Vec3, normal: Vec3): (r: Vec3)
    requires Dot(normal, normal) != 0.0
    ensures Dot(r, normal) == -Dot(d, normal)
    ensures Dot(r, r) == Dot(d, d)
  {
    var s := -2.0 * Dot(normal, d) / Dot(normal, normal);
    ReflectAlong(d, normal, s);
    ScaleAndAdd(d, normal, s)
  }

  lemma ReflectAlong(d: Vec3, normal: Vec3, s: real)
    requires Dot(normal, normal) != 0.0
    requires s == -2.0 * Dot(normal, d) / Dot(normal, normal)
    ensures Dot(ScaleAndAdd(d, normal, s), normal) == -Dot(d, normal)
    ensures Dot(ScaleAndAdd(d, normal, s), ScaleAndAdd(d, normal, s)) == Dot(d, d)
  {
    var n := Dot(normal, normal);
    var k := Dot(d, normal);
    assert Dot(normal, d) == k;
    assert s * n == -2.0 * k;
    DotScaleAndAddLeft(d, normal, s, normal);
    DotSelfScaleAndAdd(d, normal, s);
    calc {
      Dot(d, d) + 2.0 * s * k + s * s * n;
      Dot(d, d) + s * (2.0 * k + s * n);
      Dot(d, d);
    }
  }

  /** Reflecting twice gives the original direction back. */
  lemma ReflectInvolution(d: Vec3, normal: Vec3)
    requires Dot(normal, normal) != 0.0
    ensures Reflect(Reflect(d, normal), normal) == d
  {
    var n := Dot(normal, normal);
    var r := Reflect(d, normal);
    var s := -2.0 * Dot(normal, d) / n;
    var s' := -2.0 * Dot(normal, r) / n;
    assert Dot(normal, r) == Dot(r, normal);
    assert Dot(normal, d) == Dot(d, normal);
    assert s' == -s;
  }

  /**
    Every component perpendicular to the normal is kept: with the negated
    normal component this fixes the reflected direction completely.
  */
  lemma ReflectKeepsTangent(d: Vec3, normal: Vec3, v: Vec3)
    requires Dot(normal, normal) != 0.0
    requires Dot(v, normal) == 0.0
    ensures Dot(Reflect(d, normal), v) == Dot(d, v)
  {
    var s := -2.0 * Dot(normal, d) / Dot(normal, normal);
    DotScaleAndAddLeft(d, normal, s, v);
    assert Dot(normal, v) == Dot(v, normal);
  }

  // ---------------------------------------------------------------------
  // Lights

  /** The ray from the hit point to the light; parameter 1 is the light itself. */
  function ShadowRay(point: Vec3, light: Light): Ray {
    Ray(point, Sub(light.position, point))
  }

  /** No primitive lies on the shadow ray strictly between `KEpsilon` and the light. */
  predicate Lit(scene: Scene, sqrt: real -> real, point: Vec3, light: Light) {
    Closest(scene.objects, sqrt, ShadowRay(point, light), KEpsilon, ShadowTMax, |scene.objects|).None?
  }

  /** What one light adds to the intensity at the hit recorded in `rec`. */
  function Contribution(scene: Scene, sqrt: real -> real, lightTerm: (Vec3, Vec3, Vec3, real) -> real,
                        direction: Vec3, rec: ShadeRec, light: Light): real
    requires rec.idx < |scene.objects|
  {
    if Lit(scene, sqrt, rec.hit.localHitPoint, light) then
      light.intensity * lightTerm(rec.hit.normal, ShadowRay(rec.hit.localHitPoint, light).direction,
                                  direction, scene.objects[rec.idx].specular)
    else
      0.0
  }

  /** The sum of the contributions of `lights`, accumulated in list order. */
  function Contributions(scene: Scene, sqrt: real -> real, lightTerm: (Vec3, Vec3, Vec3, real) -> real,
                         direction: Vec3, rec: ShadeRec, lights: seq<Light>): real
    requires rec.idx < |scene.objects|
  {
    if lights == [] then
      0.0
    else
      Contributions(scene, sqrt, lightTerm, direction, rec, lights[..|lights| - 1])
      + Contribution(scene, sqrt, lightTerm, direction, rec, lights[|lights| - 1])
  }

  /** The light intensity at the hit after accumulating `lights`, starting from the ambient light. */
  function Intensity(scene: Scene, sqrt: real -> real, lightTerm: (Vec3, Vec3, Vec3, real) -> real,
                     direction: Vec3, rec: ShadeRec, lights: seq<Light>): real
    requires rec.idx < |scene.objects|
  {
    AmbientLight + Contributions(scene, sqrt, lightTerm, direction, rec, lights)
  }

  /** Contributions add up over a concatenation of light lists. */
  lemma {:induction false} ContributionsAppend(scene: Scene, sqrt: real -> real,
                                               lightTerm: (Vec3, Vec3, Vec3, real) -> real,
                                               direction: Vec3, rec: ShadeRec, a: seq<Light>, b: seq<Light>)
    requires rec.idx < |scene.objects|
    ensures Contributions(scene, sqrt, lightTerm, direction, rec, a + b)
         == Contributions(scene, sqrt, lightTerm, direction, rec, a)
          + Contributions(scene, sqrt, lightTerm, direction, rec, b)
    decreases |b|
  {
    if b != [] {
      var b' := b[..|b| - 1];
      assert (a + b)[..|a + b| - 1] == a + b';
      assert (a + b)[|a + b| - 1] == b[|b| - 1];
      ContributionsAppend(scene, sqrt, lightTerm, direction, rec, a, b');
    } else {
      assert a + b == a;
    }
  }

  /** A light whose shadow ray is blocked changes nothing, wherever it sits in the list. */
  lemma ShadowedLightIgnored(scene: Scene, sqrt: real -> real, lightTerm: (Vec3, Vec3, Vec3, real) -> real,
                             direction: Vec3, rec: ShadeRec, a: seq<Light>, light: Light, b: seq<Light>)
    requires rec.idx < |scene.objects|
    requires !Lit(scene, sqrt, rec.hit.localHitPoint, light)
    ensures Intensity(scene, sqrt, lightTerm, direction, rec, a + [light] + b)
         == Intensity(scene, sqrt, lightTerm, direction, rec, a + b)
  {
    ContributionsAppend(scene, sqrt, lightTerm, direction, rec, a + [light], b);
    ContributionsAppend(scene, sqrt, lightTerm, direction, rec, a, [light]);
    ContributionsAppend(scene, sqrt, lightTerm, direction, rec, a, b);
    assert [light][..0] == [];
  }

  /** One more light of the list adds its contribution. */
  lemma IntensityStep(scene: Scene, sqrt: real -> real, lightTerm: (Vec3, Vec3, Vec3, real) -> real,
                      direction: Vec3, rec: ShadeRec, lights: seq<Light>, i: nat)
    requires rec.idx < |scene.objects| && i < |lights|
    ensures Intensity(scene, sqrt, lightTerm, direction, rec, lights[..i + 1])
         == Intensity(scene, sqrt, lightTerm, direction, rec, lights[..i])
          + Contribution(scene, sqrt, lightTerm, direction, rec, lights[i])
  {
    assert lights[..i + 1][..i] == lights[..i];
  }

  /** With every light in shadow only the ambient light remains. */
  lemma {:induction false} AllShadowedIsAmbient(scene: Scene, sqrt: real -> real,
                                                lightTerm: (Vec3, Vec3, Vec3, real) -> real,
                                                direction: Vec3, rec: ShadeRec, lights: seq<Light>)
    requires rec.idx < |scene.objects|
    requires forall i :: 0 <= i < |lights| ==> !Lit(scene, sqrt, rec.hit.localHitPoint, lights[i])
    ensures Intensity(scene, sqrt, lightTerm, direction, rec, lights) == AmbientLight
    decreases |lights|
  {
    if lights != [] {
      var init := lights[..|lights| - 1];
      assert forall i :: 0 <= i < |init| ==> init[i] == lights[i];
      AllShadowedIsAmbient(scene, sqrt, lightTerm, direction, rec, init);
    }
  }

  // ---------------------------------------------------------------------
  // Colour

  /** The colour of the hit primitive multiplied by the light intensity and the tone factor. */
  function LocalColor(scene: Scene, sqrt: real -> real, lightTerm: (Vec3, Vec3, Vec3, real) -> real,
                      direction: Vec3, rec: ShadeRec): Vec3
    requires rec.idx < |scene.objects|
  {
    Scale(scene.objects[rec.idx].color,
          Intensity(scene, sqrt, lightTerm, direction, rec, scene.lights) * ToneScale)
  }

  /** A black primitive stays black under any light intensity. */
  lemma LocalColorOfBlack(scene: Scene, sqrt: real -> real, lightTerm: (Vec3, Vec3, Vec3, real) -> real,
                          direction: Vec3, rec: ShadeRec)
    requires rec.idx < |scene.objects|
    ensures scene.objects[rec.idx].color == Black ==> LocalColor(scene, sqrt, lightTerm, direction, rec) == Black
  {
  }

  /** `v` lies between `a` and `b`, in either order. */
  predicate Between(v: real, a: real, b: real) {
    (a <= v <= b) || (b <= v <= a)
  }

  /**
    `recur * k + local * (1 - k)` with k = reflectiveness / 9: reflectiveness
    0 gives the local colour, 9 the reflected colour, and anything in between
    a colour whose every channel lies between the two.
  */
  function Blend(recur: Vec3, local: Vec3, reflectiveness: real): (c: Vec3)
    ensures reflectiveness == 0.0 ==> c == local
    ensures reflectiveness == ReflectivenessScale ==> c == recur
    ensures 0.0 <= reflectiveness <= ReflectivenessScale ==>
      Between(c.x, recur.x, local.x) && Between(c.y, recur.y, local.y) && Between(c.z, recur.z, local.z)
  {
    var k := reflectiveness / ReflectivenessScale;
    var c := Add(Scale(recur, k), Scale(local, 1.0 - k));
    assert c.x == recur.x * k + local.x * (1.0 - k);
    assert c.y == recur.y * k + local.y * (1.0 - k);
    assert c.z == recur.z * k + local.z * (1.0 - k);
    Mix(recur.x, local.x, k);
    Mix(recur.y, local.y, k);
    Mix(recur.z, local.z, k);
    c
  }

  /** Blending black with black gives black. */
  lemma BlendOfBlack(reflectiveness: real)
    ensures Blend(Black, Black, reflectiveness) == Black
  {
    var k := reflectiveness / ReflectivenessScale;
    assert Scale(Black, k) == Black;
    assert Scale(Black, 1.0 - k) == Black;
  }

  lemma Mix(a: real, b: real, k: real)
    ensures k == 0.0 ==> a * k + b * (1.0 - k) == b
    ensures k == 1.0 ==> a * k + b * (1.0 - k) == a
    ensures 0.0 <= k <= 1.0 ==> Between(a * k + b * (1.0 - k), a, b)
  {
    var v := a * k + b * (1.0 - k);
    assert v - b == k * (a - b);
    assert a - v == (1.0 - k) * (a - b);
    if 0.0 <= k <= 1.0 {
      if a >= b {
        NonNegativeProduct(k, a - b);
        NonNegativeProduct(1.0 - k, a - b);
      } else {
        NonNegativeProduct(k, b - a);
        NonNegativeProduct(1.0 - k, b - a);
      }
    }
  }

  // ---------------------------------------------------------------------
  // Tracing

  /** Every primitive of the scene has colour black. */
  predicate AllBlack(scene: Scene) {
    forall i :: 0 <= i < |scene.objects| ==> scene.objects[i].color == Black
  }

  /**
    The colour `trace_ray` returns for `ray` over (tMin, tMax) with
    `depth` reflections left.
  */
  function Trace(scene: Scene, sqrt: real -> real, lightTerm: (Vec3, Vec3, Vec3, real) -> real,
                 ray: Ray, tMin: real, tMax: real, depth: int): (color: Vec3)
    requires ValidScene(scene) && IsSqrt(sqrt)
    ensures AllBlack(scene) ==> color == Black
    decreases depth
  {
    match Closest(scene.objects, sqrt, ray, tMin, tMax, |scene.objects|)
    case None => Black
    case Some(rec) =>
      var local := LocalColor(scene, sqrt, lightTerm, ray.direction, rec);
      LocalColorOfBlack(scene, sqrt, lightTerm, ray.direction, rec);
      if depth > 0 then
        NormalNonDegenerate(scene.objects[rec.idx], sqrt, ray, rec.hit);
        var reflected := Ray(rec.hit.localHitPoint, Reflect(ray.direction, rec.hit.normal));
        var recur := Trace(scene, sqrt, lightTerm, reflected, KEpsilon, ReflectionTMax, depth - 1);
        BlendOfBlack(scene.objects[rec.idx].reflectiveness);
        Blend(recur, local, scene.objects[rec.idx].reflectiveness)
      else
        local
  }

  /** No primitive hit inside the interval: the background is black. */
  lemma TraceMiss(scene: Scene, sqrt: real -> real, lightTerm: (Vec3, Vec3, Vec3, real) -> real,
                  ray: Ray, tMin: real, tMax: real, depth: int)
    requires ValidScene(scene) && IsSqrt(sqrt)
    requires forall i :: 0 <= i < |scene.objects| ==> !Qualifies(scene.objects, sqrt, ray, tMin, tMax, i)
    ensures Trace(scene, sqrt, lightTerm, ray, tMin, tMax, depth) == Black
  {
  }

  /**
    Whatever the depth, a hit on a primitive with reflectiveness 0 gives
    exactly its local colour; in particular depth 0 never recurses.
  */
  lemma NonReflectiveIsLocal(scene: Scene, sqrt: real -> real, lightTerm: (Vec3, Vec3, Vec3, real) -> real,
                             ray: Ray, tMin: real, tMax: real, depth: int, rec: ShadeRec)
    requires ValidScene(scene) && IsSqrt(sqrt)
    requires Closest(scene.objects, sqrt, ray, tMin, tMax, |scene.objects|) == Some(rec)
    requires depth <= 0 || scene.objects[rec.idx].reflectiveness == 0.0
    ensures Trace(scene, sqrt, lightTerm, ray, tMin, tMax, depth)
         == LocalColor(scene, sqrt, lightTerm, ray.direction, rec)
  {
  }

  /**
    With reflections left, a hit on a perfect mirror (reflectiveness 9)
    shows exactly what the reflected ray sees.
  */
  lemma MirrorShowsReflection(scene: Scene, sqrt: real -> real, lightTerm: (Vec3, Vec3, Vec3, real) -> real,
                              ray: Ray, tMin: real, tMax: real, depth: int, rec: ShadeRec)
    requires ValidScene(scene) && IsSqrt(sqrt)
    requires Closest(scene.objects, sqrt, ray, tMin, tMax, |scene.objects|) == Some(rec)
    requires depth > 0 && scene.objects[rec.idx].reflectiveness == ReflectivenessScale
    ensures Dot(rec.hit.normal, rec.hit.normal) > 0.0
    ensures Trace(scene, sqrt, lightTerm, ray, tMin, tMax, depth)
         == Trace(scene, sqrt, lightTerm, Ray(rec.hit.localHitPoint, Reflect(ray.direction, rec.hit.normal)),
                  KEpsilon, ReflectionTMax, depth - 1)
  {
    NormalNonDegenerate(scene.objects[rec.idx], sqrt, ray, rec.hit);
  }

  /**
    In a scene without reflective primitives the depth does not matter:
    every trace equals the trace at depth 0.
  */
  lemma NoMirrorsDepthIrrelevant(scene: Scene, sqrt: real -> real, lightTerm: (Vec3, Vec3, Vec3, real) -> real,
                                 ray: Ray, tMin: real, tMax: real, depth: int)
    requires ValidScene(scene) && IsSqrt(sqrt)
    requires forall i :: 0 <= i < |scene.objects| ==> scene.objects[i].reflectiveness == 0.0
    ensures Trace(scene, sqrt, lightTerm, ray, tMin, tMax, depth) == Trace(scene, sqrt, lightTerm, ray, tMin, tMax, 0)
  {
    var r := Closest(scene.objects, sqrt, ray, tMin, tMax, |scene.objects|);
    if r.Some? {
      NonReflectiveIsLocal(scene, sqrt, lightTerm, ray, tMin, tMax, depth, r.value);
      NonReflectiveIsLocal(scene, sqrt, lightTerm, ray, tMin, tMax, 0, r.value);
    }
  }

  /**
    The light loop of `trace_ray`: starting from the ambient light, add
    each light's contribution in order unless its shadow ray from the hit
    point is blocked.
  */
  method AccumulateLight(scene: Scene, sqrt: real -> real, lightTerm: (Vec3, Vec3, Vec3, real) -> real,
                         direction: Vec3, rec: ShadeRec)
    returns (lightIntensity: real)
    requires rec.idx < |scene.objects|
    ensures lightIntensity == Intensity(scene, sqrt, lightTerm, direction, rec, scene.lights)
  {
    var lights := scene.lights;
    var normal := rec.hit.normal;
    var point := rec.hit.localHitPoint;
    lightIntensity := AmbientLight;
    var i := 0;
    while i < |lights|
      invariant 0 <= i <= |lights|
      invariant lightIntensity == Intensity(scene, sqrt, lightTerm, direction, rec, lights[..i])
    {
      var intersectionToLight := Sub(lights[i].position, point);
      var shadowRec := ClosestIntersection(scene.objects, sqrt, Ray(point, intersectionToLight), KEpsilon, ShadowTMax);
      assert ShadowRay(point, lights[i]) == Ray(point, intersectionToLight);
      assert shadowRec.None? == Lit(scene, sqrt, point, lights[i]);
      ghost var before := lightIntensity;
      if shadowRec.None? {
        lightIntensity := lightIntensity
          + lights[i].intensity * lightTerm(normal, intersectionToLight, direction, scene.objects[rec.idx].specular);
        assert Contribution(scene, sqrt, lightTerm, direction, rec, lights[i])
            == lights[i].intensity * lightTerm(normal, intersectionToLight, direction, scene.objects[rec.idx].specular);
      } else {
        assert Contribution(scene, sqrt, lightTerm, direction, rec, lights[i]) == 0.0;
      }
      IntensityStep(scene, sqrt, lightTerm, direction, rec, lights, i);
      i := i + 1;
    }
    assert lights[..i] == lights;
  }

  /**
    `trace_ray`: resolve the nearest hit, accumulate the light intensity,
    colour the hit, and with depth left blend in the colour seen along the
    reflected ray.
  */
  method TraceRay(scene: Scene, sqrt: real -> real, lightTerm: (Vec3, Vec3, Vec3, real) -> real,
                  ray: Ray, tMin: real, tMax: real, depth: int)
    returns (color: Vec3)
    requires ValidScene(scene) && IsSqrt(sqrt)
    ensures color == Trace(scene, sqrt, lightTerm, ray, tMin, tMax, depth)
    decreases depth
  {
    var shadeRec := ClosestIntersection(scene.objects, sqrt, ray, tMin, tMax);
    if shadeRec.None? {
      return Black;
    }
    var rec := shadeRec.value;
    var lightIntensity := AccumulateLight(scene, sqrt, lightTerm, ray.direction, rec);
    var localColor := Scale(scene.objects[rec.idx].color, lightIntensity * ToneScale);
    if depth > 0 {
      NormalNonDegenerate(scene.objects[rec.idx], sqrt, ray, rec.hit);
      var reflection := Reflect(ray.direction, rec.hit.normal);
      var recurColor := TraceRay(scene, sqrt, lightTerm, Ray(rec.hit.localHitPoint, reflection),
                                 KEpsilon, ReflectionTMax, depth - 1);
      var reflectiveness := scene.objects[rec.idx].reflectiveness / ReflectivenessScale;
      color := Add(Scale(recurColor, reflectiveness), Scale(localColor, 1.0 - reflectiveness));
    } else {
      color := localColor;
    }
  }
}
