/**
  The two primitive kinds of the scene and their ray-intersection tests
  (`Sphere.hit` and `Plane.hit` in ray_tracer.js).

  `Math.sqrt` is not available over the reals, so the tests take the square
  root as a parameter; `IsSqrt` states the two facts the proofs rely on.
*/
module Geometry {
  import opened Optional
  import opened Vectors

  /** Self-intersection guard: hits at or before this ray parameter are rejected. */
  const KEpsilon: real := 0.01

  /** A ray `origin + t * direction`; the direction is not normalised. */
  datatype Ray = Ray(origin: Vec3, direction: Vec3)

  /** The point of `ray` at parameter `t` (`vec3.scaleAndAdd(out, origin, direction, t)`). */
  function At(ray: Ray, t: real): Vec3 {
    ScaleAndAdd(ray.origin, ray.direction, t)
  }

  /**
    A scene object. Colour channels are on a 0..9 scale, reflectiveness on
    0..9 (divided by 9 when shading), specular is the Phong exponent.
  */
  datatype Primitive =
    | Sphere(center: Vec3, radius: real, color: Vec3, specular: real, reflectiveness: real)
    | Plane(point: Vec3, normal: Vec3, color: Vec3, specular: real, reflectiveness: real)

  datatype Light = Light(intensity: real, position: Vec3)

  /**
    What a successful intersection test returns: the ray parameter, the
    surface normal (not normalised) and the hit point.
  */
  datatype Hit = Hit(tmin: real, normal: Vec3, localHitPoint: Vec3)

  /** `sqrt` behaves as the non-negative square root on non-negative arguments. */
  ghost predicate IsSqrt(sqrt: real -> real) {
    forall d :: 0.0 <= d ==> 0.0 <= sqrt(d) && sqrt(d) * sqrt(d) == d
  }

  // ---------------------------------------------------------------------
  // Quadratics

  /** The polynomial a*t*t + b*t + c. */
  datatype Quadratic = Quadratic(a: real, b: real, c: real)

  function Eval(q: Quadratic, t: real): real {
    q.a * t * t + q.b * t + q.c
  }

  function Discriminant(q: Quadratic): real {
    q.b * q.b - 4.0 * q.a * q.c
  }

  /** The root `(-b - e) / 2a` tried first, e being the square root of the discriminant. */
  function SmallerRoot(q: Quadratic, e: real): real
    requires q.a != 0.0
  {
    (-q.b - e) / (2.0 * q.a)
  }

  /** The root `(-b + e) / 2a` tried second. */
  function LargerRoot(q: Quadratic, e: real): real
    requires q.a != 0.0
  {
    (-q.b + e) / (2.0 * q.a)
  }

  /** A quadratic that has a real root has a non-negative discriminant. */
  lemma DiscriminantOfRoot(q: Quadratic, s: real)
    requires Eval(q, s) == 0.0
    ensures Discriminant(q) >= 0.0
  {
    var w := 2.0 * q.a * s + q.b;
    calc {
      Discriminant(q);
      q.b * q.b - 4.0 * q.a * q.c;
      { assert q.c == -(q.a * s * s + q.b * s); }
      q.b * q.b + 4.0 * q.a * (q.a * s * s + q.b * s);
      w * w;
    >= { Square(w); }
      0.0;
    }
  }

  /** With e*e equal to the discriminant, the quadratic factors through both roots. */
  lemma Factorisation(q: Quadratic, e: real, s: real)
    requires q.a != 0.0 && e * e == Discriminant(q)
    ensures Eval(q, s) == q.a * ((s - SmallerRoot(q, e)) * (s - LargerRoot(q, e)))
  {
    var lo, hi := SmallerRoot(q, e), LargerRoot(q, e);
    var k := 2.0 * q.a;
    assert k * lo == -q.b - e;
    assert k * hi == -q.b + e;
    var u := k * s + q.b;
    calc {
      4.0 * q.a * (q.a * ((s - lo) * (s - hi)));
      (k * s - k * lo) * (k * s - k * hi);
      (u + e) * (u - e);
      u * u - e * e;
      u * u - (q.b * q.b - 4.0 * q.a * q.c);
      4.0 * q.a * (q.a * s * s + q.b * s + q.c);
      4.0 * q.a * Eval(q, s);
    }
    Cancel(4.0 * q.a, q.a * ((s - lo) * (s - hi)), Eval(q, s));
  }

  /** Both candidate roots are roots. */
  lemma RootsAreRoots(q: Quadratic, e: real)
    requires q.a != 0.0 && e * e == Discriminant(q)
    ensures Eval(q, SmallerRoot(q, e)) == 0.0
    ensures Eval(q, LargerRoot(q, e)) == 0.0
  {
    var lo, hi := SmallerRoot(q, e), LargerRoot(q, e);
    Factorisation(q, e, lo);
    Factorisation(q, e, hi);
    assert (lo - lo) * (lo - hi) == 0.0;
    assert (hi - lo) * (hi - hi) == 0.0;
  }

  /** ... and they are the only ones. */
  lemma OnlyRoots(q: Quadratic, e: real, s: real)
    requires q.a != 0.0 && e * e == Discriminant(q)
    requires Eval(q, s) == 0.0
    ensures s == SmallerRoot(q, e) || s == LargerRoot(q, e)
  {
    var lo, hi := SmallerRoot(q, e), LargerRoot(q, e);
    Factorisation(q, e, s);
    ProductZero(q.a, (s - lo) * (s - hi));
    ProductZero(s - lo, s - hi);
  }

  /** With a positive leading coefficient and e >= 0, the root tried first is the smaller one. */
  lemma RootsOrdered(q: Quadratic, e: real)
    requires q.a > 0.0 && e >= 0.0
    ensures SmallerRoot(q, e) <= LargerRoot(q, e)
  {
    var lo, hi := SmallerRoot(q, e), LargerRoot(q, e);
    var k := 2.0 * q.a;
    calc {
      (hi - lo) * k;
      hi * k - lo * k;
      (-q.b + e) - (-q.b - e);
      2.0 * e;
    >=
      0.0;
    }
    NonNegativeQuotient(hi - lo, k);
  }

  // ---------------------------------------------------------------------
  // Spheres

  /** `p` lies on the surface of the sphere. */
  ghost predicate OnSphere(center: Vec3, radius: real, p: Vec3) {
    Dot(Sub(p, center), Sub(p, center)) == radius * radius
  }

  /**
    `t` is the least ray parameter beyond `KEpsilon` at which `ray` meets
    the sphere's surface.
  */
  ghost predicate NearestSphereCrossing(center: Vec3, radius: real, ray: Ray, t: real) {
    && KEpsilon < t
    && OnSphere(center, radius, At(ray, t))
    && forall s :: KEpsilon < s && OnSphere(center, radius, At(ray, s)) ==> t <= s
  }

  /** a, b, c of `Sphere.hit`: the quadratic whose roots are the ray/sphere crossings. */
  function SphereQuadratic(center: Vec3, radius: real, ray: Ray): Quadratic {
    var temp := Sub(ray.origin, center);
    Quadratic(Dot(ray.direction, ray.direction),
              2.0 * Dot(temp, ray.direction),
              Dot(temp, temp) - radius * radius)
  }

  function SphereHitAt(center: Vec3, ray: Ray, t: real): Hit {
    var localHitPoint := At(ray, t);
    Hit(t, Sub(localHitPoint, center), localHitPoint)
  }

  /**
    `Sphere.hit`: no hit on a negative discriminant; otherwise the smaller
    root if it exceeds `KEpsilon`, else the larger root if it does, else no
    hit. A zero direction gives a == 0; in the source both roots are then
    0/0 = NaN, which fails both epsilon tests, so it is no hit here too.
  */
  function SphereHit(center: Vec3, radius: real, sqrt: real -> real, ray: Ray): (r: Option<Hit>)
    ensures Discriminant(SphereQuadratic(center, radius, ray)) < 0.0 ==> r == None
    ensures r.Some? ==> r.value.tmin > KEpsilon
    ensures r.Some? ==> r.value.localHitPoint == At(ray, r.value.tmin)
    ensures r.Some? ==> r.value.normal == Sub(r.value.localHitPoint, center)
  {
    var q := SphereQuadratic(center, radius, ray);
    var disc := Discriminant(q);
    if disc < 0.0 || q.a == 0.0 then
      None
    else
      var e := sqrt(disc);
      var t := SmallerRoot(q, e);
      if t > KEpsilon then
        Some(SphereHitAt(center, ray, t))
      else
        var t' := LargerRoot(q, e);
        if t' > KEpsilon then Some(SphereHitAt(center, ray, t')) else None
  }

  /** Moving along the ray from the centre's point of view. */
  lemma SubAt(center: Vec3, ray: Ray, s: real)
    ensures Sub(At(ray, s), center) == ScaleAndAdd(Sub(ray.origin, center), ray.direction, s)
  {
  }

  /** The squared distance from the centre, minus radius squared, is the sphere's quadratic. */
  lemma SurfaceIdentity(center: Vec3, radius: real, ray: Ray, s: real)
    ensures Dot(Sub(At(ray, s), center), Sub(At(ray, s), center)) - radius * radius
         == Eval(SphereQuadratic(center, radius, ray), s)
  {
    var temp := Sub(ray.origin, center);
    var d := ray.direction;
    var q := SphereQuadratic(center, radius, ray);
    SubAt(center, ray, s);
    DotSelfScaleAndAdd(temp, d, s);
    QuadraticTerms(Dot(d, d), Dot(temp, d), Dot(temp, temp), radius * radius, s);
  }

  /** The rearrangement behind `SurfaceIdentity`, on plain numbers. */
  lemma QuadraticTerms(dd: real, td: real, tt: real, rr: real, s: real)
    ensures tt + 2.0 * s * td + s * s * dd - rr == Eval(Quadratic(dd, 2.0 * td, tt - rr), s)
  {
  }

  lemma OnSphereIsRoot(center: Vec3, radius: real, ray: Ray, s: real)
    ensures OnSphere(center, radius, At(ray, s)) <==> Eval(SphereQuadratic(center, radius, ray), s) == 0.0
  {
    SurfaceIdentity(center, radius, ray, s);
  }

  /**
    The parameter `Sphere.hit` returns is the nearest crossing of the
    sphere's surface beyond `KEpsilon`.
  */
  lemma SphereHitNearest(center: Vec3, radius: real, sqrt: real -> real, ray: Ray, h: Hit)
    requires IsSqrt(sqrt)
    requires SphereHit(center, radius, sqrt, ray) == Some(h)
    ensures NearestSphereCrossing(center, radius, ray, h.tmin)
  {
    var q := SphereQuadratic(center, radius, ray);
    ZeroDirection(center, radius, ray);
    DotSelf(ray.direction);
    CrossingsAreRoots(center, radius, sqrt, ray);
    var e := sqrt(Discriminant(q));
    if SmallerRoot(q, e) > KEpsilon {
      assert h.tmin == SmallerRoot(q, e);
    } else {
      assert h.tmin == LargerRoot(q, e);
    }
  }

  /**
    When `Sphere.hit` reports no hit for a ray with a non-zero direction,
    the ray does not meet the sphere beyond `KEpsilon`.
  */
  lemma SphereMissIsMiss(center: Vec3, radius: real, sqrt: real -> real, ray: Ray)
    requires IsSqrt(sqrt)
    requires ray.direction != Zero
    requires SphereHit(center, radius, sqrt, ray) == None
    ensures forall s :: KEpsilon < s ==> !OnSphere(center, radius, At(ray, s))
  {
    var q := SphereQuadratic(center, radius, ray);
    if Discriminant(q) < 0.0 {
      NoCrossingWithoutRoots(center, radius, ray);
    } else {
      DotSelf(ray.direction);
      CrossingsAreRoots(center, radius, sqrt, ray);
    }
  }

  /** The leading coefficient is a squared length: never negative, and zero only for a zero direction. */
  lemma ZeroDirection(center: Vec3, radius: real, ray: Ray)
    ensures SphereQuadratic(center, radius, ray).a >= 0.0
    ensures SphereQuadratic(center, radius, ray).a == 0.0 <==> ray.direction == Zero
  {
    DotSelf(ray.direction);
  }

  /** A negative discriminant: the ray never meets the sphere. */
  lemma NoCrossingWithoutRoots(center: Vec3, radius: real, ray: Ray)
    requires Discriminant(SphereQuadratic(center, radius, ray)) < 0.0
    ensures forall s :: !OnSphere(center, radius, At(ray, s))
  {
    var q := SphereQuadratic(center, radius, ray);
    forall s
      ensures !OnSphere(center, radius, At(ray, s))
    {
      OnSphereIsRoot(center, radius, ray, s);
      if Eval(q, s) == 0.0 {
        DiscriminantOfRoot(q, s);
      }
    }
  }

  /**
    A ray that meets the sphere: the two roots, smaller first, are exactly
    the parameters at which it is on the surface.
  */
  lemma CrossingsAreRoots(center: Vec3, radius: real, sqrt: real -> real, ray: Ray)
    requires IsSqrt(sqrt)
    requires SphereQuadratic(center, radius, ray).a > 0.0
    requires Discriminant(SphereQuadratic(center, radius, ray)) >= 0.0
    ensures var q := SphereQuadratic(center, radius, ray);
      var e := sqrt(Discriminant(q));
      && SmallerRoot(q, e) <= LargerRoot(q, e)
      && OnSphere(center, radius, At(ray, SmallerRoot(q, e)))
      && OnSphere(center, radius, At(ray, LargerRoot(q, e)))
      && forall s :: OnSphere(center, radius, At(ray, s)) ==> s == SmallerRoot(q, e) || s == LargerRoot(q, e)
  {
    var q := SphereQuadratic(center, radius, ray);
    var e := sqrt(Discriminant(q));
    RootsOrdered(q, e);
    RootsAreRoots(q, e);
    OnSphereIsRoot(center, radius, ray, SmallerRoot(q, e));
    OnSphereIsRoot(center, radius, ray, LargerRoot(q, e));
    forall s | OnSphere(center, radius, At(ray, s))
      ensures s == SmallerRoot(q, e) || s == LargerRoot(q, e)
    {
      OnSphereIsRoot(center, radius, ray, s);
      OnlyRoots(q, e, s);
    }
  }

  // ---------------------------------------------------------------------
  // Planes

  /** `p` lies on the plane through `point` with normal `normal`. */
  ghost predicate OnPlane(point: Vec3, normal: Vec3, p: Vec3) {
    Dot(Sub(p, point), normal) == 0.0
  }

  /**
    `Plane.hit`: t = ((point - origin) . normal) / (direction . normal),
    accepted when t > KEpsilon; the stored normal is returned unchanged.
    A direction parallel to the plane makes the source divide by zero and
    produce NaN or an infinite t; the resolver never accepts either (every
    upper bound it is called with is finite), so that case is no hit here.
  */
  function PlaneHit(point: Vec3, normal: Vec3, ray: Ray): (r: Option<Hit>)
    ensures r.Some? ==> r.value.tmin > KEpsilon
    ensures r.Some? ==> r.value.normal == normal
    ensures r.Some? ==> r.value.localHitPoint == At(ray, r.value.tmin)
    ensures Dot(ray.direction, normal) == 0.0 ==> r == None
  {
    var denom := Dot(ray.direction, normal);
    if denom == 0.0 then
      None
    else
      var t := Dot(Sub(point, ray.origin), normal) / denom;
      if t > KEpsilon then Some(Hit(t, normal, At(ray, t))) else None
  }

  /** How far from the plane (along the normal) the ray is at parameter s. */
  lemma PlaneOffset(point: Vec3, normal: Vec3, ray: Ray, s: real)
    ensures Dot(Sub(At(ray, s), point), normal)
         == s * Dot(ray.direction, normal) - Dot(Sub(point, ray.origin), normal)
  {
    assert Sub(At(ray, s), point) == ScaleAndAdd(Sub(ray.origin, point), ray.direction, s);
    DotScaleAndAddLeft(Sub(ray.origin, point), ray.direction, s, normal);
  }

  /**
    A ray that is not parallel to the plane crosses it at exactly one
    parameter; `Plane.hit` reports a hit exactly when that parameter
    exceeds `KEpsilon`, and then at that parameter.
  */
  lemma PlaneHitCrossing(point: Vec3, normal: Vec3, ray: Ray, s: real)
    requires Dot(ray.direction, normal) != 0.0
    requires OnPlane(point, normal, At(ray, s))
    ensures var r := PlaneHit(point, normal, ray);
      (r.Some? <==> KEpsilon < s) && (r.Some? ==> r.value.tmin == s)
  {
    var denom := Dot(ray.direction, normal);
    var num := Dot(Sub(point, ray.origin), normal);
    PlaneOffset(point, normal, ray, s);
    assert s * denom == num;
    calc {
      num / denom;
      (s * denom) / denom;
      s;
    }
  }

  /** A plane whose normal is zero is never hit: the source's 0/0 is NaN, which fails the epsilon test. */
  lemma DegeneratePlaneNeverHit(point: Vec3, ray: Ray)
    ensures PlaneHit(point, Zero, ray) == None
  {
  }

  /** Every hit `Plane.hit` reports lies on the plane. */
  lemma PlaneHitOnPlane(point: Vec3, normal: Vec3, ray: Ray)
    ensures var r := PlaneHit(point, normal, ray);
      r.Some? ==> OnPlane(point, normal, r.value.localHitPoint)
  {
    var denom := Dot(ray.direction, normal);
    if denom != 0.0 {
      var num := Dot(Sub(point, ray.origin), normal);
      var t := num / denom;
      PlaneOffset(point, normal, ray, t);
      assert t * denom == num;
    }
  }

  // ---------------------------------------------------------------------
  // Either primitive

  /** The `hit` method of the primitive's class. */
  function HitPrimitive(p: Primitive, sqrt: real -> real, ray: Ray): Option<Hit> {
    match p
    case Sphere(center, radius, _, _, _) => SphereHit(center, radius, sqrt, ray)
    case Plane(point, normal, _, _, _) => PlaneHit(point, normal, ray)
  }

  /**
    Whatever the primitive, a hit lies beyond `KEpsilon` on the ray and
    carries the sphere's outward normal or the plane's stored normal.
  */
  lemma HitPrimitiveHit(p: Primitive, sqrt: real -> real, ray: Ray, h: Hit)
    requires HitPrimitive(p, sqrt, ray) == Some(h)
    ensures h.tmin > KEpsilon && h.localHitPoint == At(ray, h.tmin)
    ensures p.Sphere? ==> h.normal == Sub(h.localHitPoint, p.center)
    ensures p.Plane? ==> h.normal == p.normal
  {
  }
}
