/**
  The intersection resolver (`closest_intersection` in ray_tracer.js): a
  linear scan over the scene's primitives that keeps the first hit with
  the least ray parameter inside an open interval.
*/
module Resolver {
  import opened Optional
  import opened Geometry

  /** The running minimum starts here, so no hit at or beyond it is ever kept. */
  const Sentinel: real := 1000.0

  /** A hit tagged with the index of the primitive that produced it. */
  datatype ShadeRec = ShadeRec(hit: Hit, idx: nat)

  /** Primitive `i` is hit inside the open interval (tMin, tMax) and below the sentinel. */
  predicate Qualifies(objects: seq<Primitive>, sqrt: real -> real, ray: Ray, tMin: real, tMax: real, i: nat)
    requires i < |objects|
  {
    match HitPrimitive(objects[i], sqrt, ray)
    case None => false
    case Some(h) => tMin < h.tmin < tMax && h.tmin < Sentinel
  }

  /** The parameter at which primitive `i` is hit (meaningful only when it qualifies). */
  function HitParameter(objects: seq<Primitive>, sqrt: real -> real, ray: Ray, i: nat): real
    requires i < |objects|
  {
    match HitPrimitive(objects[i], sqrt, ray)
    case None => Sentinel
    case Some(h) => h.tmin
  }

  /**
    `r` is what a scan of the first `k` primitives should give: nothing when
    none of them qualifies; otherwise the record of a qualifying primitive,
    tagged with its own index, whose parameter is no larger than any other
    qualifying one and strictly smaller than that of every qualifying
    primitive before it (ties go to the lowest index).
  */
  ghost predicate FirstNearest(objects: seq<Primitive>, sqrt: real -> real, ray: Ray, tMin: real, tMax: real,
                               k: nat, r: Option<ShadeRec>)
    requires k <= |objects|
  {
    match r
    case None =>
      forall i :: 0 <= i < k ==> !Qualifies(objects, sqrt, ray, tMin, tMax, i)
    case Some(rec) =>
      && rec.idx < k
      && Qualifies(objects, sqrt, ray, tMin, tMax, rec.idx)
      && HitPrimitive(objects[rec.idx], sqrt, ray) == Some(rec.hit)
      && (forall i :: 0 <= i < k && Qualifies(objects, sqrt, ray, tMin, tMax, i) ==>
            rec.hit.tmin <= HitParameter(objects, sqrt, ray, i))
      && (forall i :: 0 <= i < rec.idx && Qualifies(objects, sqrt, ray, tMin, tMax, i) ==>
            rec.hit.tmin < HitParameter(objects, sqrt, ray, i))
  }

  /**
    The resolver's answer over the first `k` primitives: primitive k-1
    replaces the answer for the first k-1 when it qualifies and is strictly
    nearer than that answer (or that answer is empty).
  */
  function Closest(objects: seq<Primitive>, sqrt: real -> real, ray: Ray, tMin: real, tMax: real, k: nat)
    : (r: Option<ShadeRec>)
    requires k <= |objects|
    ensures FirstNearest(objects, sqrt, ray, tMin, tMax, k, r)
    ensures r.Some? ==> tMin < r.value.hit.tmin < tMax && r.value.hit.tmin < Sentinel
  {
    if k == 0 then
      None
    else
      var prev := Closest(objects, sqrt, ray, tMin, tMax, k - 1);
      var i := k - 1;
      if Qualifies(objects, sqrt, ray, tMin, tMax, i)
         && (prev.None? || HitParameter(objects, sqrt, ray, i) < prev.value.hit.tmin)
      then
        Some(ShadeRec(HitPrimitive(objects[i], sqrt, ray).value, i))
      else
        prev
  }

  /** The characterisation pins the answer down: at most one record satisfies it. */
  lemma FirstNearestUnique(objects: seq<Primitive>, sqrt: real -> real, ray: Ray, tMin: real, tMax: real,
                           k: nat, r1: Option<ShadeRec>, r2: Option<ShadeRec>)
    requires k <= |objects|
    requires FirstNearest(objects, sqrt, ray, tMin, tMax, k, r1)
    requires FirstNearest(objects, sqrt, ray, tMin, tMax, k, r2)
    ensures r1 == r2
  {
  }

  /**
    Every primitive that qualifies is at least as far as the answer, and
    every earlier one is strictly farther: the answer is the first
    qualifying primitive of least parameter.
  */
  lemma ClosestIsFirstNearest(objects: seq<Primitive>, sqrt: real -> real, ray: Ray, tMin: real, tMax: real, i: nat)
    requires i < |objects| && Qualifies(objects, sqrt, ray, tMin, tMax, i)
    ensures var r := Closest(objects, sqrt, ray, tMin, tMax, |objects|);
      && r.Some?
      && r.value.hit.tmin <= HitParameter(objects, sqrt, ray, i)
      && (i < r.value.idx ==> r.value.hit.tmin < HitParameter(objects, sqrt, ray, i))
  {
  }

  /**
    `closest_intersection`: the scan with its running minimum `tmin`, the
    index of the best primitive so far and the best record so far; the
    record is tagged with the index after the loop.
  */
  method ClosestIntersection(objects: seq<Primitive>, sqrt: real -> real, ray: Ray, tMin: real, tMax: real)
    returns (shadeRec: Option<ShadeRec>)
    ensures FirstNearest(objects, sqrt, ray, tMin, tMax, |objects|, shadeRec)
    ensures shadeRec == Closest(objects, sqrt, ray, tMin, tMax, |objects|)
  {
    var tmin := Sentinel;
    var objectIdx := -1;
    var best: Option<Hit> := None;
    var i := 0;
    while i < |objects|
      invariant 0 <= i <= |objects|
      invariant best.None? <==> objectIdx == -1
      invariant best.None? ==> tmin == Sentinel
      invariant best.Some? ==> 0 <= objectIdx < i && tmin == best.value.tmin
      invariant Closest(objects, sqrt, ray, tMin, tMax, i)
             == if best.None? then None else Some(ShadeRec(best.value, objectIdx))
    {
      var rec := HitPrimitive(objects[i], sqrt, ray);
      if rec.Some? && rec.value.tmin > tMin && rec.value.tmin < tMax && rec.value.tmin < tmin {
        tmin := rec.value.tmin;
        objectIdx := i;
        best := rec;
      }
      i := i + 1;
    }
    if best.Some? {
      shadeRec := Some(ShadeRec(best.value, objectIdx));
    } else {
      shadeRec := None;
    }
  }
}
