/**
  Three-component vectors over the reals, standing for the handful of
  gl-matrix `vec3` operations the tracer uses (create/fromValues, add, sub,
  scale, scaleAndAdd, dot). Every operation returns a fresh value.
*/
module Vectors {

  datatype Vec3 = Vec3(x: real, y: real, z: real)

  const Zero: Vec3 := Vec3(0.0, 0.0, 0.0)

  function Add(u: Vec3, v: Vec3): Vec3 {
    Vec3(u.x + v.x, u.y + v.y, u.z + v.z)
  }

  function Sub(u: Vec3, v: Vec3): Vec3 {
    Vec3(u.x - v.x, u.y - v.y, u.z - v.z)
  }

  function Scale(v: Vec3, s: real): Vec3 {
    Vec3(v.x * s, v.y * s, v.z * s)
  }

  /** gl-matrix `scaleAndAdd(out, u, v, s)`: u + v * s. */
  function ScaleAndAdd(u: Vec3, v: Vec3, s: real): Vec3 {
    Vec3(u.x + v.x * s, u.y + v.y * s, u.z + v.z * s)
  }

  function Dot(u: Vec3, v: Vec3): real {
    u.x * v.x + u.y * v.y + u.z * v.z
  }

  /** A squared length is never negative, and is positive for every non-zero vector. */
  lemma DotSelf(v: Vec3)
    ensures Dot(v, v) >= 0.0
    ensures v != Zero ==> Dot(v, v) > 0.0
  {
    calc {
      Dot(v, v);
      v.x * v.x + v.y * v.y + v.z * v.z;
    >= { SumOfSquares(v.x, v.y, v.z); }
      0.0;
    }
    if v != Zero {
      DotSelfPositive(v);
    }
  }

  lemma DotSelfPositive(v: Vec3)
    requires v != Zero
    ensures Dot(v, v) > 0.0
  {
    calc {
      Dot(v, v);
      v.x * v.x + v.y * v.y + v.z * v.z;
    > { SumOfSquares(v.x, v.y, v.z); }
      0.0;
    }
  }

  lemma SumOfSquares(x: real, y: real, z: real)
    ensures x * x + y * y + z * z >= 0.0
    ensures x != 0.0 || y != 0.0 || z != 0.0 ==> x * x + y * y + z * z > 0.0
  {
    Square(x);
    Square(y);
    Square(z);
  }

  // Signs of products of reals, stated as separate lemmas because the
  // solver does not find them reliably on its own.

  lemma Square(a: real)
    ensures a * a >= 0.0
    ensures a != 0.0 ==> a * a > 0.0
  {
    if a < 0.0 {
      MulPositive(-a, -a);
      assert (-a) * (-a) == a * a;
    } else if a > 0.0 {
      MulPositive(a, a);
    }
  }

  lemma MulPositive(a: real, b: real)
    requires a > 0.0 && b > 0.0
    ensures a * b > 0.0
  {
  }

  lemma Cancel(k: real, x: real, y: real)
    requires k != 0.0 && k * x == k * y
    ensures x == y
  {
    assert k * (x - y) == 0.0;
    ProductZero(k, x - y);
  }

  lemma ProductZero(x: real, y: real)
    requires x * y == 0.0
    ensures x == 0.0 || y == 0.0
  {
    if x != 0.0 && y != 0.0 {
      NonZeroProduct(x, y);
    }
  }

  lemma NonZeroProduct(x: real, y: real)
    requires x != 0.0 && y != 0.0
    ensures x * y != 0.0
  {
    if x > 0.0 && y > 0.0 {
      MulPositive(x, y);
    } else if x > 0.0 {
      MulPositive(x, -y);
      assert x * (-y) == -(x * y);
    } else if y > 0.0 {
      MulPositive(-x, y);
      assert (-x) * y == -(x * y);
    } else {
      MulPositive(-x, -y);
      assert (-x) * (-y) == x * y;
    }
  }

  lemma NonNegativeQuotient(x: real, k: real)
    requires k > 0.0 && x * k >= 0.0
    ensures x >= 0.0
  {
    if x < 0.0 {
      MulPositive(-x, k);
    }
  }

  lemma NonNegativeProduct(x: real, y: real)
    requires x >= 0.0 && y >= 0.0
    ensures x * y >= 0.0
  {
    if x > 0.0 && y > 0.0 {
      MulPositive(x, y);
    }
  }

  /** Expanding the dot product of u + v * s with w. */
  lemma DotScaleAndAddLeft(u: Vec3, v: Vec3, s: real, w: Vec3)
    ensures Dot(ScaleAndAdd(u, v, s), w) == Dot(u, w) + s * Dot(v, w)
  {
    calc {
      Dot(ScaleAndAdd(u, v, s), w);
      (u.x + v.x * s) * w.x + (u.y + v.y * s) * w.y + (u.z + v.z * s) * w.z;
      u.x * w.x + u.y * w.y + u.z * w.z + s * (v.x * w.x + v.y * w.y + v.z * w.z);
    }
  }

  /** The squared length of u + v * s as a polynomial in s. */
  lemma DotSelfScaleAndAdd(u: Vec3, v: Vec3, s: real)
    ensures Dot(ScaleAndAdd(u, v, s), ScaleAndAdd(u, v, s))
         == Dot(u, u) + 2.0 * s * Dot(u, v) + s * s * Dot(v, v)
  {
    var w := ScaleAndAdd(u, v, s);
    DotScaleAndAddLeft(u, v, s, w);
    DotScaleAndAddLeft(u, v, s, u);
    DotScaleAndAddLeft(u, v, s, v);
    assert Dot(u, w) == Dot(w, u);
    assert Dot(v, w) == Dot(w, v);
    assert Dot(v, u) == Dot(u, v);
  }
}
