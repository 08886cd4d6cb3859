/** Three-component vectors over ideal reals (`f64` is modelled as `real`).
    A `Vec3` is used as a point, a direction and an RGB colour. */
module Vectors {

  datatype Vec3 = Vec3(x: real, y: real, z: real)

  const Zero := Vec3(0.0, 0.0, 0.0)

  /** `a * b`, with the sign rules for products of like-signed factors. */
  function Product(a: real, b: real): (r: real)
    ensures a > 0.0 && b > 0.0 ==> r > 0.0
    ensures a < 0.0 && b < 0.0 ==> r > 0.0
  {
    a * b
  }

  /** `c * c`. Squares go through this one function so that their sign facts are
      stated once, here, and used everywhere else as facts about `Sq(c)`. */
  function Sq(c: real): (r: real)
    ensures r >= 0.0
    ensures c != 0.0 <==> r > 0.0
    ensures r == c * c
  {
    Product(c, c)
  }

  /** What the model assumes of `f64::sqrt`: on a non-negative argument it returns the
      non-negative square root. The square root is a parameter of every operation that
      takes one, because Dafny's reals cannot construct it. */
  ghost predicate IsSqrt(sqrt: real -> real)
  {
    forall x :: x >= 0.0 ==> sqrt(x) >= 0.0 && Sq(sqrt(x)) == x
  }

  /** The additive inverse. */
  function Neg(v: Vec3): (r: Vec3)
    ensures Add(v, r) == Zero
  {
    Vec3(-v.x, -v.y, -v.z)
  }

  /** The `Add` operator; the by-reference `Add<&Self>` forwards to it. */
  function Add(a: Vec3, b: Vec3): (r: Vec3)
  {
    Vec3(a.x + b.x, a.y + b.y, a.z + b.z)
  }

  /** The `Sub` operator; the by-reference `Sub<&Self>` forwards to it. */
  function Sub(a: Vec3, b: Vec3): (r: Vec3)
    ensures r == Zero <==> a == b
  {
    Vec3(a.x - b.x, a.y - b.y, a.z - b.z)
  }

  /** The `Mul<f64>` operator: scaling by a scalar. */
  function Mul(v: Vec3, s: real): (r: Vec3)
  {
    Vec3(v.x * s, v.y * s, v.z * s)
  }

  /** The `Div<f64>` operator. Dividing by exactly zero panics, so it is excluded. */
  function Div(v: Vec3, s: real): (r: Vec3)
    requires s != 0.0
    ensures s == 1.0 ==> r == v
    ensures r == Zero <==> v == Zero
  {
    Vec3(v.x / s, v.y / s, v.z / s)
  }

  /** Division is undone by scaling with the same number. */
  lemma DivThenMul(v: Vec3, s: real)
    requires s != 0.0
    ensures Mul(Div(v, s), s) == v
  {
  }

  function Dot(a: Vec3, b: Vec3): (r: real)
  {
    a.x * b.x + a.y * b.y + a.z * b.z
  }

  function LenSq(v: Vec3): (r: real)
    ensures r >= 0.0
    ensures v != Zero ==> r > 0.0
  {
    Sq(v.x) + Sq(v.y) + Sq(v.z)
  }

  function Len(v: Vec3, sqrt: real -> real): (r: real)
    requires IsSqrt(sqrt)
    ensures r >= 0.0 && Sq(r) == LenSq(v)
    ensures r == 0.0 <==> v == Zero
  {
    sqrt(LenSq(v))
  }

  /** `v / len(v)`: panics through `Div` when the length is zero. */
  function UnitVec(v: Vec3, sqrt: real -> real): (r: Vec3)
    requires IsSqrt(sqrt)
    requires Len(v, sqrt) != 0.0
    ensures LenSq(r) == 1.0
    ensures Mul(r, Len(v, sqrt)) == v
    ensures -1.0 <= r.x <= 1.0 && -1.0 <= r.y <= 1.0 && -1.0 <= r.z <= 1.0
  {
    var n := Len(v, sqrt);
    var r := Div(v, n);
    UnitLenSq(v, n);
    DivThenMul(v, n);
    UnitComponentBound(r.x, r.y, r.z);
    UnitComponentBound(r.y, r.x, r.z);
    UnitComponentBound(r.z, r.x, r.y);
    r
  }

  /** Squaring commutes with division. */
  lemma SqDiv(a: real, n: real)
    requires n != 0.0
    ensures Sq(a / n) * Sq(n) == Sq(a)
  {
    var q := a / n;
    assert q * n == a;
    assert (q * q) * (n * n) == (q * n) * (q * n);
  }

  /** Dividing a vector by a number whose square is its squared length (its length
      or the negated length) gives squared length one. */
  lemma UnitLenSq(v: Vec3, n: real)
    requires n != 0.0 && Sq(n) == LenSq(v)
    ensures LenSq(Div(v, n)) == 1.0
  {
    var r := Div(v, n);
    SqDiv(v.x, n);
    SqDiv(v.y, n);
    SqDiv(v.z, n);
    var m := Sq(n);
    calc {
      LenSq(r) * m;
      Sq(r.x) * m + Sq(r.y) * m + Sq(r.z) * m;
      Sq(v.x) + Sq(v.y) + Sq(v.z);
      m;
    }
    assert (LenSq(r) - 1.0) * m == 0.0;
  }

  /** A number greater than one has a square greater than one. */
  lemma SqAboveOne(c: real)
    requires c > 1.0
    ensures Sq(c) > 1.0
  {
    var d := c - 1.0;
    assert c * c == 1.0 + 2.0 * d + d * d;
    assert Sq(d) == d * d;
  }

  /** A component of a vector whose squared length is one lies in [-1, 1]. */
  lemma UnitComponentBound(c: real, d: real, e: real)
    requires Sq(c) + Sq(d) + Sq(e) == 1.0
    ensures -1.0 <= c <= 1.0
  {
    if c > 1.0 {
      SqAboveOne(c);
    } else if c < -1.0 {
      SqAboveOne(-c);
      assert Sq(-c) == Sq(c) by {
        assert (-c) * (-c) == c * c;
      }
    }
  }

  /** The squared length of a sum, expanded through the dot product. */
  lemma LenSqAdd(a: Vec3, b: Vec3)
    ensures LenSq(Add(a, b)) == LenSq(a) + 2.0 * Dot(a, b) + LenSq(b)
  {
    SqSum(a.x, b.x);
    SqSum(a.y, b.y);
    SqSum(a.z, b.z);
  }

  lemma SqSum(a: real, b: real)
    ensures Sq(a + b) == Sq(a) + 2.0 * (a * b) + Sq(b)
  {
    assert (a + b) * (a + b) == a * a + 2.0 * (a * b) + b * b;
  }

  lemma LenSqNeg(v: Vec3)
    ensures LenSq(Neg(v)) == LenSq(v)
  {
    assert Sq(-v.x) == Sq(v.x) && Sq(-v.y) == Sq(v.y) && Sq(-v.z) == Sq(v.z);
  }

  lemma DotAddLeft(a: Vec3, b: Vec3, c: Vec3)
    ensures Dot(Add(a, b), c) == Dot(a, c) + Dot(b, c)
  {
  }

  lemma DotNeg(a: Vec3, b: Vec3)
    ensures Dot(a, Neg(b)) == -Dot(a, b)
  {
  }

  lemma NegInvolutive(v: Vec3)
    ensures Neg(Neg(v)) == v
  {
  }

  lemma SubIsAddNeg(a: Vec3, b: Vec3)
    ensures Sub(a, b) == Add(a, Neg(b))
  {
  }

  lemma DotSymmetric(a: Vec3, b: Vec3)
    ensures Dot(a, b) == Dot(b, a)
  {
  }

  /** Subtracting either summand undoes `Add`. */
  lemma AddThenSub(a: Vec3, b: Vec3)
    ensures Sub(Add(a, b), b) == a && Sub(Add(a, b), a) == b
  {
  }

  /** Scaling by one is the identity; scaling by zero, or scaling the zero vector, gives zero. */
  lemma MulIdentityAndZero(v: Vec3, s: real)
    ensures Mul(v, 1.0) == v
    ensures s == 0.0 || v == Zero ==> Mul(v, s) == Zero
  {
  }

  /** The dot product with the zero vector vanishes on either side. */
  lemma DotWithZero(v: Vec3)
    ensures Dot(v, Zero) == 0.0 && Dot(Zero, v) == 0.0
  {
  }

  lemma LenSqIsDot(v: Vec3)
    ensures LenSq(v) == Dot(v, v)
  {
  }

  /** A `Vec3` variable updated through `&mut self`: `add`, `scale` and `scale_inv`
      overwrite its three components in place. */
  class MutVec3 {
    var x: real
    var y: real
    var z: real

    function Value(): Vec3
      reads this
    {
      Vec3(x, y, z)
    }

    constructor (v: Vec3)
      ensures Value() == v
    {
      x, y, z := v.x, v.y, v.z;
    }

    /** In-place `add`: the same value as the `Add` operator applied to the old value. */
    method AddInPlace(other: Vec3)
      modifies this
      ensures Value() == Add(old(Value()), other)
    {
      x := x + other.x;
      y := y + other.y;
      z := z + other.z;
    }

    /** In-place `scale`: every component multiplied by `scalar`. */
    method Scale(scalar: real)
      modifies this
      ensures Value() == Mul(old(Value()), scalar)
    {
      x := x * scalar;
      y := y * scalar;
      z := z * scalar;
    }

    /** In-place `scale_inv`: `scale` by the reciprocal. */
    method ScaleInv(scalar: real)
      requires scalar != 0.0
      modifies this
      ensures Value() == Mul(old(Value()), 1.0 / scalar)
      ensures Mul(Value(), scalar) == old(Value())
    {
      Scale(1.0 / scalar);
    }
  }
}
