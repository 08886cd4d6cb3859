/** A half-line with an origin and a (not necessarily unit) direction. */
module Rays {
  import opened Vectors

  /** `Ray::new(orig, dir)`; the accessors `orig()` and `dir()` are the fields. */
  datatype Ray = Ray(orig: Vec3, dir: Vec3)
  {
    /** The point reached after travelling `t` times the direction from the origin. */
    function At(t: real): (p: Vec3)
      ensures Sub(p, orig) == Mul(dir, t)
    {
      Add(orig, Mul(dir, t))
    }
  }

  lemma AtZero(ray: Ray)
    ensures ray.At(0.0) == ray.orig
  {
  }

  lemma AtZeroDirection(ray: Ray, t: real)
    requires ray.dir == Zero
    ensures ray.At(t) == ray.orig
  {
  }

  /** Moving along a ray is additive in the parameter. */
  lemma AtAdditive(ray: Ray, s: real, t: real)
    ensures ray.At(s + t) == Add(ray.At(s), Mul(ray.dir, t))
  {
  }
}
