/** The surface materials of the scene. Lambertian (diffuse) is the only one. */
module Materials {
  import opened Vectors

  /** `Lambertian::new(albedo)`; `albedo()` is the field. */
  datatype Material = Lambertian(albedo: Vec3)
}

/** How a material turns an incoming ray at a hit into an outgoing one. */
module Scattering {
  import opened Vectors
  import opened Rays
  import opened Materials
  import opened Hits

  /** The scattered ray and the colour it is attenuated by; the accessors are the fields. */
  datatype ScatterResult = ScatterResult(scattered: Ray, attenuation: Vec3)

  /** Lambertian scattering always produces a ray (a Lambertian never absorbs): it leaves
      the hit point along the hit normal plus a random unit vector, supplied here as
      `randomUnit`, and is attenuated by the albedo. The incoming ray is not used. */
  function Scatter(m: Material, incoming: Ray, rec: HitRecord, randomUnit: Vec3): (res: ScatterResult)
    ensures res.attenuation == m.albedo
    ensures res.scattered.orig == rec.point
    ensures Sub(res.scattered.dir, rec.normal) == randomUnit
  {
    ScatterResult(Ray(rec.point, Add(rec.normal, randomUnit)), m.albedo)
  }

  lemma ScatterIgnoresIncoming(m: Material, a: Ray, b: Ray, rec: HitRecord, randomUnit: Vec3)
    ensures Scatter(m, a, rec, randomUnit) == Scatter(m, b, rec, randomUnit)
  {
  }

  /** With a unit normal and a unit sample the scattered direction never points into the
      surface: its component along the normal is half its squared length. It is the zero
      vector exactly when the sample is the negated normal. */
  lemma ScatterLeavesSurface(m: Material, incoming: Ray, rec: HitRecord, randomUnit: Vec3)
    requires LenSq(rec.normal) == 1.0 && LenSq(randomUnit) == 1.0
    ensures var dir := Scatter(m, incoming, rec, randomUnit).scattered.dir;
      2.0 * Dot(dir, rec.normal) == LenSq(dir) && Dot(dir, rec.normal) >= 0.0
    ensures Scatter(m, incoming, rec, randomUnit).scattered.dir == Zero <==> randomUnit == Neg(rec.normal)
  {
    var n, u := rec.normal, randomUnit;
    var dir := Add(n, u);
    LenSqAdd(n, u);
    LenSqIsDot(n);
    DotAddLeft(n, u, n);
    DotSymmetric(u, n);
    assert Dot(dir, n) == 1.0 + Dot(n, u);
    assert LenSq(dir) == 2.0 + 2.0 * Dot(n, u);
  }
}
