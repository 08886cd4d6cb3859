/** The record of a ray meeting a surface, and the orientation rule that makes
    its normal face against the incoming ray. */
module Hits {
  import opened Vectors
  import opened Rays
  import opened Materials

  /** `point`, `normal`, `t`, `front_face` and `material`; the accessors are the fields.
      The material is held by value instead of through a shared pointer. */
  datatype HitRecord = HitRecord(point: Vec3, normal: Vec3, t: real, frontFace: bool, material: Material)
  {
    /** `HitRecord::new`: the ray hits the front face when it travels against the
        outward normal; the stored normal is the outward one flipped, if needed,
        to face the ray. */
    static function New(point: Vec3, ray: Ray, t: real, outwardNormal: Vec3, material: Material): (rec: HitRecord)
      ensures rec.frontFace <==> Dot(ray.dir, outwardNormal) < 0.0
      ensures rec.normal == (if rec.frontFace then outwardNormal else Neg(outwardNormal))
      ensures Dot(ray.dir, rec.normal) <= 0.0
      ensures LenSq(rec.normal) == LenSq(outwardNormal)
      ensures rec.point == point && rec.t == t && rec.material == material
    {
      var frontFace := Dot(ray.dir, outwardNormal) < 0.0;
      DotNeg(ray.dir, outwardNormal);
      LenSqNeg(outwardNormal);
      HitRecord(point, if frontFace then outwardNormal else Neg(outwardNormal), t, frontFace, material)
    }
  }

  /** Orienting an already oriented normal again keeps it, unless the ray grazes the
      surface (`dot == 0`), where the rule treats the face as a back face and flips. */
  lemma ReorientStable(rec: HitRecord, ray: Ray)
    requires Dot(ray.dir, rec.normal) < 0.0
    ensures HitRecord.New(rec.point, ray, rec.t, rec.normal, rec.material).normal == rec.normal
  {
  }

  lemma ReorientGrazingFlips(rec: HitRecord, ray: Ray)
    requires Dot(ray.dir, rec.normal) == 0.0
    ensures HitRecord.New(rec.point, ray, rec.t, rec.normal, rec.material).normal == Neg(rec.normal)
  {
  }
}
