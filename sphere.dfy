/** Spheres and the ray-sphere intersection: the discriminant test and the choice
    between the two roots of the quadratic. */
module Spheres {
  import opened Options
  import opened Vectors
  import opened Rays
  import opened Intervals
  import opened Materials
  import opened Hits

  datatype Sphere = Sphere(center: Vec3, radius: real, material: Material)
  {
    /** `Sphere::new`: a negative radius is stored as zero. */
    static function New(center: Vec3, radius: real, material: Material): (s: Sphere)
      ensures s.center == center && s.material == material
      ensures radius >= 0.0 ==> s.radius == radius
      ensures radius < 0.0 ==> s.radius == 0.0
    {
      Sphere(center, if radius < 0.0 then 0.0 else radius, material)
    }

    predicate OnSurface(p: Vec3)
    {
      LenSq(Sub(p, center)) == Sq(radius)
    }

    /** `oc`: from the ray origin to the centre. */
    function ToCenter(ray: Ray): Vec3
    {
      Sub(center, ray.orig)
    }

    /** `h`: the (negated) half linear coefficient of the quadratic in `t`. */
    function HalfB(ray: Ray): real
    {
      Dot(ray.dir, ToCenter(ray))
    }

    /** `c`: the constant coefficient. */
    function ConstantTerm(ray: Ray): real
    {
      LenSq(ToCenter(ray)) - Sq(radius)
    }

    /** `h*h - a*c` with `a = len_sq(dir)`. */
    function Discriminant(ray: Ray): real
    {
      Sq(HalfB(ray)) - LenSq(ray.dir) * ConstantTerm(ray)
    }

    /** `(h - sqrt(discriminant)) / a`. */
    function NearRoot(ray: Ray, sqrt: real -> real): real
      requires ray.dir != Zero
    {
      (HalfB(ray) - sqrt(Discriminant(ray))) / LenSq(ray.dir)
    }

    /** `(h + sqrt(discriminant)) / a`. */
    function FarRoot(ray: Ray, sqrt: real -> real): real
      requires ray.dir != Zero
    {
      (HalfB(ray) + sqrt(Discriminant(ray))) / LenSq(ray.dir)
    }

    /** The root selection of `hit`: the nearer root if it lies strictly inside `rayT`,
        otherwise the farther one if it does, otherwise none. This is the least
        parameter in the open interval at which the ray is on the sphere. */
    function Root(ray: Ray, rayT: Interval, sqrt: real -> real): (root: Option<real>)
      requires IsSqrt(sqrt)
      requires ray.dir != Zero
      ensures Discriminant(ray) < 0.0 ==> root == None
      ensures root.Some? ==> rayT.min < root.value < rayT.max && OnSurface(ray.At(root.value))
      ensures root.Some? ==> forall t :: rayT.min < t < rayT.max && OnSurface(ray.At(t)) ==> root.value <= t
      ensures root.None? ==> forall t :: rayT.min < t < rayT.max ==> !OnSurface(ray.At(t))
    {
      if Discriminant(ray) < 0.0 then
        NoRoots(this, ray);
        None
      else
        AllRoots(this, ray, sqrt);
        var near := NearRoot(ray, sqrt);
        if near <= rayT.min || near >= rayT.max then
          var far := FarRoot(ray, sqrt);
          if far <= rayT.min || far >= rayT.max then None else Some(far)
        else
          Some(near)
    }

    /** `Hit for Sphere`: the record at the selected root, with the outward normal
        `(point - center) / radius` oriented against the ray. Reaching the division
        with a zero radius panics, so that case is excluded. */
    function Hit(ray: Ray, rayT: Interval, sqrt: real -> real): (rec: Option<HitRecord>)
      requires IsSqrt(sqrt)
      requires ray.dir != Zero
      requires radius != 0.0 || Root(ray, rayT, sqrt).None?
      ensures rec.None? <==> Root(ray, rayT, sqrt).None?
      ensures rec.Some? ==> Root(ray, rayT, sqrt) == Some(rec.value.t) && rec.value.point == ray.At(rec.value.t)
      ensures rec.Some? ==> rec.value.material == material
      ensures rec.Some? ==> LenSq(rec.value.normal) == 1.0 && Dot(ray.dir, rec.value.normal) <= 0.0
      ensures rec.Some? ==> (rec.value.frontFace <==> Dot(ray.dir, Div(Sub(rec.value.point, center), radius)) < 0.0)
      ensures rec.Some? ==> (var outward := Div(Sub(rec.value.point, center), radius);
        rec.value.normal == if rec.value.frontFace then outward else Neg(outward))
    {
      match Root(ray, rayT, sqrt)
      case None => None
      case Some(t) =>
        var point := ray.At(t);
        UnitLenSq(Sub(point, center), radius);
        var outwardNormal := Div(Sub(point, center), radius);
        Some(HitRecord.New(point, ray, t, outwardNormal, material))
    }
  }

  /** `a * x == 0` with `a != 0` forces `x == 0`. */
  lemma ZeroProduct(x: real, a: real)
    requires a != 0.0 && a * x == 0.0
    ensures x == 0.0
  {
    assert x == (a * x) / a;
  }

  /** A product with a positive factor is non-negative only if the other factor is. */
  lemma PositiveFactor(a: real, x: real)
    requires a > 0.0 && a * x >= 0.0
    ensures x >= 0.0
  {
  }

  /** Two numbers with the same square are equal or opposite. */
  lemma SameSquare(x: real, s: real)
    requires Sq(x) == Sq(s)
    ensures x == s || x == -s
  {
    assert (x - s) * (x + s) == Sq(x) - Sq(s);
    if x - s != 0.0 {
      ZeroProduct(x + s, x - s);
    }
  }

  /** One component of `at(t) - center`, squared and expanded in `t`. */
  lemma ComponentQuadratic(d: real, t: real, k: real, p: real)
    requires p == d * t - k
    ensures Sq(p) == Sq(t) * Sq(d) - 2.0 * t * (d * k) + Sq(k)
  {
    assert (d * t - k) * (d * t - k) == (t * t) * (d * d) - 2.0 * t * (d * k) + k * k;
  }

  /** The three components together. */
  lemma ComponentsQuadratic(dx: real, dy: real, dz: real, kx: real, ky: real, kz: real, t: real, px: real, py: real, pz: real)
    requires px == dx * t - kx && py == dy * t - ky && pz == dz * t - kz
    ensures Sq(px) + Sq(py) + Sq(pz)
         == Sq(t) * (Sq(dx) + Sq(dy) + Sq(dz)) - 2.0 * t * (dx * kx + dy * ky + dz * kz) + (Sq(kx) + Sq(ky) + Sq(kz))
  {
    ComponentQuadratic(dx, t, kx, px);
    ComponentQuadratic(dy, t, ky, py);
    ComponentQuadratic(dz, t, kz, pz);
  }

  /** The squared distance from the centre along the ray is the quadratic
      `a*t*t - 2*h*t + len_sq(oc)`. */
  lemma DistanceQuadratic(s: Sphere, ray: Ray, t: real)
    ensures LenSq(Sub(ray.At(t), s.center)) == Sq(t) * LenSq(ray.dir) - 2.0 * t * s.HalfB(ray) + LenSq(s.ToCenter(ray))
  {
    var d, k := ray.dir, s.ToCenter(ray);
    var p := Sub(ray.At(t), s.center);
    assert p.x == d.x * t - k.x && p.y == d.y * t - k.y && p.z == d.z * t - k.z;
    ComponentsQuadratic(d.x, d.y, d.z, k.x, k.y, k.z, t, p.x, p.y, p.z);
  }

  /** The ray is on the sphere at `t` exactly when `t` solves `a*t*t - 2*h*t + c == 0`. */
  lemma OnSurfaceIffQuadratic(s: Sphere, ray: Ray, t: real)
    ensures s.OnSurface(ray.At(t)) <==> Sq(t) * LenSq(ray.dir) - 2.0 * t * s.HalfB(ray) + s.ConstantTerm(ray) == 0.0
  {
    DistanceQuadratic(s, ray, t);
  }

  /** Multiplying `a*t*t - 2*h*t + c` by a non-zero `a` completes the square. */
  lemma QuadraticIffSquare(a: real, t: real, h: real, c: real)
    requires a != 0.0
    ensures Sq(t) * a - 2.0 * t * h + c == 0.0 <==> Sq(a * t - h) == Sq(h) - a * c
  {
    var q := Sq(t) * a - 2.0 * t * h + c;
    assert Sq(a * t - h) == a * q + (Sq(h) - a * c) by {
      assert (a * t - h) * (a * t - h) == a * ((t * t) * a - 2.0 * t * h + c) + (h * h - a * c);
    }
    if a * q == 0.0 {
      ZeroProduct(q, a);
    }
  }

  /** The solutions of `a*t*t - 2*h*t + c == 0` for `a > 0`, given a square root `s`
      of the discriminant `h*h - a*c`, are `(h - s)/a <= (h + s)/a`. */
  lemma QuadraticRoots(a: real, h: real, c: real, s: real, t: real)
    requires a > 0.0 && s >= 0.0 && Sq(s) == Sq(h) - a * c
    ensures (h - s) / a <= (h + s) / a
    ensures Sq(t) * a - 2.0 * t * h + c == 0.0 <==> t == (h - s) / a || t == (h + s) / a
  {
    var near, far := (h - s) / a, (h + s) / a;
    assert a * near == h - s && a * far == h + s;
    PositiveFactor(a, far - near);
    QuadraticIffSquare(a, t, h, c);
    SquareIffRoot(a, h, s, t);
  }

  /** `(a*t - h)^2 == s^2` exactly when `t` is `(h - s)/a` or `(h + s)/a`. */
  lemma SquareIffRoot(a: real, h: real, s: real, t: real)
    requires a > 0.0
    ensures Sq(a * t - h) == Sq(s) <==> t == (h - s) / a || t == (h + s) / a
  {
    SquareIff(a * t - h, s);
    LinearRoot(a, t, h - s);
    LinearRoot(a, t, h + s);
  }

  /** Two numbers have the same square exactly when they are equal or opposite. */
  lemma SquareIff(d: real, s: real)
    ensures Sq(d) == Sq(s) <==> d == s || d == -s
  {
    if Sq(d) == Sq(s) {
      SameSquare(d, s);
    } else {
      assert Sq(-s) == Sq(s);
    }
  }

  /** `a*t == y` exactly when `t == y/a`. */
  lemma LinearRoot(a: real, t: real, y: real)
    requires a != 0.0
    ensures a * t == y <==> t == y / a
  {
    assert a * (y / a) == y;
    if a * t == y {
      assert a * (t - y / a) == 0.0;
      ZeroProduct(t - y / a, a);
    }
  }

  /** The ray is on the sphere at `t` exactly when `t` is one of the two roots, and the
      nearer root is the smaller. */
  lemma OnSurfaceIffRoot(s: Sphere, ray: Ray, sqrt: real -> real, t: real)
    requires IsSqrt(sqrt)
    requires ray.dir != Zero
    requires s.Discriminant(ray) >= 0.0
    ensures s.NearRoot(ray, sqrt) <= s.FarRoot(ray, sqrt)
    ensures s.OnSurface(ray.At(t)) <==> t == s.NearRoot(ray, sqrt) || t == s.FarRoot(ray, sqrt)
  {
    OnSurfaceIffQuadratic(s, ray, t);
    RaySolvesQuadratic(s, ray, sqrt, t);
  }

  /** `QuadraticRoots` for the coefficients of a ray and a sphere. */
  lemma RaySolvesQuadratic(s: Sphere, ray: Ray, sqrt: real -> real, t: real)
    requires IsSqrt(sqrt)
    requires ray.dir != Zero
    requires s.Discriminant(ray) >= 0.0
    ensures s.NearRoot(ray, sqrt) <= s.FarRoot(ray, sqrt)
    ensures Sq(t) * LenSq(ray.dir) - 2.0 * t * s.HalfB(ray) + s.ConstantTerm(ray) == 0.0
        <==> t == s.NearRoot(ray, sqrt) || t == s.FarRoot(ray, sqrt)
  {
    var a, h, c := LenSq(ray.dir), s.HalfB(ray), s.ConstantTerm(ray);
    var root := sqrt(s.Discriminant(ray));
    assert root >= 0.0 && Sq(root) == Sq(h) - a * c;
    assert s.NearRoot(ray, sqrt) == (h - root) / a && s.FarRoot(ray, sqrt) == (h + root) / a;
    QuadraticRoots(a, h, c, root, t);
  }

  /** With a non-negative discriminant the ray is on the sphere at exactly the two
      roots, and the nearer root is the smaller. */
  lemma AllRoots(s: Sphere, ray: Ray, sqrt: real -> real)
    requires IsSqrt(sqrt)
    requires ray.dir != Zero
    requires s.Discriminant(ray) >= 0.0
    ensures s.NearRoot(ray, sqrt) <= s.FarRoot(ray, sqrt)
    ensures forall t :: s.OnSurface(ray.At(t)) <==> t == s.NearRoot(ray, sqrt) || t == s.FarRoot(ray, sqrt)
  {
    OnSurfaceIffRoot(s, ray, sqrt, 0.0);
    forall t
      ensures s.OnSurface(ray.At(t)) <==> t == s.NearRoot(ray, sqrt) || t == s.FarRoot(ray, sqrt)
    {
      OnSurfaceIffRoot(s, ray, sqrt, t);
    }
  }

  /** With a negative discriminant the ray never meets the sphere. */
  lemma NoRoots(s: Sphere, ray: Ray)
    requires ray.dir != Zero
    requires s.Discriminant(ray) < 0.0
    ensures forall t :: !s.OnSurface(ray.At(t))
  {
    forall t
      ensures !s.OnSurface(ray.At(t))
    {
      OnSurfaceIffQuadratic(s, ray, t);
      QuadraticIffSquare(LenSq(ray.dir), t, s.HalfB(ray), s.ConstantTerm(ray));
    }
  }

  /** Querying with a smaller exclusive upper bound `c` finds the same root if it lies
      below `c`, and nothing otherwise. */
  lemma RootNarrowed(s: Sphere, ray: Ray, rayT: Interval, c: real, sqrt: real -> real)
    requires IsSqrt(sqrt)
    requires ray.dir != Zero
    requires c <= rayT.max
    ensures var full := s.Root(ray, rayT, sqrt);
      s.Root(ray, Interval(rayT.min, c), sqrt) == if full.Some? && full.value < c then full else None
  {
    var full := s.Root(ray, rayT, sqrt);
    var narrow := s.Root(ray, Interval(rayT.min, c), sqrt);
    if narrow.Some? {
      var t := narrow.value;
      assert rayT.min < t < rayT.max && s.OnSurface(ray.At(t));
    }
    if full.Some? && full.value < c {
      var t := full.value;
      assert rayT.min < t < c && s.OnSurface(ray.At(t));
    }
  }

  /** The sphere-level form of `RootNarrowed`, used by the scene's nearest-hit loop. */
  lemma HitNarrowed(s: Sphere, ray: Ray, rayT: Interval, c: real, sqrt: real -> real)
    requires IsSqrt(sqrt)
    requires ray.dir != Zero
    requires s.radius != 0.0 || s.Root(ray, rayT, sqrt).None?
    requires c <= rayT.max
    ensures s.radius != 0.0 || s.Root(ray, Interval(rayT.min, c), sqrt).None?
    ensures var full := s.Hit(ray, rayT, sqrt);
      s.Hit(ray, Interval(rayT.min, c), sqrt) == if full.Some? && full.value.t < c then full else None
  {
    RootNarrowed(s, ray, rayT, c, sqrt);
  }
}
