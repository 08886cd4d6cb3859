/** The camera: image size, the pixel grid on the viewport, primary rays and the
    recursive colour of a ray. */
module Cameras {
  import opened Options
  import opened Vectors
  import opened Rays
  import opened Intervals
  import opened Spheres
  import opened Scene

  const U32Max: int := 0xFFFF_FFFF

  type U32 = x: int | 0 <= x <= U32Max

  /** `f64::MAX`, the upper bound of the ray parameter when the world is queried. */
  const F64Max: real := 179769313486231570814527423731704356798070567525844996598917476803157260780028538760589558632766878171540458953514382464234321326889464182768467546703537516986049910576551282076245490090389328944075868508455133942304583236903222948165808559332123348274797826204144723168738177180919299881250404026184124858368.0

  /** Rust's `as u32` on a finite float: truncation toward zero, saturating at both ends. */
  function AsU32(x: real): U32
  {
    if x <= 0.0 then 0 else if x >= U32Max as real + 1.0 then U32Max else x.Floor
  }

  /** `compute_image_height`: `width / aspect_ratio` cast to `u32`, raised to at least 1. */
  function ComputeImageHeight(imageWidth: U32, aspectRatio: real): (h: U32)
    requires aspectRatio != 0.0
    ensures h >= 1
    ensures 1.0 <= imageWidth as real / aspectRatio < U32Max as real + 1.0 ==> h == (imageWidth as real / aspectRatio).Floor
    ensures imageWidth as real / aspectRatio < 1.0 ==> h == 1
    ensures imageWidth as real / aspectRatio >= U32Max as real + 1.0 ==> h == U32Max
  {
    var h := AsU32(imageWidth as real / aspectRatio);
    if h < 1 then 1 else h
  }

  /** `actual_aspect_ratio`: the ratio of the integer image dimensions. */
  function ActualAspectRatio(imageWidth: U32, imageHeight: U32): real
    requires imageHeight != 0
  {
    imageWidth as real / imageHeight as real
  }

  /** The aspect ratio recovers the width from the height. */
  lemma AspectRatioRecoversWidth(imageWidth: U32, imageHeight: U32)
    requires imageHeight != 0
    ensures ActualAspectRatio(imageWidth, imageHeight) * imageHeight as real == imageWidth as real
    ensures ActualAspectRatio(imageWidth, imageHeight) >= 0.0
    ensures imageWidth == imageHeight ==> ActualAspectRatio(imageWidth, imageHeight) == 1.0
  {
    if imageWidth == imageHeight {
      var r, h := ActualAspectRatio(imageWidth, imageHeight), imageHeight as real;
      assert (r - 1.0) * h == 0.0;
      ZeroProduct(r - 1.0, h);
    }
  }

  /** What the model assumes of the hemisphere sampler: the draw for bounce `d` around a
      unit normal `n` is a unit vector on the side of `n`. */
  ghost predicate IsHemisphereSampler(hemisphere: (nat, Vec3) -> Vec3)
  {
    forall d: nat, n: Vec3 :: LenSq(n) == 1.0 ==>
      LenSq(hemisphere(d, n)) == 1.0 && Dot(hemisphere(d, n), n) >= 0.0
  }

  /** The background: white blended toward light blue by `a = (y + 1) / 2`. */
  function Sky(unitDirection: Vec3): (color: Vec3)
    ensures -1.0 <= unitDirection.y <= 1.0 ==>
      0.5 <= color.x <= 1.0 && 0.7 <= color.y <= 1.0 && color.z == 1.0
  {
    var a := 0.5 * (unitDirection.y + 1.0);
    Add(Mul(Vec3(1.0, 1.0, 1.0), 1.0 - a), Mul(Vec3(0.5, 0.7, 1.0), a))
  }

  /** Straight down gives white, straight up gives `(0.5, 0.7, 1.0)`. */
  lemma SkyEnds(v: Vec3)
    ensures v.y == -1.0 ==> Sky(v) == Vec3(1.0, 1.0, 1.0)
    ensures v.y == 1.0 ==> Sky(v) == Vec3(0.5, 0.7, 1.0)
  {
  }

  datatype Camera = Camera(
    imageWidth: U32,
    imageHeight: U32,
    center: Vec3,
    pixelDeltaU: Vec3,
    pixelDeltaV: Vec3,
    pixelUpperLeft: Vec3,
    samplesPerPixel: U32,
    maxDepth: U32)
  {
    /** The geometry `Camera::new` sets up, in closed form: the eye at the origin, a
        viewport of height 2 at `z = -1` whose width follows the image's aspect ratio,
        square pixels of side `2 / height`, and pixel (0, 0) centred half a step inside
        the viewport's upper-left corner. */
    ghost predicate Valid()
    {
      && imageWidth >= 1 && imageHeight >= 1
      && var w, h := imageWidth as real, imageHeight as real;
      var side := 2.0 / h;
      && center == Zero
      && pixelDeltaU == Vec3(side, 0.0, 0.0)
      && pixelDeltaV == Vec3(0.0, -side, 0.0)
      && pixelUpperLeft == Vec3(-w / h + side / 2.0, 1.0 - side / 2.0, -1.0)
    }

    /** `Camera::new`. A zero width panics in the division by the width. */
    static function New(aspectRatio: real, imageWidth: U32, samplesPerPixel: U32, maxDepth: U32): (cam: Camera)
      requires aspectRatio != 0.0
      requires imageWidth != 0
      ensures cam.Valid()
      ensures cam.imageWidth == imageWidth && cam.imageHeight == ComputeImageHeight(imageWidth, aspectRatio)
      ensures cam.samplesPerPixel == samplesPerPixel && cam.maxDepth == maxDepth
    {
      var imageHeight := ComputeImageHeight(imageWidth, aspectRatio);
      Place(imageWidth, imageHeight, samplesPerPixel, maxDepth)
    }

    /** The part of `Camera::new` after the image height is known: the viewport and
        the pixel grid on it. */
    static function Place(imageWidth: U32, imageHeight: U32, samplesPerPixel: U32, maxDepth: U32): (cam: Camera)
      requires imageWidth != 0 && imageHeight != 0
      ensures cam.Valid()
      ensures cam.imageWidth == imageWidth && cam.imageHeight == imageHeight
      ensures cam.samplesPerPixel == samplesPerPixel && cam.maxDepth == maxDepth
    {
      var focalLength := 1.0;
      var viewportHeight := 2.0;
      var viewportWidth := viewportHeight * ActualAspectRatio(imageWidth, imageHeight);
      var cameraCenter := Zero;
      var center := Zero;
      var viewportU := Vec3(viewportWidth, 0.0, 0.0);
      var viewportV := Vec3(0.0, -viewportHeight, 0.0);
      var pixelDeltaU := Div(viewportU, imageWidth as real);
      var pixelDeltaV := Div(viewportV, imageHeight as real);
      var viewportUpperLeft := Sub(Sub(Add(cameraCenter, Vec3(0.0, 0.0, -focalLength)), Div(viewportU, 2.0)), Div(viewportV, 2.0));
      var pixelUpperLeft := Add(viewportUpperLeft, Mul(Add(pixelDeltaU, pixelDeltaV), 0.5));
      GridClosedForm(imageWidth as real, imageHeight as real);
      Camera(imageWidth, imageHeight, center, pixelDeltaU, pixelDeltaV, pixelUpperLeft, samplesPerPixel, maxDepth)
    }

    /** `get_ray` for a given sub-pixel `offset` (only its x and y are used): from the
        camera centre toward the sample point of pixel (`row`, `col`). */
    function GetRay(row: U32, col: U32, offset: Vec3): (ray: Ray)
      ensures ray.orig == center
      ensures Add(ray.orig, ray.dir)
        == Add(Add(pixelUpperLeft, Mul(pixelDeltaU, offset.x + col as real)), Mul(pixelDeltaV, offset.y + row as real))
    {
      var pixelSample := Add(Add(pixelUpperLeft, Mul(pixelDeltaU, offset.x + col as real)), Mul(pixelDeltaV, offset.y + row as real));
      Ray(center, Sub(pixelSample, center))
    }

    /** `compute_ray_color`. The world is queried on `(0, f64::MAX)`; at a hit the colour
        of the bounced ray, whose direction is the hemisphere sample around the hit
        normal, is halved; a miss shows the sky; at the depth limit the result is black.
        Every sphere has a non-zero radius, so no query reaches the panicking division. */
    function RayColor(ray: Ray, depth: nat, world: HittableList, hemisphere: (nat, Vec3) -> Vec3, sqrt: real -> real): (color: Vec3)
      requires IsSqrt(sqrt)
      requires IsHemisphereSampler(hemisphere)
      requires depth <= maxDepth
      requires ray.dir != Zero
      requires forall o :: o in world.objects ==> o.radius != 0.0
      reads world
      ensures depth == maxDepth ==> color == Zero
      ensures 0.0 <= color.x <= 1.0 && 0.0 <= color.y <= 1.0 && 0.0 <= color.z <= 1.0
      ensures depth < maxDepth && Nearest(world.objects, ray, Interval(0.0, F64Max), sqrt).None? ==>
        color == Sky(UnitVec(ray.dir, sqrt))
      ensures depth < maxDepth && Nearest(world.objects, ray, Interval(0.0, F64Max), sqrt).Some? ==>
        color.x <= 0.5 && color.y <= 0.5 && color.z <= 0.5
      decreases maxDepth - depth
    {
      if depth == maxDepth then Zero
      else
        match Nearest(world.objects, ray, Interval(0.0, F64Max), sqrt)
        case Some(rec) =>
          var direction := hemisphere(depth, rec.normal);
          Mul(RayColor(Ray(rec.point, direction), depth + 1, world, hemisphere, sqrt), 0.5)
        case None =>
          Sky(UnitVec(ray.dir, sqrt))
    }
  }

  /** The pixel grid of `Camera::new` for a `w` by `h` image, in closed form. */
  lemma GridClosedForm(w: real, h: real)
    requires w > 0.0 && h > 0.0
    ensures var viewportU := Vec3(2.0 * (w / h), 0.0, 0.0);
      var viewportV := Vec3(0.0, -2.0, 0.0);
      var pixelDeltaU := Div(viewportU, w);
      var pixelDeltaV := Div(viewportV, h);
      var viewportUpperLeft := Sub(Sub(Add(Zero, Vec3(0.0, 0.0, -1.0)), Div(viewportU, 2.0)), Div(viewportV, 2.0));
      var side := 2.0 / h;
      && pixelDeltaU == Vec3(side, 0.0, 0.0)
      && pixelDeltaV == Vec3(0.0, -side, 0.0)
      && Add(viewportUpperLeft, Mul(Add(pixelDeltaU, pixelDeltaV), 0.5)) == Vec3(-w / h + side / 2.0, 1.0 - side / 2.0, -1.0)
  {
    ScaledRatio(2.0, w, h);
    NegDiv(2.0, h);
  }

  /** `(k * (w/h)) / w == k/h`: the viewport width over the image width is the
      viewport height over the image height. */
  lemma ScaledRatio(k: real, w: real, h: real)
    requires w != 0.0 && h != 0.0
    ensures (k * (w / h)) / w == k / h
  {
    var r := w / h;
    var x := (k * r) / w;
    assert r * h == w;
    assert x * w == k * r;
    assert (x * h) * w == k * w;
    assert (x * h - k) * w == 0.0;
    ZeroProduct(x * h - k, w);
  }

  lemma NegDiv(a: real, h: real)
    requires h != 0.0
    ensures (-a) / h == -(a / h)
  {
  }

  /** With an offset in the unit square around the pixel centre, the primary ray passes
      through the viewport at `z = -1`, inside the square cell of pixel (`row`, `col`). */
  lemma GetRayInPixel(cam: Camera, row: U32, col: U32, offset: Vec3)
    requires cam.Valid()
    requires -0.5 <= offset.x <= 0.5 && -0.5 <= offset.y <= 0.5
    ensures var dir := cam.GetRay(row, col, offset).dir;
      var w, h := cam.imageWidth as real, cam.imageHeight as real;
      && dir.z == -1.0
      && -w / h + col as real * (2.0 / h) <= dir.x <= -w / h + (col as real + 1.0) * (2.0 / h)
      && 1.0 - (row as real + 1.0) * (2.0 / h) <= dir.y <= 1.0 - row as real * (2.0 / h)
  {
    var w, h := cam.imageWidth as real, cam.imageHeight as real;
    var s := 2.0 / h;
    var dir := cam.GetRay(row, col, offset).dir;
    assert dir.x == -w / h + s / 2.0 + s * (offset.x + col as real);
    assert dir.y == 1.0 - s / 2.0 - s * (offset.y + row as real);
    assert s > 0.0;
    Scaled(s, offset.x + 0.5, 1.0);
    Scaled(s, offset.y + 0.5, 1.0);
  }

  /** `0 <= x <= y` scaled by a positive `s` stays ordered. */
  lemma Scaled(s: real, x: real, y: real)
    requires s > 0.0 && 0.0 <= x <= y
    ensures 0.0 <= s * x <= s * y
  {
    assert s * y - s * x == s * (y - x);
  }

  /** The centres of pixels (`row`, `col`) and (`height-1-row`, `width-1-col`) are
      mirror images through the view axis: the grid is centred on the screen. */
  lemma PixelGridCentred(cam: Camera, row: U32, col: U32)
    requires cam.Valid()
    requires row < cam.imageHeight && col < cam.imageWidth
    ensures var p := cam.GetRay(row, col, Zero).dir;
      var q := cam.GetRay(cam.imageHeight - 1 - row, cam.imageWidth - 1 - col, Zero).dir;
      Add(p, q) == Vec3(0.0, 0.0, -2.0)
  {
    var w, h := cam.imageWidth as real, cam.imageHeight as real;
    ScaledRatio(2.0, w, h);
    assert w / h == (2.0 / h) / 2.0 * w;
  }
}
