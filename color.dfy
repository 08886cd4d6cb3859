/** Conversion of a colour with channels nominally in [0, 1] to three bytes. */
module Colors {
  import opened Vectors
  import opened Intervals

  type Byte = b: int | 0 <= b < 256

  datatype Rgb = Rgb(r: Byte, g: Byte, b: Byte)

  /** `kIntensity`: channels are clamped to [0, 0.999] before scaling. */
  const Intensity := Interval(0.0, 0.999)

  /** Rust's `as u8` on a finite float: truncation toward zero, saturating at 0 and 255. */
  function AsU8(x: real): Byte
  {
    if x <= 0.0 then 0 else if x >= 256.0 then 255 else x.Floor
  }

  /** One channel: `(256 * clamp(c)) as u8`. */
  function Channel(c: real): (b: Byte)
    ensures c <= 0.0 ==> b == 0
    ensures c >= 0.999 ==> b == 255
    ensures 0.0 <= c <= 0.999 ==> b == (256.0 * c).Floor
  {
    AsU8(256.0 * Intensity.Clamp(c))
  }

  /** The bytes that `color_to_string` prints for a colour. */
  function ColorToBytes(color: Vec3): (rgb: Rgb)
    ensures color == Zero ==> rgb == Rgb(0, 0, 0)
    ensures color.x >= 1.0 && color.y >= 1.0 && color.z >= 1.0 ==> rgb == Rgb(255, 255, 255)
  {
    Rgb(Channel(color.x), Channel(color.y), Channel(color.z))
  }

  lemma ChannelMonotone(c: real, d: real)
    requires c <= d
    ensures Channel(c) <= Channel(d)
  {
    var x, y := 256.0 * Intensity.Clamp(c), 256.0 * Intensity.Clamp(d);
    ClampMonotone(Intensity, c, d);
    assert x <= y;
  }

  /** Every byte value is reached: `k / 256` quantises back to `k`. */
  lemma ChannelRoundTrip(k: Byte)
    ensures Channel(k as real / 256.0) == k
  {
    assert k as real / 256.0 <= 255.0 / 256.0 < 0.999;
    assert 256.0 * (k as real / 256.0) == k as real;
  }

  /** Each byte depends on its own channel only. */
  lemma ChannelsIndependent(a: Vec3, b: Vec3)
    ensures a.x == b.x ==> ColorToBytes(a).r == ColorToBytes(b).r
    ensures a.y == b.y ==> ColorToBytes(a).g == ColorToBytes(b).g
    ensures a.z == b.z ==> ColorToBytes(a).b == ColorToBytes(b).b
  {
  }
}
