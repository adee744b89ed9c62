/**
 * Colour values: channel-wise arithmetic, the tolerant equality used by the
 * tests, and the conversion of a channel to a byte for the image file.
 * Channels are `f64` in the source and `real` here.
 */
module Colors {

  /** Tolerance of the colour comparison. */
  const Epsilon: real := 0.00001

  datatype Color = Color(red: real, green: real, blue: real)

  const Black := Color(0.0, 0.0, 0.0)
  const White := Color(1.0, 1.0, 1.0)

  function Add(a: Color, b: Color): Color
  {
    Color(a.red + b.red, a.green + b.green, a.blue + b.blue)
  }

  function Sub(a: Color, b: Color): Color
  {
    Color(a.red - b.red, a.green - b.green, a.blue - b.blue)
  }

  /** Multiplication by a scalar. */
  function Scale(c: Color, k: real): Color
  {
    Color(c.red * k, c.green * k, c.blue * k)
  }

  /** The Hadamard (channel by channel) product of two colours. */
  function Hadamard(a: Color, b: Color): Color
  {
    Color(a.red * b.red, a.green * b.green, a.blue * b.blue)
  }

  /** Subtracting what was added gives back the original colour. */
  lemma AddSubInverse(a: Color, b: Color)
    ensures Sub(Add(a, b), b) == a
    ensures Add(Sub(a, b), b) == a
  {
  }

  lemma AddCommutes(a: Color, b: Color)
    ensures Add(a, b) == Add(b, a)
  {
  }

  lemma HadamardCommutes(a: Color, b: Color)
    ensures Hadamard(a, b) == Hadamard(b, a)
  {
  }

  /** Scaling is the Hadamard product with a grey of that level: both act on each channel alone. */
  lemma ScaleIsHadamardWithGrey(c: Color, k: real)
    ensures Scale(c, k) == Hadamard(c, Color(k, k, k))
    ensures Hadamard(c, White) == c
  {
  }

  lemma ScaleDistributesOverAdd(a: Color, b: Color, k: real)
    ensures Scale(Add(a, b), k) == Add(Scale(a, k), Scale(b, k))
  {
  }

  /** The arithmetic cases checked by the Rust implementation's tests, exact over the reals. */
  lemma ArithmeticExamples()
    ensures Add(Color(0.9, 0.6, 0.75), Color(0.7, 0.1, 0.25)) == Color(1.6, 0.7, 1.0)
    ensures Sub(Color(0.9, 0.6, 0.75), Color(0.7, 0.1, 0.25)) == Color(0.2, 0.5, 0.5)
    ensures Scale(Color(0.2, 0.3, 0.4), 2.0) == Color(0.4, 0.6, 0.8)
    ensures Hadamard(Color(1.0, 0.2, 0.4), Color(0.9, 1.0, 0.1)) == Color(0.9, 0.2, 0.04)
  {
  }

  function Abs(v: real): (r: real)
    ensures 0.0 <= r && (r == v || r == -v)
  {
    if v < 0.0 then -v else v
  }

  /** `PartialEq::eq`: every channel differs by less than Epsilon. */
  predicate Eq(a: Color, b: Color)
  {
    Abs(a.red - b.red) < Epsilon &&
    Abs(a.green - b.green) < Epsilon &&
    Abs(a.blue - b.blue) < Epsilon
  }

  /** `PartialEq::ne`. */
  predicate Ne(a: Color, b: Color)
  {
    !Eq(a, b)
  }

  lemma EqReflexive(a: Color)
    ensures Eq(a, a)
  {
  }

  lemma EqSymmetric(a: Color, b: Color)
    ensures Eq(a, b) <==> Eq(b, a)
  {
  }

  /** Eq is exactly "every channel within Epsilon", in both directions. */
  lemma EqMeansChannelsClose(a: Color, b: Color)
    ensures Eq(a, b) <==> (-Epsilon < a.red - b.red < Epsilon &&
                           -Epsilon < a.green - b.green < Epsilon &&
                           -Epsilon < a.blue - b.blue < Epsilon)
  {
  }

  /** Three colours each within tolerance of the next, while the outer two are not. */
  lemma EqNotTransitive()
    ensures exists a, b, c :: Eq(a, b) && Eq(b, c) && !Eq(a, c)
  {
    var a, b, c := Black, Color(0.000006, 0.0, 0.0), Color(0.000012, 0.0, 0.0);
    assert Eq(a, b) && Eq(b, c) && !Eq(a, c);
  }

  lemma NeIsNotEq(a: Color, b: Color)
    ensures Ne(a, b) <==> !Eq(a, b)
  {
  }

  /** Rust's `u8`. */
  newtype Byte = b: int | 0 <= b < 256

  /** A colour as three bytes, the form written into the image file. */
  datatype ColorU8 = ColorU8(red: Byte, green: Byte, blue: Byte)

  /** `f64::round`: to the nearest integer, halves away from zero. */
  function Round(v: real): (r: int)
    ensures 0.0 <= v ==> r as real - 0.5 <= v < r as real + 0.5
    ensures v < 0.0 ==> r as real - 0.5 < v <= r as real + 0.5
  {
    if 0.0 <= v then (v + 0.5).Floor else -((-v + 0.5).Floor)
  }

  /** The `as u8` cast of an integral `f64`: saturates at both ends. */
  function SaturateToByte(i: int): (b: Byte)
    ensures i <= 0 ==> b == 0
    ensures 255 <= i ==> b == 255
    ensures 0 <= i <= 255 ==> b as int == i
  {
    if i < 0 then 0 else if 255 < i then 255 else i as Byte
  }

  /** `normalize_u8_part`: `(part * 255.0).round() as u8`. */
  function NormalizeU8Part(part: real): (b: Byte)
    ensures part <= 0.0 ==> b == 0
    ensures 1.0 <= part ==> b == 255
    ensures 0.0 <= part <= 1.0 ==> b as real - 0.5 <= part * 255.0 < b as real + 0.5
  {
    SaturateToByte(Round(part * 255.0))
  }

  /** The conversion never decreases: a brighter channel never gives a smaller byte. */
  lemma NormalizeU8PartMonotone(p: real, q: real)
    requires p <= q
    ensures NormalizeU8Part(p) <= NormalizeU8Part(q)
  {
    RoundMonotone(p * 255.0, q * 255.0);
  }

  lemma RoundMonotone(v: real, w: real)
    requires v <= w
    ensures Round(v) <= Round(w)
  {
    if v < 0.0 && 0.0 <= w {
    } else if 0.0 <= v {
      assert (v + 0.5).Floor <= (w + 0.5).Floor;
    } else {
      assert (-w + 0.5).Floor <= (-v + 0.5).Floor;
    }
  }

  /** The byte values checked by the Rust implementation's tests; 0.3 and 0.7 sit on a half and round up. */
  lemma NormalizeU8PartExamples()
    ensures NormalizeU8Part(0.0) == 0 && NormalizeU8Part(0.1) == 26
    ensures NormalizeU8Part(0.2) == 51 && NormalizeU8Part(0.3) == 77
    ensures NormalizeU8Part(0.4) == 102 && NormalizeU8Part(0.5) == 128
    ensures NormalizeU8Part(0.6) == 153 && NormalizeU8Part(0.7) == 179
    ensures NormalizeU8Part(0.8) == 204 && NormalizeU8Part(0.9) == 230
    ensures NormalizeU8Part(1.0) == 255 && NormalizeU8Part(1.5) == 255
    ensures NormalizeU8Part(-0.1) == 0 && NormalizeU8Part(-10.1) == 0
  {
  }

  /** `normalize_u8`: each channel converted on its own. */
  function NormalizeU8(c: Color): ColorU8
  {
    ColorU8(NormalizeU8Part(c.red), NormalizeU8Part(c.green), NormalizeU8Part(c.blue))
  }

  /** Each byte depends on its own channel only, through the same conversion. */
  lemma NormalizeU8Channelwise(a: Color, b: Color)
    ensures a.red == b.red ==> NormalizeU8(a).red == NormalizeU8(b).red
    ensures a.green == b.green ==> NormalizeU8(a).green == NormalizeU8(b).green
    ensures a.blue == b.blue ==> NormalizeU8(a).blue == NormalizeU8(b).blue
    ensures NormalizeU8(Color(a.red, a.red, a.red)) ==
            ColorU8(NormalizeU8(a).red, NormalizeU8(a).red, NormalizeU8(a).red)
  {
  }
}
