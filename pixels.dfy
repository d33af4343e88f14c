/** Pixel adaptation: Java's Math.round, the clamps to the displayable grey
    range [0, 255], and the packed ARGB integers of java.awt.Color for grey
    pixels. A packed pixel is a Java int: a 32-bit two's-complement value. */
module Pixels {
  import opened Grids

  /** Math.round on an exact real: the nearest integer, halves rounded up. It
      moves its argument by at most one half, and never by minus one half. */
  function Round(x: real): (n: int)
    ensures x - 0.5 < n as real <= x + 0.5
  {
    (x + 0.5).Floor
  }

  /** Rounding leaves integers alone. */
  lemma RoundOfInteger(n: int)
    ensures Round(n as real) == n
  {
  }

  /** The grey level doublesToValidPixels packs for one value: above 255 it is
      255, below 0 it is 0, and in between the value is rounded. */
  function GreyLevel(v: real): (g: int)
    ensures 0 <= g <= 255
    ensures 0.0 <= v <= 255.0 ==> v - 0.5 < g as real <= v + 0.5
  {
    if v > 255.0 then 255 else if v < 0.0 then 0 else Round(v)
  }

  /** The clamp convolution_image applies to a rounded value: first down to
      255, then up to 0. */
  function Clamp(n: int): (c: int)
    ensures 0 <= c <= 255
    ensures 0 <= n <= 255 ==> c == n
    ensures n > 255 ==> c == 255
    ensures n < 0 ==> c == 0
  {
    var c := if n > 255 then 255 else n;
    if c < 0 then 0 else c
  }

  /** Clamping a real and then rounding it (doublesToValidPixels) gives the
      same grey level as rounding it and then clamping (convolution_image). */
  lemma GreyLevelIsClampedRound(v: real)
    ensures GreyLevel(v) == Clamp(Round(v))
  {
  }

  /** Two's-complement reading of a 32-bit word, as a Java int holds it. */
  function ToInt32(u: int): int
    requires 0 <= u < 0x1_0000_0000
  {
    if u < 0x8000_0000 then u else u - 0x1_0000_0000
  }

  /** Color(g, g, g).rgb: alpha 255 in bits 24-31 and g in each of the red
      (16-23), green (8-15) and blue (0-7) bytes. */
  function Pack(g: int): (p: int)
    requires 0 <= g <= 255
    ensures -0x8000_0000 <= p < 0x8000_0000
  {
    ToInt32(0xFF * 0x100_0000 + g * 0x1_0000 + g * 0x100 + g)
  }

  /** The channels of a packed pixel: Color(p).red is (p >> 16) & 0xFF, and the
      arithmetic shift of an int is floor division, which Dafny's / is for a
      positive divisor. */
  function Red(p: int): int {
    (p / 0x1_0000) % 0x100
  }

  function Green(p: int): int {
    (p / 0x100) % 0x100
  }

  function Blue(p: int): int {
    p % 0x100
  }

  function Alpha(p: int): int {
    (p / 0x100_0000) % 0x100
  }

  /** A packed grey pixel is opaque, and its red, green and blue channels all
      give back the grey level it was packed from. */
  lemma PackChannels(g: int)
    requires 0 <= g <= 255
    ensures Alpha(Pack(g)) == 255
    ensures Red(Pack(g)) == g && Green(Pack(g)) == g && Blue(Pack(g)) == g
  {
    var p := Pack(g);
    assert p == g * 0x1_0101 - 0x100_0000;
    DivModUnique(p, 0x100_0000, -1, g * 0x1_0101);
    DivModUnique(-1, 0x100, -1, 255);
    DivModUnique(p, 0x1_0000, g - 256, g * 0x101);
    DivModUnique(g - 256, 0x100, -1, g);
    DivModUnique(p, 0x100, g * 0x101 - 0x1_0000, g);
    DivModUnique(g * 0x101 - 0x1_0000, 0x100, g - 256, g);
  }

  /** A grey level that is already an integer in [0, 255] survives packing and
      red-channel extraction unchanged; a value above or below the range comes
      back as 255 or 0. */
  lemma GreyPixelRoundTrip(v: real)
    ensures v.Floor as real == v && 0.0 <= v <= 255.0 ==> Red(Pack(GreyLevel(v))) == v.Floor
    ensures v > 255.0 ==> Red(Pack(GreyLevel(v))) == 255
    ensures v < 0.0 ==> Red(Pack(GreyLevel(v))) == 0
  {
    PackChannels(GreyLevel(v));
    if v.Floor as real == v {
      RoundOfInteger(v.Floor);
    }
  }
}
