/** Colour samples, the lightness key and the two small boundary helpers
    (`lightness`, `colorThreshold`, `chunkIsBigEnough` in main.go). */
module Colors {

  /** A channel as returned by Go's `color.Color.RGBA()`: a 16-bit value held in a uint32. */
  type Channel = x: int | 0 <= x <= 0xffff

  /** A colour sample, seen only through its four 16-bit channels. */
  datatype Color = Color(r: Channel, g: Channel, b: Channel, a: Channel)

  /** The zero value of every pixel of a freshly allocated `image.NewRGBA`. */
  const Transparent := Color(0, 0, 0, 0)

  /** Alpha-weighted luma of a sample: each channel is scaled to 8 bits by an
      integer division by 0x101, then 0.2126 R + 0.7152 G + 0.0722 B, weighted
      by A / 255. A fully transparent sample has lightness 0. The weight is
      factored out of the three terms; `LightnessTermwise` restores the
      term-by-term form. */
  function Lightness(c: Color): (l: real)
    ensures c.a == 0 ==> l == 0.0
    ensures 0.0 <= l <= 255.0
  {
    if c.a == 0 then 0.0
    else
      var r8, g8, b8, a8 := c.r / 0x101, c.g / 0x101, c.b / 0x101, c.a / 0x101;
      var aMod := a8 as real / 255.0;
      var luma := 0.2126 * r8 as real + 0.7152 * g8 as real + 0.0722 * b8 as real;
      ScaledBounds(luma, aMod);
      luma * aMod
  }

  /** A value in [0, 255] weighted by a fraction in [0, 1] stays within [0, 255]. */
  lemma ScaledBounds(v: real, f: real)
    requires 0.0 <= v <= 255.0 && 0.0 <= f <= 1.0
    ensures 0.0 <= v * f <= 255.0
  {
    MulNonNegative(v, f);
    MulNonNegative(255.0 - v, f);
    assert (255.0 - v) * f == 255.0 * f - v * f;
  }

  /** The product of two non-negative reals is non-negative. */
  lemma MulNonNegative(x: real, y: real)
    requires 0.0 <= x && 0.0 <= y
    ensures 0.0 <= x * y
  {
  }

  /** The lightness of a sample that is not fully transparent, written term by
      term: each 8-bit channel is weighted by A / 255 before the luma
      coefficients are applied. */
  lemma LightnessTermwise(c: Color)
    requires c.a != 0
    ensures var r8, g8, b8, aMod := c.r / 0x101, c.g / 0x101, c.b / 0x101, (c.a / 0x101) as real / 255.0;
      Lightness(c) == 0.2126 * (r8 as real * aMod) + 0.7152 * (g8 as real * aMod) + 0.0722 * (b8 as real * aMod)
  {
  }

  /** The in-band trigger. A sample whose 8-bit alpha is below 32 never fires;
      otherwise it fires exactly when its lightness lies in [64, 96].
      The second argument, the previous sample, is never consulted. */
  function ColorThreshold(cur: Color, last: Color): (fires: bool)
    ensures cur.a / 0x101 < 32 ==> !fires
    ensures cur.a / 0x101 >= 32 ==> (fires <==> 64.0 <= Lightness(cur) <= 96.0)
  {
    if cur.a / 0x101 < 32 then false
    else
      var l := Lightness(cur);
      !(l < 64.0 || l > 96.0)
  }

  /** The trigger's answer is the same whatever sample is passed as the previous one. */
  lemma ThresholdIgnoresLast(cur: Color, last1: Color, last2: Color)
    ensures ColorThreshold(cur, last1) == ColorThreshold(cur, last2)
  {
  }

  /** Fully transparent samples have lightness 0 and never trigger a close. */
  lemma TransparentNeverFires(cur: Color, last: Color)
    requires cur.a == 0
    ensures Lightness(cur) == 0.0 && !ColorThreshold(cur, last)
  {
  }

  /** The minimum-chunk gate: the sentinel -1 means "no minimum";
      any other value demands at least that many samples in the chunk. */
  function ChunkIsBigEnough(chunk: seq<Color>, minChunk: int): (ok: bool)
    ensures minChunk == -1 ==> ok
    ensures minChunk != -1 ==> (ok <==> |chunk| >= minChunk)
  {
    if minChunk == -1 then true
    else if |chunk| >= minChunk then true
    else false
  }
}
