/**
 * Step 1 of processImage: every pixel becomes gray, at its BT.601 luma
 * scaled to 0..1, multiplied by `brightness`, stretched around 0.5 by
 * `contrast`, clamped to 0..1 and stored back at 0..255 into R, G and B.
 * Alpha is left alone.
 */
module Tone {
  import opened Bytes
  import opened Raster

  /** ITU-R BT.601 luma: 0.299 R + 0.587 G + 0.114 B, a weighted mean of the channels. */
  function Luma(r: byte, g: byte, b: byte): (l: real)
    ensures 0.0 <= l <= 255.0
    ensures r == g == b ==> l == r as real
  {
    0.299 * (r as real) + 0.587 * (g as real) + 0.114 * (b as real)
  }

  /** The gray level, as a 0..1 fraction, after brightness and contrast. */
  function AdjustedGray(luma: real, brightness: real, contrast: real): (t: real)
    ensures 0.0 <= t <= 1.0
  {
    var gray := luma / 255.0 * brightness;
    ClampReal((gray - 0.5) * contrast + 0.5, 0.0, 1.0)
  }

  /** The byte written into R, G and B of a pixel whose colour is (r, g, b). */
  function ToneByte(r: byte, g: byte, b: byte, brightness: real, contrast: real): byte
  {
    ByteStore(AdjustedGray(Luma(r, g, b), brightness, contrast) * 255.0)
  }

  /** The per-pixel tone formula at the given settings, as a function of the colour. */
  function ToneCurve(brightness: real, contrast: real): (byte, byte, byte) -> byte
  {
    (r, g, b) => ToneByte(r, g, b, brightness, contrast)
  }

  /**
   * Sample i after a per-pixel loop that writes `f` of the pixel's colour
   * into R, G and B; the colour is read before any of it is written.
   */
  function RecoloredAt(d: seq<byte>, f: (byte, byte, byte) -> byte, i: int): byte
    requires |d| % 4 == 0 && 0 <= i < |d|
  {
    var p := i - i % 4;
    if i % 4 == 3 then d[i] else f(d[p], d[p + 1], d[p + 2])
  }

  /** The whole buffer after such a loop. */
  function Recolored(d: seq<byte>, f: (byte, byte, byte) -> byte): (t: seq<byte>)
    requires |d| % 4 == 0
    ensures |t| == |d|
  {
    seq(|d|, i requires 0 <= i < |d| => RecoloredAt(d, f, i))
  }

  /** The whole buffer after the tone loop. */
  function Toned(d: seq<byte>, brightness: real, contrast: real): (t: seq<byte>)
    requires |d| % 4 == 0
    ensures |t| == |d|
  {
    Recolored(d, ToneCurve(brightness, contrast))
  }

  /**
   * The loop of processImage at tattoo-ref.js lines 78-97, on the working
   * copy `img` of the original pixels.
   */
  method ToneStep(img: ImageData, brightness: real, contrast: real)
    requires img.Valid()
    modifies img.data
    ensures img.data[..] == Toned(old(img.data[..]), brightness, contrast)
  {
    RecolorPixels(img.data, ToneCurve(brightness, contrast));
  }

  /**
   * The shape of that loop: for i = 0, 4, 8, ... it reads R, G, B of the
   * pixel at i and writes f(R, G, B) into all three.
   */
  method RecolorPixels(data: array<byte>, f: (byte, byte, byte) -> byte)
    requires data.Length % 4 == 0
    modifies data
    ensures data[..] == Recolored(old(data[..]), f)
  {
    ghost var d := data[..];
    var i := 0;
    while i < data.Length
      invariant 0 <= i <= data.Length && i % 4 == 0
      invariant forall j :: 0 <= j < i ==> data[j] == RecoloredAt(d, f, j)
      invariant forall j :: i <= j < data.Length ==> data[j] == d[j]
    {
      var r, g, b := data[i], data[i + 1], data[i + 2];
      var v := f(r, g, b);
      data[i], data[i + 1], data[i + 2] := v, v, v;
      i := i + 4;
    }
  }

  /**
   * After a recolouring loop every pixel is gray (R = G = B = f of the
   * pixel's original colour) and keeps its original alpha.
   */
  lemma RecoloredPixel(d: seq<byte>, f: (byte, byte, byte) -> byte, p: int)
    requires |d| % 4 == 0 && 0 <= p && 4 * p + 3 < |d|
    ensures Recolored(d, f)[4 * p] == f(d[4 * p], d[4 * p + 1], d[4 * p + 2])
    ensures Recolored(d, f)[4 * p + 1] == Recolored(d, f)[4 * p]
    ensures Recolored(d, f)[4 * p + 2] == Recolored(d, f)[4 * p]
    ensures Recolored(d, f)[4 * p + 3] == d[4 * p + 3]
  {
  }

  /** A recolouring loop leaves every pixel gray and keeps alpha. */
  lemma RecoloredGray(d: seq<byte>, f: (byte, byte, byte) -> byte)
    requires |d| % 4 == 0
    ensures Gray(Recolored(d, f)) && SameAlpha(Recolored(d, f), d)
  {
    var e := Recolored(d, f);
    forall i | 0 <= i < |e| && i % 4 != 3
      ensures e[i] == e[i - i % 4]
    {
      assert (i - i % 4) % 4 == 0;
    }
  }

  /**
   * After the tone loop pixel p is gray at the tone of its original colour
   * and keeps its original alpha.
   */
  lemma TonedPixel(d: seq<byte>, brightness: real, contrast: real, p: int)
    requires |d| % 4 == 0 && 0 <= p && 4 * p + 3 < |d|
    ensures Toned(d, brightness, contrast)[4 * p] == ToneByte(d[4 * p], d[4 * p + 1], d[4 * p + 2], brightness, contrast)
    ensures Toned(d, brightness, contrast)[4 * p + 1] == Toned(d, brightness, contrast)[4 * p]
    ensures Toned(d, brightness, contrast)[4 * p + 2] == Toned(d, brightness, contrast)[4 * p]
    ensures Toned(d, brightness, contrast)[4 * p + 3] == d[4 * p + 3]
  {
    RecoloredPixel(d, ToneCurve(brightness, contrast), p);
  }

  /** A recolouring loop turns an image of one colour (r, g, b) into flat gray f(r, g, b). */
  lemma RecoloredFlat(d: seq<byte>, f: (byte, byte, byte) -> byte, r: byte, g: byte, b: byte)
    requires |d| % 4 == 0 && FlatColour(d, r, g, b)
    ensures forall i :: 0 <= i < |d| && i % 4 != 3 ==> Recolored(d, f)[i] == f(r, g, b)
  {
    forall i | 0 <= i < |d| && i % 4 != 3
      ensures Recolored(d, f)[i] == f(r, g, b)
    {
      assert (i - i % 4) % 4 == 0;
    }
  }

  /** An image of one colour becomes flat gray at the tone of that colour. */
  lemma TonedFlat(d: seq<byte>, r: byte, g: byte, b: byte, brightness: real, contrast: real)
    requires |d| % 4 == 0 && FlatColour(d, r, g, b)
    ensures forall i :: 0 <= i < |d| && i % 4 != 3 ==> Toned(d, brightness, contrast)[i] == ToneByte(r, g, b, brightness, contrast)
  {
    RecoloredFlat(d, ToneCurve(brightness, contrast), r, g, b);
  }

  /**
   * At brightness 1 and contrast 1 the tone of a colour is its luma rounded
   * to the nearest byte.
   */
  lemma ToneNeutral(r: byte, g: byte, b: byte)
    ensures ToneByte(r, g, b, 1.0, 1.0) == ByteStore(Luma(r, g, b))
  {
    var l := Luma(r, g, b);
    assert (l / 255.0 * 1.0 - 0.5) * 1.0 + 0.5 == l / 255.0;
    assert AdjustedGray(l, 1.0, 1.0) == l / 255.0;
    assert l / 255.0 * 255.0 == l;
  }

  /**
   * At neutral settings a gray pixel keeps its level; in particular pure
   * white stays 255 and pure black stays 0.
   */
  lemma ToneNeutralGray(k: byte)
    ensures ToneByte(k, k, k, 1.0, 1.0) == k
  {
    ToneNeutral(k, k, k);
    ByteStoreOfByte(k);
  }

  /** At neutral settings pure red, green and blue become 76, 150 and 29. */
  lemma ToneNeutralPrimaries()
    ensures ToneByte(255, 0, 0, 1.0, 1.0) == 76
    ensures ToneByte(0, 255, 0, 1.0, 1.0) == 150
    ensures ToneByte(0, 0, 255, 1.0, 1.0) == 29
  {
    ToneNeutral(255, 0, 0);
    ByteStoreNearest(Luma(255, 0, 0), 76);
    ToneNeutral(0, 255, 0);
    ByteStoreNearest(Luma(0, 255, 0), 150);
    ToneNeutral(0, 0, 255);
    ByteStoreNearest(Luma(0, 0, 255), 29);
  }

  /**
   * With non-negative brightness and contrast, a brighter colour (by luma)
   * never gets a darker tone.
   */
  lemma ToneMonotone(r1: byte, g1: byte, b1: byte, r2: byte, g2: byte, b2: byte, brightness: real, contrast: real)
    requires brightness >= 0.0 && contrast >= 0.0
    requires Luma(r1, g1, b1) <= Luma(r2, g2, b2)
    ensures ToneByte(r1, g1, b1, brightness, contrast) <= ToneByte(r2, g2, b2, brightness, contrast)
  {
    var l1, l2 := Luma(r1, g1, b1), Luma(r2, g2, b2);
    AdjustedGrayMonotone(l1, l2, brightness, contrast);
    var t1, t2 := AdjustedGray(l1, brightness, contrast), AdjustedGray(l2, brightness, contrast);
    ByteStoreMonotone(t1 * 255.0, t2 * 255.0);
  }

  /** The 0..1 gray level grows with luma when brightness and contrast are non-negative. */
  lemma AdjustedGrayMonotone(l1: real, l2: real, brightness: real, contrast: real)
    requires brightness >= 0.0 && contrast >= 0.0 && l1 <= l2
    ensures AdjustedGray(l1, brightness, contrast) <= AdjustedGray(l2, brightness, contrast)
  {
    ScaleMonotone(l1 / 255.0, l2 / 255.0, brightness);
    ScaleMonotone(l1 / 255.0 * brightness - 0.5, l2 / 255.0 * brightness - 0.5, contrast);
  }

  lemma ScaleMonotone(a1: real, a2: real, k: real)
    requires a1 <= a2 && k >= 0.0
    ensures a1 * k <= a2 * k
  {
    MulNonNegative(a2 - a1, k);
  }

  lemma MulNonNegative(a: real, b: real)
    requires a >= 0.0 && b >= 0.0
    ensures a * b >= 0.0
  {
  }
}
