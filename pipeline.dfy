/**
 * The pixel work of processImage (tattoo-ref.js lines 59-128) on a copy of
 * the original image: the tone step, then a box blur when `smoothness`
 * exceeds 0.01, then, when `lineStrength` exceeds 0.01, darkening of every
 * pixel by `lineStrength` times its Sobel edge strength.
 */
module Pipeline {
  import opened Bytes
  import opened Raster
  import opened Tone
  import opened Blur
  import opened Sobel

  /** The gray level written for a pixel of gray `base` and edge strength `e`. */
  function DarkenByte(base: byte, e: byte, lineStrength: real): byte
  {
    ByteStore(ClampReal(base as real - lineStrength * e as real, 0.0, 255.0))
  }

  /** The per-pixel darkening formula at a given line strength, as a function of gray and edge. */
  function DarkenCurve(lineStrength: real): (byte, byte) -> byte
  {
    (base, e) => DarkenByte(base, e, lineStrength)
  }

  /**
   * Sample i after a per-pixel loop that writes `f` of the pixel's R and the
   * R of the same pixel of `ed` into R, G and B; alpha is not written.
   */
  function MixedAt(d: seq<byte>, ed: seq<byte>, f: (byte, byte) -> byte, i: int): byte
    requires |d| % 4 == 0 && |ed| == |d| && 0 <= i < |d|
  {
    var p := i - i % 4;
    if i % 4 == 3 then d[i] else f(d[p], ed[p])
  }

  /** The whole image after such a loop. */
  function Mixed(d: seq<byte>, ed: seq<byte>, f: (byte, byte) -> byte): (e: seq<byte>)
    requires |d| % 4 == 0 && |ed| == |d|
    ensures |e| == |d|
  {
    seq(|d|, i requires 0 <= i < |d| => MixedAt(d, ed, f, i))
  }

  /** The whole image after the darkening loop. */
  function Darkened(d: seq<byte>, ed: seq<byte>, lineStrength: real): (e: seq<byte>)
    requires |d| % 4 == 0 && |ed| == |d|
    ensures |e| == |d|
  {
    Mixed(d, ed, DarkenCurve(lineStrength))
  }

  /** The darkening loop of processImage (lines 109-119), edges read from a separate image. */
  method DarkenEdges(img: ImageData, edges: ImageData, lineStrength: real)
    requires img.Valid() && edges.data.Length == img.data.Length && edges.data != img.data
    modifies img.data
    ensures img.data[..] == Darkened(old(img.data[..]), edges.data[..], lineStrength)
  {
    MixPixels(img.data, edges.data, DarkenCurve(lineStrength));
  }

  /**
   * The shape of that loop: for i = 0, 4, 8, ... it reads data[i] and ed[i]
   * and writes f of them into data[i], data[i + 1] and data[i + 2].
   */
  method MixPixels(data: array<byte>, ed: array<byte>, f: (byte, byte) -> byte)
    requires data.Length % 4 == 0 && ed.Length == data.Length && ed != data
    modifies data
    ensures data[..] == Mixed(old(data[..]), ed[..], f)
  {
    ghost var d := data[..];
    var i := 0;
    while i < data.Length
      invariant 0 <= i <= data.Length && i % 4 == 0
      invariant forall j :: 0 <= j < i ==> data[j] == MixedAt(d, ed[..], f, j)
      invariant forall j :: i <= j < data.Length ==> data[j] == d[j]
    {
      var base := data[i];
      var e := ed[i];
      var v := f(base, e);
      data[i], data[i + 1], data[i + 2] := v, v, v;
      i := i + 4;
    }
  }

  /** The blur radius for a smoothness setting: Math.round(1 + smoothness * 3). */
  function BlurRadius(smoothness: real): int
  {
    MathRound(1.0 + smoothness * 3.0)
  }

  /** Step 2 of processImage: the blur, when smoothness exceeds 0.01. */
  function Smoothed(t: seq<byte>, w: nat, h: nat, smoothness: real): (e: seq<byte>)
    requires w > 0 && |t| == w * h * 4
    ensures |e| == |t|
  {
    if smoothness > 0.01 then (BlurRadiusRange(smoothness); Blurred(t, w, h, BlurRadius(smoothness))) else t
  }

  /** Step 3 of processImage: darkening by the edges, when lineStrength exceeds 0.01. */
  function Lined(s: seq<byte>, w: nat, h: nat, lineStrength: real): (e: seq<byte>)
    requires w > 0 && |s| == w * h * 4
    ensures |e| == |s|
  {
    if lineStrength > 0.01 then Darkened(s, Sobeled(s, w, h), lineStrength) else s
  }

  /** The image processImage puts on the canvas, for original samples d. */
  function Processed(d: seq<byte>, w: nat, h: nat, contrast: real, brightness: real, smoothness: real, lineStrength: real): (e: seq<byte>)
    requires w > 0 && |d| == w * h * 4
    ensures |e| == |d|
  {
    Lined(Smoothed(Toned(d, brightness, contrast), w, h, smoothness), w, h, lineStrength)
  }

  /**
   * processImage: the settings come in as numbers, the original image is
   * copied, the copy is processed in place and returned; the original is
   * only read.
   */
  method ProcessImage(original: ImageData, contrast: real, brightness: real, smoothness: real, lineStrength: real)
    returns (result: ImageData)
    requires original.Valid()
    ensures fresh(result) && fresh(result.data) && result.Valid()
    ensures result.width == original.width && result.height == original.height
    ensures result.data[..] == Processed(original.data[..], original.width, original.height, contrast, brightness, smoothness, lineStrength)
    ensures original.data[..] == old(original.data[..])
  {
    var w, h := original.width, original.height;
    result := new ImageData.Copy(original.data, w, h);
    ToneStep(result, brightness, contrast);
    if smoothness > 0.01 {
      BlurRadiusRange(smoothness);
      BoxBlur(result, BlurRadius(smoothness));
    }
    if lineStrength > 0.01 {
      var edges := SobelEdges(result);
      DarkenEdges(result, edges, lineStrength);
    }
  }

  // ---------------- properties ----------------

  /**
   * A smoothness above 0.01 always gives a radius of at least 1, and any
   * setting the slider allows (at most 1) a radius of at most 4.
   */
  lemma BlurRadiusRange(smoothness: real)
    requires smoothness > 0.01
    ensures 1 <= BlurRadius(smoothness)
    ensures smoothness <= 1.0 ==> BlurRadius(smoothness) <= 4
  {
  }

  /** With a non-negative line strength darkening never brightens a pixel. */
  lemma DarkenNeverBrightens(base: byte, e: byte, lineStrength: real)
    requires lineStrength >= 0.0
    ensures DarkenByte(base, e, lineStrength) <= base
  {
    var mixed := base as real - lineStrength * e as real;
    assert lineStrength * e as real >= 0.0 by { MulNonNegative(lineStrength, e as real); }
    ByteStoreMonotone(ClampReal(mixed, 0.0, 255.0), base as real);
    ByteStoreOfByte(base);
  }

  /** Where there is no edge, darkening keeps the pixel's gray. */
  lemma DarkenNoEdge(base: byte, lineStrength: real)
    ensures DarkenByte(base, 0, lineStrength) == base
  {
    ByteStoreOfByte(base);
  }

  /** A stronger edge never gives a lighter pixel. */
  lemma DarkenMonotoneInEdge(base: byte, e1: byte, e2: byte, lineStrength: real)
    requires lineStrength >= 0.0 && e1 <= e2
    ensures DarkenByte(base, e2, lineStrength) <= DarkenByte(base, e1, lineStrength)
  {
    assert lineStrength * e1 as real <= lineStrength * e2 as real by {
      MulNonNegative(lineStrength, (e2 - e1) as real);
    }
    var m1 := ClampReal(base as real - lineStrength * e1 as real, 0.0, 255.0);
    var m2 := ClampReal(base as real - lineStrength * e2 as real, 0.0, 255.0);
    ByteStoreMonotone(m2, m1);
  }

  /** A mixing loop leaves every pixel gray and keeps alpha. */
  lemma MixedGray(d: seq<byte>, ed: seq<byte>, f: (byte, byte) -> byte)
    requires |d| % 4 == 0 && |ed| == |d|
    ensures Gray(Mixed(d, ed, f)) && SameAlpha(Mixed(d, ed, f), d)
  {
    var e := Mixed(d, ed, f);
    forall i | 0 <= i < |e| && i % 4 != 3
      ensures e[i] == e[i - i % 4]
    {
      assert (i - i % 4) % 4 == 0;
    }
  }

  /** With a non-negative line strength no colour sample is brighter after darkening. */
  lemma DarkenedNeverBrighter(d: seq<byte>, ed: seq<byte>, lineStrength: real)
    requires |d| % 4 == 0 && |ed| == |d| && lineStrength >= 0.0
    ensures forall i :: 0 <= i < |d| && i % 4 != 3 ==> Darkened(d, ed, lineStrength)[i] <= d[i - i % 4]
  {
    forall i | 0 <= i < |d| && i % 4 != 3
      ensures Darkened(d, ed, lineStrength)[i] <= d[i - i % 4]
    {
      DarkenNeverBrightens(d[i - i % 4], ed[i - i % 4], lineStrength);
    }
  }

  /**
   * Whatever the settings, the processed image is gray (R = G = B in every
   * pixel) and has the original's alpha channel.
   */
  lemma ProcessedGray(d: seq<byte>, w: nat, h: nat, contrast: real, brightness: real, smoothness: real, lineStrength: real)
    requires w > 0 && |d| == w * h * 4
    ensures Gray(Processed(d, w, h, contrast, brightness, smoothness, lineStrength))
    ensures SameAlpha(Processed(d, w, h, contrast, brightness, smoothness, lineStrength), d)
  {
    var toned := Toned(d, brightness, contrast);
    RecoloredGray(d, ToneCurve(brightness, contrast));
    var smoothed := Smoothed(toned, w, h, smoothness);
    if smoothness > 0.01 {
      BlurRadiusRange(smoothness);
      BlurredGray(toned, w, h, BlurRadius(smoothness));
    }
    assert SameAlpha(smoothed, d);
    if lineStrength > 0.01 {
      MixedGray(smoothed, Sobeled(smoothed, w, h), DarkenCurve(lineStrength));
    }
  }

  /** A flat gray image with no edges is left as it is by the darkening loop. */
  lemma DarkenedFlat(d: seq<byte>, ed: seq<byte>, lineStrength: real, k: byte)
    requires |d| % 4 == 0 && |ed| == |d|
    requires forall i :: 0 <= i < |d| && i % 4 != 3 ==> d[i] == k && ed[i] == 0
    ensures forall i :: 0 <= i < |d| && i % 4 != 3 ==> Darkened(d, ed, lineStrength)[i] == k
  {
    forall i | 0 <= i < |d| && i % 4 != 3
      ensures Darkened(d, ed, lineStrength)[i] == k
    {
      assert (i - i % 4) % 4 == 0;
      DarkenNoEdge(k, lineStrength);
    }
  }

  /** The blur step keeps an image whose colour samples are all k. */
  lemma SmoothedFlat(t: seq<byte>, w: nat, h: nat, smoothness: real, k: byte)
    requires w > 0 && |t| == w * h * 4
    requires forall i :: 0 <= i < |t| && i % 4 != 3 ==> t[i] == k
    ensures forall i :: 0 <= i < |t| && i % 4 != 3 ==> Smoothed(t, w, h, smoothness)[i] == k
  {
    if smoothness > 0.01 {
      BlurRadiusRange(smoothness);
      BlurFlat(t, w, h, BlurRadius(smoothness), k);
    }
  }

  /** The line step keeps an image whose colour samples are all k: it has no edges. */
  lemma LinedFlat(s: seq<byte>, w: nat, h: nat, lineStrength: real, k: byte)
    requires w > 0 && |s| == w * h * 4
    requires forall i :: 0 <= i < |s| && i % 4 != 3 ==> s[i] == k
    ensures forall i :: 0 <= i < |s| && i % 4 != 3 ==> Lined(s, w, h, lineStrength)[i] == k
  {
    if lineStrength > 0.01 {
      SobelFlat(s, w, h, k);
      DarkenedFlat(s, Sobeled(s, w, h), lineStrength, k);
    }
  }

  /** Blur and line steps together keep an image whose colour samples are all k. */
  lemma StepsKeepFlat(t: seq<byte>, w: nat, h: nat, smoothness: real, lineStrength: real, k: byte)
    requires w > 0 && |t| == w * h * 4
    requires forall i :: 0 <= i < |t| && i % 4 != 3 ==> t[i] == k
    ensures forall i :: 0 <= i < |t| && i % 4 != 3 ==> Lined(Smoothed(t, w, h, smoothness), w, h, lineStrength)[i] == k
  {
    SmoothedFlat(t, w, h, smoothness, k);
    LinedFlat(Smoothed(t, w, h, smoothness), w, h, lineStrength, k);
  }

  /**
   * An image of one colour comes out as one flat gray, the tone of that
   * colour, whatever the smoothing and line settings: the blur keeps a flat
   * image and a flat image has no edges to darken.
   */
  lemma ProcessFlat(d: seq<byte>, w: nat, h: nat, r: byte, g: byte, b: byte,
                    contrast: real, brightness: real, smoothness: real, lineStrength: real)
    requires w > 0 && |d| == w * h * 4 && FlatColour(d, r, g, b)
    ensures forall i :: 0 <= i < |d| && i % 4 != 3 ==>
      Processed(d, w, h, contrast, brightness, smoothness, lineStrength)[i] == ToneByte(r, g, b, brightness, contrast)
  {
    TonedFlat(d, r, g, b, brightness, contrast);
    StepsKeepFlat(Toned(d, brightness, contrast), w, h, smoothness, lineStrength, ToneByte(r, g, b, brightness, contrast));
  }
}
