/**
 * sobelEdges (tattoo-ref.js lines 223-258): the 3x3 Sobel operator on the red
 * channel of every interior pixel, written into a fresh all-zero image. The
 * magnitude sqrt(gx*gx + gy*gy), clamped to 0..255 and stored as a byte, goes
 * into R, G and B, and alpha becomes 255; the one-pixel border is never
 * written, so it stays transparent black.
 */
module Sobel {
  import opened Bytes
  import opened Raster

  /** The horizontal Sobel kernel, row-major. */
  const GxKernel: seq<int> := [-1, 0, 1, -2, 0, 2, -1, 0, 1]

  /** The vertical Sobel kernel, row-major. */
  const GyKernel: seq<int> := [-1, -2, -1, 0, 0, 0, 1, 2, 1]

  /** Pixel (x, y) has all eight neighbours inside the image. */
  predicate Interior(w: nat, h: nat, x: int, y: int)
  {
    1 <= x < w - 1 && 1 <= y < h - 1
  }

  /**
   * The red samples of the 3x3 neighbourhood of (x, y), row by row: entry k
   * is at column offset k % 3 - 1 and row offset k / 3 - 1.
   */
  function Neighbourhood(d: seq<byte>, w: nat, h: nat, x: int, y: int): (g: seq<int>)
    requires |d| == w * h * 4 && Interior(w, h, x, y)
    ensures |g| == 9
  {
    seq(9, k requires 0 <= k < 9 => Red(d, w, h, x + k % 3 - 1, y + k / 3 - 1) as int)
  }

  /** The weighted sum of the first n taps: kernel[0] * g[0] + ... + kernel[n-1] * g[n-1]. */
  function Dot(kernel: seq<int>, g: seq<int>, n: nat): int
    requires n <= |kernel| && n <= |g|
  {
    if n == 0 then 0 else Dot(kernel, g, n - 1) + kernel[n - 1] * g[n - 1]
  }

  /** The horizontal gradient gx of interior pixel (x, y). */
  function Gx(d: seq<byte>, w: nat, h: nat, x: int, y: int): int
    requires |d| == w * h * 4 && Interior(w, h, x, y)
  {
    Dot(GxKernel, Neighbourhood(d, w, h, x, y), 9)
  }

  /** The vertical gradient gy of interior pixel (x, y). */
  function Gy(d: seq<byte>, w: nat, h: nat, x: int, y: int): int
    requires |d| == w * h * 4 && Interior(w, h, x, y)
  {
    Dot(GyKernel, Neighbourhood(d, w, h, x, y), 9)
  }

  /**
   * Searching upwards from n: the first level v with m <= v*v + v, or 255.
   * Every level below n is already known to be too small.
   */
  function EdgeLevelFrom(m: nat, n: byte): (v: byte)
    requires n == 0 || n * n - n < m
    ensures n <= v
    ensures v == 0 || v * v - v < m
    ensures v == 255 || m <= v * v + v
    decreases 255 - n
  {
    if n == 255 || m <= n * n + n then n
    else EdgeLevelFrom(m, n + 1)
  }

  /**
   * The byte stored for clamp(sqrt(m), 0, 255): the integer nearest to the
   * square root of m, capped at 255. An integer m is never the square of a
   * half-integer, so there is no tie to break; v is nearest exactly when
   * v*v - v < m <= v*v + v.
   */
  function EdgeLevel(m: nat): (v: byte)
    ensures v == 0 || v * v - v < m
    ensures v == 255 || m <= v * v + v
  {
    EdgeLevelFrom(m, 0)
  }

  /** The edge byte for gradients gx and gy. */
  function EdgeByte(gx: int, gy: int): byte
  {
    EdgeLevel(gx * gx + gy * gy)
  }

  /** Sample i of the image sobelEdges returns. */
  function SobelAt(d: seq<byte>, w: nat, h: nat, i: int): byte
    requires w > 0 && |d| == w * h * 4 && 0 <= i < |d|
  {
    PixelOf(w, h, i);
    var x, y := PixelX(w, i), PixelY(w, i);
    if !Interior(w, h, x, y) then 0
    else if i % 4 == 3 then 255
    else EdgeByte(Gx(d, w, h, x, y), Gy(d, w, h, x, y))
  }

  /** The image sobelEdges returns for an image with samples d. */
  function Sobeled(d: seq<byte>, w: nat, h: nat): (e: seq<byte>)
    requires w > 0 && |d| == w * h * 4
    ensures |e| == |d|
  {
    seq(|d|, i requires 0 <= i < |d| => SobelAt(d, w, h, i))
  }

  /** The two innermost loops: both kernels over the neighbourhood of (x, y). */
  method Convolve(data: array<byte>, w: nat, h: nat, x: int, y: int) returns (gx: int, gy: int)
    requires data.Length == w * h * 4 && Interior(w, h, x, y)
    ensures gx == Gx(data[..], w, h, x, y) && gy == Gy(data[..], w, h, x, y)
  {
    ghost var g := Neighbourhood(data[..], w, h, x, y);
    gx, gy := 0, 0;
    var k := 0;
    var j := -1;
    while j <= 1
      invariant -1 <= j <= 2 && k == 3 * (j + 1)
      invariant gx == Dot(GxKernel, g, k) && gy == Dot(GyKernel, g, k)
    {
      var i := -1;
      while i <= 1
        invariant -1 <= i <= 2 && k == 3 * (j + 1) + i + 1
        invariant gx == Dot(GxKernel, g, k) && gy == Dot(GyKernel, g, k)
      {
        var xx, yy := x + i, y + j;
        IndexOf(w, h, xx, yy, 0);
        var gray := data[Idx(w, xx, yy)];
        NeighbourhoodAt(data[..], w, h, x, y, i, j);
        gx := gx + GxKernel[k] * gray;
        gy := gy + GyKernel[k] * gray;
        k := k + 1;
        i := i + 1;
      }
      j := j + 1;
    }
  }

  /** Entry 3 * (j + 1) + (i + 1) of the neighbourhood is the red sample at offset (i, j). */
  lemma NeighbourhoodAt(d: seq<byte>, w: nat, h: nat, x: int, y: int, i: int, j: int)
    requires |d| == w * h * 4 && Interior(w, h, x, y) && -1 <= i <= 1 && -1 <= j <= 1
    ensures 0 <= Idx(w, x + i, y + j) < |d|
    ensures Neighbourhood(d, w, h, x, y)[3 * (j + 1) + i + 1] == d[Idx(w, x + i, y + j)]
  {
    var k := 3 * (j + 1) + i + 1;
    assert k % 3 == i + 1 && k / 3 == j + 1;
    IndexOf(w, h, x + i, y + j, 0);
  }

  /** sobelEdges(imgData): a new image of the same size; the input is only read. */
  method SobelEdges(img: ImageData) returns (out: ImageData)
    requires img.Valid()
    ensures fresh(out) && fresh(out.data) && out.Valid()
    ensures out.width == img.width && out.height == img.height
    ensures out.data[..] == Sobeled(img.data[..], img.width, img.height)
    ensures img.data[..] == old(img.data[..])
  {
    var w, h, data := img.width, img.height, img.data;
    out := new ImageData(w, h);
    var od := out.data;
    ghost var d := data[..];
    AllPixels(w, h);
    var y := 1;
    while y < h - 1
      invariant 1 <= y && (y <= h - 1 || y == 1)
      invariant forall j :: 0 <= j < od.Length ==>
        od[j] == if RowMajorBefore(PixelX(w, j), PixelY(w, j), 1, y) then SobelAt(d, w, h, j) else 0
    {
      var x := 1;
      while x < w - 1
        invariant 1 <= x && (x <= w - 1 || x == 1)
        invariant forall j :: 0 <= j < od.Length ==>
          od[j] == if RowMajorBefore(PixelX(w, j), PixelY(w, j), x, y) then SobelAt(d, w, h, j) else 0
      {
        var gx, gy := Convolve(data, w, h, x, y);
        var v := EdgeByte(gx, gy);
        var idx0 := Idx(w, x, y);
        ThisPixel(w, h, x, y);
        od[idx0], od[idx0 + 1], od[idx0 + 2] := v, v, v;
        od[idx0 + 3] := 255;
        x := x + 1;
      }
      y := y + 1;
    }
  }

  // ---------------- properties ----------------

  /** The horizontal kernel takes the right column minus the left, the middle row twice. */
  lemma DotGx(g: seq<int>)
    requires |g| == 9
    ensures Dot(GxKernel, g, 9) == (g[2] + 2 * g[5] + g[8]) - (g[0] + 2 * g[3] + g[6])
  {
    var k := GxKernel;
    assert Dot(k, g, 1) == -g[0];
    assert Dot(k, g, 2) == Dot(k, g, 1);
    assert Dot(k, g, 3) == Dot(k, g, 2) + g[2];
    assert Dot(k, g, 4) == Dot(k, g, 3) - 2 * g[3];
    assert Dot(k, g, 5) == Dot(k, g, 4);
    assert Dot(k, g, 6) == Dot(k, g, 5) + 2 * g[5];
    assert Dot(k, g, 7) == Dot(k, g, 6) - g[6];
    assert Dot(k, g, 8) == Dot(k, g, 7);
  }

  /** The vertical kernel takes the bottom row minus the top, the middle column twice. */
  lemma DotGy(g: seq<int>)
    requires |g| == 9
    ensures Dot(GyKernel, g, 9) == (g[6] + 2 * g[7] + g[8]) - (g[0] + 2 * g[1] + g[2])
  {
    var k := GyKernel;
    assert Dot(k, g, 1) == -g[0];
    assert Dot(k, g, 2) == Dot(k, g, 1) - 2 * g[1];
    assert Dot(k, g, 3) == Dot(k, g, 2) - g[2];
    assert Dot(k, g, 4) == Dot(k, g, 3);
    assert Dot(k, g, 5) == Dot(k, g, 4);
    assert Dot(k, g, 6) == Dot(k, g, 5);
    assert Dot(k, g, 7) == Dot(k, g, 6) + g[6];
    assert Dot(k, g, 8) == Dot(k, g, 7) + 2 * g[7];
  }

  /** Gx is the right column minus the left column, the middle row weighted twice. */
  lemma GxFormula(d: seq<byte>, w: nat, h: nat, x: int, y: int)
    requires |d| == w * h * 4 && Interior(w, h, x, y)
    ensures Gx(d, w, h, x, y) ==
      (Red(d, w, h, x + 1, y - 1) + 2 * Red(d, w, h, x + 1, y) + Red(d, w, h, x + 1, y + 1))
      - (Red(d, w, h, x - 1, y - 1) + 2 * Red(d, w, h, x - 1, y) + Red(d, w, h, x - 1, y + 1))
  {
    DotGx(Neighbourhood(d, w, h, x, y));
  }

  /** Gy is the bottom row minus the top row, the middle column weighted twice. */
  lemma GyFormula(d: seq<byte>, w: nat, h: nat, x: int, y: int)
    requires |d| == w * h * 4 && Interior(w, h, x, y)
    ensures Gy(d, w, h, x, y) ==
      (Red(d, w, h, x - 1, y + 1) + 2 * Red(d, w, h, x, y + 1) + Red(d, w, h, x + 1, y + 1))
      - (Red(d, w, h, x - 1, y - 1) + 2 * Red(d, w, h, x, y - 1) + Red(d, w, h, x + 1, y - 1))
  {
    DotGy(Neighbourhood(d, w, h, x, y));
  }

  /** A flat neighbourhood has no gradient, so its edge byte is 0. */
  lemma SobelFlatNeighbourhood(d: seq<byte>, w: nat, h: nat, x: int, y: int, k: byte)
    requires |d| == w * h * 4 && Interior(w, h, x, y)
    requires forall xx, yy :: x - 1 <= xx <= x + 1 && y - 1 <= yy <= y + 1 ==> Red(d, w, h, xx, yy) == k
    ensures Gx(d, w, h, x, y) == 0 && Gy(d, w, h, x, y) == 0
    ensures EdgeByte(Gx(d, w, h, x, y), Gy(d, w, h, x, y)) == 0
  {
    GxFormula(d, w, h, x, y);
    GyFormula(d, w, h, x, y);
  }

  /**
   * What sobelEdges leaves in pixel (x, y): the edge byte of its gradients in
   * R, G and B and 255 in alpha on interior pixels; zero in all four samples
   * of a border pixel.
   */
  lemma SobeledPixel(d: seq<byte>, w: nat, h: nat, x: int, y: int)
    requires w > 0 && |d| == w * h * 4 && 0 <= x < w && 0 <= y < h
    ensures Interior(w, h, x, y) ==> forall c :: 0 <= c < 3 ==>
      At(Sobeled(d, w, h), w, h, x, y, c) == EdgeByte(Gx(d, w, h, x, y), Gy(d, w, h, x, y))
    ensures Interior(w, h, x, y) ==> At(Sobeled(d, w, h), w, h, x, y, 3) == 255
    ensures !Interior(w, h, x, y) ==> forall c :: 0 <= c < 4 ==> At(Sobeled(d, w, h), w, h, x, y, c) == 0
  {
    ThisPixel(w, h, x, y);
  }

  /** On an image whose red channel is flat, pixel (x, y) of the edge image has R = G = B = 0. */
  lemma SobelFlatPixel(d: seq<byte>, w: nat, h: nat, x: int, y: int, k: byte)
    requires w > 0 && |d| == w * h * 4 && 0 <= x < w && 0 <= y < h
    requires forall xx, yy :: 0 <= xx < w && 0 <= yy < h ==> Red(d, w, h, xx, yy) == k
    ensures forall c :: 0 <= c < 3 ==> At(Sobeled(d, w, h), w, h, x, y, c) == 0
  {
    SobeledPixel(d, w, h, x, y);
    if Interior(w, h, x, y) {
      SobelFlatNeighbourhood(d, w, h, x, y, k);
    }
  }

  /** On an image whose red channel is flat, every R, G and B of the edge image is 0. */
  lemma SobelFlat(d: seq<byte>, w: nat, h: nat, k: byte)
    requires w > 0 && |d| == w * h * 4 && RedWithin(d, k, k)
    ensures forall i :: 0 <= i < |d| && i % 4 != 3 ==> Sobeled(d, w, h)[i] == 0
  {
    forall xx, yy | 0 <= xx < w && 0 <= yy < h
      ensures Red(d, w, h, xx, yy) == k
    {
      IndexOf(w, h, xx, yy, 0);
    }
    forall i | 0 <= i < |d| && i % 4 != 3
      ensures Sobeled(d, w, h)[i] == 0
    {
      PixelOf(w, h, i);
      SobelFlatPixel(d, w, h, PixelX(w, i), PixelY(w, i), k);
      assert At(Sobeled(d, w, h), w, h, PixelX(w, i), PixelY(w, i), i % 4) == Sobeled(d, w, h)[i];
    }
  }

  /** Two non-negative reals compare as their squares do. */
  lemma SquareLess(a: real, b: real)
    requires 0.0 <= a && 0.0 <= b && a * a < b * b
    ensures a < b
  {
  }

  /** A square root of m lies above v - 1/2 when v*v - v < m. */
  lemma RootAbove(m: nat, s: real, v: int)
    requires 0.0 <= s && s * s == m as real && 1 <= v && v * v - v < m
    ensures (v as real) - 0.5 < s
  {
    var fv := v as real;
    assert (v * v - v) as real == fv * fv - fv;
    assert (fv - 0.5) * (fv - 0.5) == fv * fv - fv + 0.25;
    SquareLess(fv - 0.5, s);
  }

  /** A square root of m lies below v + 1/2 when m <= v*v + v. */
  lemma RootBelow(m: nat, s: real, v: nat)
    requires 0.0 <= s && s * s == m as real && m <= v * v + v
    ensures s < (v as real) + 0.5
  {
    var fv := v as real;
    assert (v * v + v) as real == fv * fv + fv;
    assert (fv + 0.5) * (fv + 0.5) == fv * fv + fv + 0.25;
    SquareLess(s, fv + 0.5);
  }

  /**
   * EdgeLevel is Math.sqrt followed by the clamp and the store: for every
   * non-negative square root s of m, the stored clamp of s is EdgeLevel(m).
   */
  lemma EdgeLevelIsStoredRoot(m: nat, s: real)
    requires 0.0 <= s && s * s == m as real
    ensures EdgeLevel(m) == ByteStore(ClampReal(s, 0.0, 255.0))
  {
    var v := EdgeLevel(m);
    if v > 0 {
      RootAbove(m, s, v);
    }
    if v < 255 {
      RootBelow(m, s, v);
      ByteStoreNearest(s, v);
    } else if s < 255.0 {
      ByteStoreNearest(s, 255);
    }
  }

  /** The edge byte of a perfect square k*k is k: in particular gx = 3, gy = 4 gives 5. */
  lemma EdgeLevelOfSquare(k: byte)
    ensures EdgeLevel(k * k) == k
  {
    EdgeLevelIsStoredRoot(k * k, k as real);
    ByteStoreOfByte(k);
  }

  /** A larger squared magnitude never gives a smaller edge byte. */
  lemma EdgeLevelMonotone(m1: nat, m2: nat)
    requires m1 <= m2
    ensures EdgeLevel(m1) <= EdgeLevel(m2)
  {
    var v1, v2 := EdgeLevel(m1), EdgeLevel(m2);
    if v2 < v1 {
      SquarePlusMonotone(v2, v1 - 1);
      SquareShift(v1);
    }
  }

  lemma SquareShift(v: int)
    ensures (v - 1) * (v - 1) + (v - 1) == v * v - v
  {
  }

  lemma SquarePlusMonotone(a: nat, b: nat)
    requires a <= b
    ensures a * a + a <= b * b + b
  {
    MulLeq(a, b, a);
    MulLeq(a, b, b);
  }
}
