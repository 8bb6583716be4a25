/**
 * The RGBA pixel buffer (the browser's ImageData) and its index arithmetic:
 * pixel (x, y) of a `width`-wide image occupies the four samples starting at
 * (y * width + x) * 4, in the order R, G, B, A.
 */
module Raster {
  import opened Bytes

  /** Index of the red sample of pixel (x, y). */
  function Idx(w: nat, x: int, y: int): int
  {
    (y * w + x) * 4
  }

  /** Column of the pixel that sample `i` belongs to. */
  function PixelX(w: nat, i: nat): nat
    requires w > 0
  {
    (i / 4) % w
  }

  /** Row of the pixel that sample `i` belongs to. */
  function PixelY(w: nat, i: nat): nat
    requires w > 0
  {
    (i / 4) / w
  }

  /** Euclidean division is determined by quotient and remainder. */
  lemma DivModUnique(n: int, w: int, q: int, r: int)
    requires w > 0 && 0 <= r < w && n == q * w + r
    ensures n / w == q && n % w == r
  {
    var q', r' := n / w, n % w;
    assert n == q' * w + r';
    if q > q' {
      assert (q - q') * w >= w by { MulAtLeast(q - q', w); }
    } else if q < q' {
      assert (q' - q) * w >= w by { MulAtLeast(q' - q, w); }
    }
  }

  lemma MulAtLeast(a: int, w: int)
    requires a >= 1 && w > 0
    ensures a * w >= w
  {
  }

  /**
   * Sample c of pixel (x, y) lies inside a width*height*4 buffer, and that
   * sample maps back to pixel (x, y) and channel c.
   */
  lemma IndexOf(w: nat, h: nat, x: int, y: int, c: int)
    requires 0 <= x < w && 0 <= y < h && 0 <= c < 4
    ensures 0 <= Idx(w, x, y) + c < w * h * 4
    ensures PixelX(w, Idx(w, x, y) + c) == x
    ensures PixelY(w, Idx(w, x, y) + c) == y
    ensures (Idx(w, x, y) + c) % 4 == c
  {
    var p := y * w + x;
    var i := p * 4 + c;
    assert y * w <= (h - 1) * w by { MulLeq(y, h - 1, w); }
    assert p < h * w;
    DivModUnique(i, 4, p, c);
    DivModUnique(p, w, y, x);
  }

  lemma MulLeq(a: int, b: int, w: nat)
    requires a <= b
    ensures a * w <= b * w
  {
  }

  /** Channel c of pixel (x, y) of a width*height*4 buffer. */
  function At(d: seq<byte>, w: nat, h: nat, x: int, y: int, c: int): byte
    requires |d| == w * h * 4 && 0 <= x < w && 0 <= y < h && 0 <= c < 4
  {
    IndexOf(w, h, x, y, c);
    d[Idx(w, x, y) + c]
  }

  /**
   * The red sample of pixel (x, y). After the tone step R = G = B, and both
   * the blur and the edge detector read red alone.
   */
  function Red(d: seq<byte>, w: nat, h: nat, x: int, y: int): byte
    requires |d| == w * h * 4 && 0 <= x < w && 0 <= y < h
  {
    At(d, w, h, x, y, 0)
  }

  /**
   * Every sample of a width*height*4 buffer belongs to an in-bounds pixel,
   * and is found again from that pixel and its channel.
   */
  lemma PixelOf(w: nat, h: nat, i: int)
    requires w > 0 && 0 <= i < w * h * 4
    ensures PixelX(w, i) < w && PixelY(w, i) < h
    ensures Idx(w, PixelX(w, i), PixelY(w, i)) + i % 4 == i
  {
    var p := i / 4;
    assert p < w * h;
    var x, y := p % w, p / w;
    assert p == y * w + x;
    if y >= h {
      assert y * w >= h * w by { MulLeq(h, y, w); }
    }
  }

  /** Sample i of any buffer lies on a pixel; PixelOf for every sample. */
  lemma AllPixels(w: nat, h: nat)
    requires w > 0
    ensures forall i :: 0 <= i < w * h * 4 ==>
      PixelX(w, i) < w && PixelY(w, i) < h && Idx(w, PixelX(w, i), PixelY(w, i)) + i % 4 == i
  {
    forall i | 0 <= i < w * h * 4
      ensures PixelX(w, i) < w && PixelY(w, i) < h && Idx(w, PixelX(w, i), PixelY(w, i)) + i % 4 == i
    {
      PixelOf(w, h, i);
    }
  }

  /** Pixel (px, py) comes before (x, y) in row-major order. */
  predicate RowMajorBefore(px: int, py: int, x: int, y: int)
  {
    py < y || (py == y && px < x)
  }

  /** The four samples of pixel (x, y) all map back to (x, y). */
  lemma ThisPixel(w: nat, h: nat, x: int, y: int)
    requires 0 <= x < w && 0 <= y < h
    ensures 0 <= Idx(w, x, y) && Idx(w, x, y) + 4 <= w * h * 4
    ensures forall j :: Idx(w, x, y) <= j < Idx(w, x, y) + 4 ==>
      PixelX(w, j) == x && PixelY(w, j) == y && j % 4 == j - Idx(w, x, y)
  {
    forall j | Idx(w, x, y) <= j < Idx(w, x, y) + 4
      ensures PixelX(w, j) == x && PixelY(w, j) == y && j % 4 == j - Idx(w, x, y)
    {
      IndexOf(w, h, x, y, j - Idx(w, x, y));
    }
    IndexOf(w, h, x, y, 3);
  }

  /** Every red sample of d lies in lo..hi. */
  predicate RedWithin(d: seq<byte>, lo: int, hi: int)
  {
    forall i :: 0 <= i < |d| && i % 4 == 0 ==> lo <= d[i] <= hi
  }

  /** Every pixel of d has colour (r, g, b). */
  predicate FlatColour(d: seq<byte>, r: byte, g: byte, b: byte)
  {
    forall i :: 0 <= i && i + 2 < |d| && i % 4 == 0 ==> d[i] == r && d[i + 1] == g && d[i + 2] == b
  }

  /** Every pixel has R = G = B. */
  predicate Gray(e: seq<byte>)
  {
    forall i :: 0 <= i < |e| && i % 4 != 3 ==> e[i] == e[i - i % 4]
  }

  /** Both buffers have the same alpha channel. */
  predicate SameAlpha(e: seq<byte>, d: seq<byte>)
  {
    |e| == |d| && forall i :: 0 <= i < |d| && i % 4 == 3 ==> e[i] == d[i]
  }

  /**
   * An ImageData: its dimensions never change, nor does the identity of its
   * sample array; the samples themselves are updated in place.
   */
  class ImageData {
    const width: nat
    const height: nat
    const data: array<byte>

    /** The platform refuses zero-sized images; the buffer holds 4 samples per pixel. */
    ghost predicate Valid()
    {
      width > 0 && height > 0 && data.Length == width * height * 4
    }

    /** new ImageData(width, height): a fresh, all-zero (transparent black) buffer. */
    constructor (w: nat, h: nat)
      requires w > 0 && h > 0
      ensures Valid() && width == w && height == h && fresh(data)
      ensures forall i :: 0 <= i < data.Length ==> data[i] == 0
    {
      width, height := w, h;
      data := new byte[w * h * 4](_ => 0);
    }

    /** new ImageData(new Uint8ClampedArray(src), width, height): a copy of `src`. */
    constructor Copy(src: array<byte>, w: nat, h: nat)
      requires w > 0 && h > 0 && src.Length == w * h * 4
      ensures Valid() && width == w && height == h && fresh(data)
      ensures data[..] == src[..]
    {
      width, height := w, h;
      data := new byte[src.Length](i reads src requires 0 <= i < src.Length => src[i]);
    }
  }
}
