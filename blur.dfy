/**
 * boxBlur (tattoo-ref.js lines 179-220): a mean filter over the red channel,
 * first along each row into a temporary buffer, then along each column back
 * into the image. Every output is the mean of the samples that lie inside the
 * image within `radius` of it: near a border the window simply has fewer
 * samples (nothing is padded or replicated). Each mean is recomputed from
 * scratch and stored as a byte, and is written into R, G and B.
 */
module Blur {
  import opened Bytes
  import opened Raster

  /** How many of the positions a, a+1, ..., b-1 lie in 0..n-1. */
  function InBoundsCount(n: int, a: int, b: int): int
    decreases b - a
  {
    if b <= a then 0 else InBoundsCount(n, a, b - 1) + (if 0 <= b - 1 < n then 1 else 0)
  }

  function Max(a: int, b: int): int { if a < b then b else a }
  function Min(a: int, b: int): int { if a < b then a else b }

  /** The in-bounds part of a..b-1 is max(a, 0)..min(b, n)-1. */
  lemma {:induction false} InBoundsCountIs(n: nat, a: int, b: int)
    requires a <= b
    ensures InBoundsCount(n, a, b) == Max(0, Min(b, n) - Max(a, 0))
    decreases b - a
  {
    if a < b {
      InBoundsCountIs(n, a, b - 1);
    }
  }

  /**
   * The window of radius r around an in-bounds position x spans
   * max(0, x-r)..min(n-1, x+r) and is never empty.
   */
  lemma WindowCount(n: nat, x: int, r: nat)
    requires 0 <= x < n
    ensures InBoundsCount(n, x - r, x + r + 1) == Min(n - 1, x + r) - Max(0, x - r) + 1
    ensures InBoundsCount(n, x - r, x + r + 1) >= 1
  {
    InBoundsCountIs(n, x - r, x + r + 1);
  }

  /** The byte stored for `sum / count`. */
  function Mean(sum: int, count: int): byte
    requires count > 0
  {
    ByteStore(sum as real / count as real)
  }

  /** A mean of samples that all lie in lo..hi is stored as a byte in lo..hi. */
  lemma MeanBetween(sum: int, count: int, lo: byte, hi: byte)
    requires count > 0 && lo * count <= sum <= hi * count
    ensures lo <= Mean(sum, count) <= hi
  {
    var m, c := sum as real / count as real, count as real;
    assert m * c == sum as real;
    assert (lo * count) as real == lo as real * c;
    assert (hi * count) as real == hi as real * c;
    assert (m - lo as real) * c >= 0.0;
    assert (hi as real - m) * c >= 0.0;
    PositiveFactor(m - lo as real, c);
    PositiveFactor(hi as real - m, c);
    ByteStoreBetween(m, lo, hi);
  }

  lemma PositiveFactor(a: real, c: real)
    requires c > 0.0 && a * c >= 0.0
    ensures a >= 0.0
  {
  }

  // ---------------- horizontal pass ----------------

  /** Sum of the red samples of row y at columns a..b-1 that lie inside the image. */
  function RowSum(d: seq<byte>, w: nat, h: nat, y: int, a: int, b: int): int
    requires |d| == w * h * 4 && 0 <= y < h
    decreases b - a
  {
    if b <= a then 0
    else
      var sample := if 0 <= b - 1 < w then Red(d, w, h, b - 1, y) else 0;
      RowSum(d, w, h, y, a, b - 1) + sample
  }

  /** The value the horizontal pass gives pixel (x, y). */
  function RowMeanAt(d: seq<byte>, w: nat, h: nat, r: nat, x: int, y: int): byte
    requires |d| == w * h * 4 && 0 <= x < w && 0 <= y < h
  {
    WindowCount(w, x, r);
    Mean(RowSum(d, w, h, y, x - r, x + r + 1), InBoundsCount(w, x - r, x + r + 1))
  }

  /** Sample i of the temporary buffer: the row mean in R, G, B, the image's alpha in A. */
  function RowsBlurredAt(d: seq<byte>, w: nat, h: nat, r: nat, i: int): byte
    requires w > 0 && |d| == w * h * 4 && 0 <= i < |d|
  {
    PixelOf(w, h, i);
    if i % 4 == 3 then d[i] else RowMeanAt(d, w, h, r, PixelX(w, i), PixelY(w, i))
  }

  /** The temporary buffer after the horizontal pass. */
  function RowsBlurred(d: seq<byte>, w: nat, h: nat, r: nat): (t: seq<byte>)
    requires w > 0 && |d| == w * h * 4
    ensures |t| == |d|
  {
    seq(|d|, i requires 0 <= i < |d| => RowsBlurredAt(d, w, h, r, i))
  }

  /** The innermost loop of the horizontal pass: sum and count over the row window. */
  method RowWindow(data: array<byte>, w: nat, h: nat, x: int, y: int, r: nat) returns (sum: int, count: int)
    requires data.Length == w * h * 4 && 0 <= y < h
    ensures sum == RowSum(data[..], w, h, y, x - r, x + r + 1)
    ensures count == InBoundsCount(w, x - r, x + r + 1)
  {
    sum, count := 0, 0;
    var k := -(r as int);
    while k <= r
      invariant -(r as int) <= k <= r + 1
      invariant sum == RowSum(data[..], w, h, y, x - r, x + k)
      invariant count == InBoundsCount(w, x - r, x + k)
    {
      var xx := x + k;
      if 0 <= xx < w {
        IndexOf(w, h, xx, y, 0);
        sum := sum + data[Idx(w, xx, y)];
        count := count + 1;
      }
      k := k + 1;
    }
  }

  /** The horizontal pass: tmp gets the row means of `src` and a copy of its alpha. */
  method BlurRows(src: array<byte>, tmp: array<byte>, w: nat, h: nat, r: nat)
    requires w > 0 && src.Length == w * h * 4 && tmp.Length == src.Length && src != tmp
    modifies tmp
    ensures tmp[..] == RowsBlurred(src[..], w, h, r)
  {
    ghost var d := src[..];
    AllPixels(w, h);
    var y := 0;
    while y < h
      invariant 0 <= y <= h
      invariant forall j :: 0 <= j < tmp.Length && RowMajorBefore(PixelX(w, j), PixelY(w, j), 0, y) ==>
        tmp[j] == RowsBlurredAt(d, w, h, r, j)
    {
      var x := 0;
      while x < w
        invariant 0 <= x <= w
        invariant forall j :: 0 <= j < tmp.Length && RowMajorBefore(PixelX(w, j), PixelY(w, j), x, y) ==>
          tmp[j] == RowsBlurredAt(d, w, h, r, j)
      {
        var sum, count := RowWindow(src, w, h, x, y, r);
        WindowCount(w, x, r);
        var val := Mean(sum, count);
        var idx0 := Idx(w, x, y);
        ThisPixel(w, h, x, y);
        tmp[idx0], tmp[idx0 + 1], tmp[idx0 + 2] := val, val, val;
        tmp[idx0 + 3] := src[idx0 + 3];
        x := x + 1;
      }
      y := y + 1;
    }
  }

  // ---------------- vertical pass ----------------

  /** Sum of the red samples of column x at rows a..b-1 that lie inside the image. */
  function ColumnSum(t: seq<byte>, w: nat, h: nat, x: int, a: int, b: int): int
    requires |t| == w * h * 4 && 0 <= x < w
    decreases b - a
  {
    if b <= a then 0
    else
      var sample := if 0 <= b - 1 < h then Red(t, w, h, x, b - 1) else 0;
      ColumnSum(t, w, h, x, a, b - 1) + sample
  }

  /** The value the vertical pass gives pixel (x, y), from the temporary buffer t. */
  function ColumnMeanAt(t: seq<byte>, w: nat, h: nat, r: nat, x: int, y: int): byte
    requires |t| == w * h * 4 && 0 <= x < w && 0 <= y < h
  {
    WindowCount(h, y, r);
    Mean(ColumnSum(t, w, h, x, y - r, y + r + 1), InBoundsCount(h, y - r, y + r + 1))
  }

  /** Sample i of the image after the vertical pass: the column mean in R, G, B; A untouched. */
  function ColumnsBlurredAt(t: seq<byte>, d: seq<byte>, w: nat, h: nat, r: nat, i: int): byte
    requires w > 0 && |t| == w * h * 4 && |d| == |t| && 0 <= i < |d|
  {
    PixelOf(w, h, i);
    if i % 4 == 3 then d[i] else ColumnMeanAt(t, w, h, r, PixelX(w, i), PixelY(w, i))
  }

  /** The image after the vertical pass over t, starting from image d. */
  function ColumnsBlurred(t: seq<byte>, d: seq<byte>, w: nat, h: nat, r: nat): (e: seq<byte>)
    requires w > 0 && |t| == w * h * 4 && |d| == |t|
    ensures |e| == |d|
  {
    seq(|d|, i requires 0 <= i < |d| => ColumnsBlurredAt(t, d, w, h, r, i))
  }

  /** The innermost loop of the vertical pass: sum and count over the column window. */
  method ColumnWindow(tmp: array<byte>, w: nat, h: nat, x: int, y: int, r: nat) returns (sum: int, count: int)
    requires tmp.Length == w * h * 4 && 0 <= x < w
    ensures sum == ColumnSum(tmp[..], w, h, x, y - r, y + r + 1)
    ensures count == InBoundsCount(h, y - r, y + r + 1)
  {
    sum, count := 0, 0;
    var k := -(r as int);
    while k <= r
      invariant -(r as int) <= k <= r + 1
      invariant sum == ColumnSum(tmp[..], w, h, x, y - r, y + k)
      invariant count == InBoundsCount(h, y - r, y + k)
    {
      var yy := y + k;
      if 0 <= yy < h {
        IndexOf(w, h, x, yy, 0);
        sum := sum + tmp[Idx(w, x, yy)];
        count := count + 1;
      }
      k := k + 1;
    }
  }

  /** Pixel (px, py) comes before (x, y) in column-major order. */
  predicate ColumnMajorBefore(px: int, py: int, x: int, y: int)
  {
    px < x || (px == x && py < y)
  }

  /** The vertical pass: R, G, B of `data` get the column means of tmp, column by column. */
  method BlurColumns(tmp: array<byte>, data: array<byte>, w: nat, h: nat, r: nat)
    requires w > 0 && tmp.Length == w * h * 4 && data.Length == tmp.Length && tmp != data
    modifies data
    ensures data[..] == ColumnsBlurred(tmp[..], old(data[..]), w, h, r)
  {
    ghost var t, d := tmp[..], data[..];
    AllPixels(w, h);
    var x := 0;
    while x < w
      invariant 0 <= x <= w
      invariant forall j :: 0 <= j < data.Length ==>
        data[j] == if ColumnMajorBefore(PixelX(w, j), PixelY(w, j), x, 0) then ColumnsBlurredAt(t, d, w, h, r, j) else d[j]
    {
      var y := 0;
      while y < h
        invariant 0 <= y <= h
        invariant forall j :: 0 <= j < data.Length ==>
          data[j] == if ColumnMajorBefore(PixelX(w, j), PixelY(w, j), x, y) then ColumnsBlurredAt(t, d, w, h, r, j) else d[j]
      {
        var sum, count := ColumnWindow(tmp, w, h, x, y, r);
        WindowCount(h, y, r);
        var val := Mean(sum, count);
        var idx0 := Idx(w, x, y);
        ThisPixel(w, h, x, y);
        data[idx0], data[idx0 + 1], data[idx0 + 2] := val, val, val;
        y := y + 1;
      }
      x := x + 1;
    }
  }

  // ---------------- the whole blur ----------------

  /** The image after boxBlur with the given radius. */
  function Blurred(d: seq<byte>, w: nat, h: nat, r: nat): (e: seq<byte>)
    requires w > 0 && |d| == w * h * 4
    ensures |e| == |d|
    ensures forall i :: 0 <= i < |d| && i % 4 == 3 ==> e[i] == d[i]
  {
    ColumnsBlurred(RowsBlurred(d, w, h, r), d, w, h, r)
  }

  /** boxBlur(imgData, radius). */
  method BoxBlur(img: ImageData, radius: nat)
    requires img.Valid()
    modifies img.data
    ensures img.data[..] == Blurred(old(img.data[..]), img.width, img.height, radius)
  {
    var data := img.data;
    var tmp := new byte[data.Length](_ => 0);
    BlurRows(data, tmp, img.width, img.height, radius);
    BlurColumns(tmp, data, img.width, img.height, radius);
  }

  // ---------------- properties ----------------

  /**
   * A row sum whose in-bounds red samples all lie in lo..hi lies between lo
   * and hi times their count.
   */
  lemma {:induction false} RowSumBounds(d: seq<byte>, w: nat, h: nat, y: int, a: int, b: int, lo: byte, hi: byte)
    requires |d| == w * h * 4 && 0 <= y < h
    requires forall xx :: a <= xx < b && 0 <= xx < w ==> lo <= Red(d, w, h, xx, y) <= hi
    ensures lo * InBoundsCount(w, a, b) <= RowSum(d, w, h, y, a, b) <= hi * InBoundsCount(w, a, b)
    decreases b - a
  {
    if a < b {
      RowSumBounds(d, w, h, y, a, b - 1, lo, hi);
      MulSucc(lo, InBoundsCount(w, a, b - 1));
      MulSucc(hi, InBoundsCount(w, a, b - 1));
    }
  }

  /**
   * A column sum whose in-bounds red samples all lie in lo..hi lies between
   * lo and hi times their count.
   */
  lemma {:induction false} ColumnSumBounds(t: seq<byte>, w: nat, h: nat, x: int, a: int, b: int, lo: byte, hi: byte)
    requires |t| == w * h * 4 && 0 <= x < w
    requires forall yy :: a <= yy < b && 0 <= yy < h ==> lo <= Red(t, w, h, x, yy) <= hi
    ensures lo * InBoundsCount(h, a, b) <= ColumnSum(t, w, h, x, a, b) <= hi * InBoundsCount(h, a, b)
    decreases b - a
  {
    if a < b {
      ColumnSumBounds(t, w, h, x, a, b - 1, lo, hi);
      MulSucc(lo, InBoundsCount(h, a, b - 1));
      MulSucc(hi, InBoundsCount(h, a, b - 1));
    }
  }

  lemma MulSucc(a: int, c: int)
    ensures a * (c + 1) == a * c + a
  {
  }

  /** The horizontal pass leaves the row mean of pixel (x, y) in its R, G and B. */
  lemma RowsBlurredPixel(d: seq<byte>, w: nat, h: nat, r: nat, x: int, y: int)
    requires w > 0 && |d| == w * h * 4 && 0 <= x < w && 0 <= y < h
    ensures forall c :: 0 <= c < 3 ==> At(RowsBlurred(d, w, h, r), w, h, x, y, c) == RowMeanAt(d, w, h, r, x, y)
    ensures At(RowsBlurred(d, w, h, r), w, h, x, y, 3) == At(d, w, h, x, y, 3)
  {
    ThisPixel(w, h, x, y);
  }

  /** The vertical pass leaves the column mean of pixel (x, y) of t in its R, G and B. */
  lemma ColumnsBlurredPixel(t: seq<byte>, d: seq<byte>, w: nat, h: nat, r: nat, x: int, y: int)
    requires w > 0 && |t| == w * h * 4 && |d| == |t| && 0 <= x < w && 0 <= y < h
    ensures forall c :: 0 <= c < 3 ==> At(ColumnsBlurred(t, d, w, h, r), w, h, x, y, c) == ColumnMeanAt(t, w, h, r, x, y)
    ensures At(ColumnsBlurred(t, d, w, h, r), w, h, x, y, 3) == At(d, w, h, x, y, 3)
  {
    ThisPixel(w, h, x, y);
  }

  /**
   * Every blurred R, G, B of pixel (x, y) lies between the least and the
   * greatest red sample of the in-bounds part of its (2r+1) x (2r+1) window.
   */
  lemma BlurWindowBounded(d: seq<byte>, w: nat, h: nat, r: nat, x: int, y: int, lo: byte, hi: byte)
    requires w > 0 && |d| == w * h * 4 && 0 <= x < w && 0 <= y < h
    requires forall xx, yy :: x - r <= xx <= x + r && y - r <= yy <= y + r && 0 <= xx < w && 0 <= yy < h ==>
      lo <= Red(d, w, h, xx, yy) <= hi
    ensures forall c :: 0 <= c < 3 ==> lo <= At(Blurred(d, w, h, r), w, h, x, y, c) <= hi
  {
    var t := RowsBlurred(d, w, h, r);
    forall yy | y - r <= yy < y + r + 1 && 0 <= yy < h
      ensures lo <= Red(t, w, h, x, yy) <= hi
    {
      RowsBlurredPixel(d, w, h, r, x, yy);
      WindowCount(w, x, r);
      RowSumBounds(d, w, h, yy, x - r, x + r + 1, lo, hi);
      MeanBetween(RowSum(d, w, h, yy, x - r, x + r + 1), InBoundsCount(w, x - r, x + r + 1), lo, hi);
    }
    WindowCount(h, y, r);
    ColumnSumBounds(t, w, h, x, y - r, y + r + 1, lo, hi);
    MeanBetween(ColumnSum(t, w, h, x, y - r, y + r + 1), InBoundsCount(h, y - r, y + r + 1), lo, hi);
    ColumnsBlurredPixel(t, d, w, h, r, x, y);
  }

  /** An image whose red channel is flat at k becomes flat gray k, at any radius; alpha is kept. */
  lemma BlurFlat(d: seq<byte>, w: nat, h: nat, r: nat, k: byte)
    requires w > 0 && |d| == w * h * 4 && RedWithin(d, k, k)
    ensures forall i :: 0 <= i < |d| ==> Blurred(d, w, h, r)[i] == if i % 4 == 3 then d[i] else k
  {
    forall xx, yy | 0 <= xx < w && 0 <= yy < h
      ensures Red(d, w, h, xx, yy) == k
    {
      IndexOf(w, h, xx, yy, 0);
    }
    forall i | 0 <= i < |d| && i % 4 != 3
      ensures Blurred(d, w, h, r)[i] == k
    {
      PixelOf(w, h, i);
      BlurWindowBounded(d, w, h, r, PixelX(w, i), PixelY(w, i), k, k);
      assert At(Blurred(d, w, h, r), w, h, PixelX(w, i), PixelY(w, i), i % 4) == Blurred(d, w, h, r)[i];
    }
  }

  /** The blur leaves every pixel gray and keeps alpha. */
  lemma BlurredGray(d: seq<byte>, w: nat, h: nat, r: nat)
    requires w > 0 && |d| == w * h * 4
    ensures Gray(Blurred(d, w, h, r)) && SameAlpha(Blurred(d, w, h, r), d)
  {
    var e := Blurred(d, w, h, r);
    forall i | 0 <= i < |e| && i % 4 != 3
      ensures e[i] == e[i - i % 4]
    {
      var p := i - i % 4;
      assert p / 4 == i / 4 && p % 4 == 0;
    }
  }

  /** With radius 0 each window holds one sample: the blur copies red into R, G and B. */
  lemma BlurRadiusZero(d: seq<byte>, w: nat, h: nat, x: int, y: int)
    requires w > 0 && |d| == w * h * 4 && 0 <= x < w && 0 <= y < h
    ensures forall c :: 0 <= c < 3 ==> At(Blurred(d, w, h, 0), w, h, x, y, c) == Red(d, w, h, x, y)
  {
    var t := RowsBlurred(d, w, h, 0);
    RowsBlurredPixel(d, w, h, 0, x, y);
    ColumnsBlurredPixel(t, d, w, h, 0, x, y);
    assert ColumnSum(t, w, h, x, y, y + 1) == Red(t, w, h, x, y);
    assert InBoundsCount(h, y, y + 1) == 1;
    ByteStoreOfByte(Red(t, w, h, x, y));
    assert RowSum(d, w, h, y, x, x + 1) == Red(d, w, h, x, y);
    assert InBoundsCount(w, x, x + 1) == 1;
    ByteStoreOfByte(Red(d, w, h, x, y));
  }
}
