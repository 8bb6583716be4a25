/**
 * Byte samples and the numeric conversions the pixel loops rely on:
 * storing a number into a Uint8ClampedArray, clamping and Math.round.
 */
module Bytes {

  /** One sample of an RGBA buffer. */
  type byte = x: int | 0 <= x <= 255

  /** Math.max(lo, Math.min(hi, v)). */
  function ClampReal(v: real, lo: real, hi: real): (r: real)
    requires lo <= hi
    ensures lo <= r <= hi
    ensures lo <= v <= hi ==> r == v
    ensures v < lo ==> r == lo
    ensures v > hi ==> r == hi
  {
    if v < lo then lo else if v > hi then hi else v
  }

  /**
   * The value a Uint8ClampedArray keeps when `v` is assigned to one of its
   * elements (ToUint8Clamp): non-positive values become 0, values of 255 or
   * more become 255, anything else is rounded to the nearest integer with
   * ties going to the even neighbour.
   */
  function ByteStore(v: real): (r: byte)
    ensures v <= 0.0 ==> r == 0
    ensures v >= 255.0 ==> r == 255
    ensures 0.0 < v < 255.0 ==> (r as real) - 0.5 <= v <= (r as real) + 0.5
    ensures 0.0 < v < 255.0 && (v - (r as real) == 0.5 || (r as real) - v == 0.5) ==> r % 2 == 0
  {
    if v <= 0.0 then 0
    else if v >= 255.0 then 255
    else
      var f := v.Floor;
      if (f as real) + 0.5 < v then f + 1
      else if v < (f as real) + 0.5 then f
      else if f % 2 == 1 then f + 1
      else f
  }

  /** Storing a value that already is a byte keeps it. */
  lemma ByteStoreOfByte(k: byte)
    ensures ByteStore(k as real) == k
  {
  }

  /** Storing never reverses the order of two values. */
  lemma ByteStoreMonotone(v: real, w: real)
    requires v <= w
    ensures ByteStore(v) <= ByteStore(w)
  {
    if v < w && 0.0 < v && w < 255.0 {
      var rv, rw := ByteStore(v), ByteStore(w);
      assert (rv as real) - 0.5 <= v < w <= (rw as real) + 0.5;
    }
  }

  /** A value strictly within one half of a byte `n` is stored as `n`. */
  lemma ByteStoreNearest(v: real, n: byte)
    requires (n as real) - 0.5 < v < (n as real) + 0.5
    ensures ByteStore(v) == n
  {
  }

  /** A stored value stays within any byte bounds that hold of the value. */
  lemma ByteStoreBetween(v: real, lo: byte, hi: byte)
    requires lo as real <= v <= hi as real
    ensures lo <= ByteStore(v) <= hi
  {
    ByteStoreMonotone(lo as real, v);
    ByteStoreMonotone(v, hi as real);
    ByteStoreOfByte(lo);
    ByteStoreOfByte(hi);
  }

  /** Math.round: the nearest integer, ties rounded towards +infinity. */
  function MathRound(x: real): (r: int)
    ensures (r as real) - 0.5 <= x < (r as real) + 0.5
  {
    (x + 0.5).Floor
  }
}
