/**
 The target-size rule of `process_image` in main.py: the driving side (the
 width when it is strictly larger, otherwise the height) is capped at the
 maximum dimension and the other side is scaled by the same ratio and
 truncated.

 The script computes the ratio in floating point and truncates the product
 with `int()`; this model uses the exact rational ratio and integer floor
 division instead.
 */
module Sizing {

  import opened Wrappers
  import opened Images

  function Min(a: int, b: int): int
  {
    if a <= b then a else b
  }

  /** True when the width drives the scaling; ties go to the height. */
  predicate WidthDrives(s: Size)
  {
    s.width > s.height
  }

  function DrivingSide(s: Size): nat
  {
    if WidthDrives(s) then s.width else s.height
  }

  function OtherSide(s: Size): nat
  {
    if WidthDrives(s) then s.height else s.width
  }

  /** `int(n / d)` for a positive divisor: the quotient truncated toward zero. */
  function TruncDiv(n: int, d: int): (q: int)
    requires d > 0
    ensures n >= 0 ==> 0 <= q * d <= n < q * d + d
    ensures n < 0 ==> q <= 0
    ensures q > 0 <==> n >= d
  {
    if n >= 0 then
      FloorDiv(n, d);
      n / d
    else
      -((-n) / d)
  }

  lemma FloorDiv(n: nat, d: int)
    requires d > 0
    ensures 0 <= (n / d) * d <= n < (n / d) * d + d
    ensures n / d > 0 <==> n >= d
  {
    var q, m := n / d, n % d;
    assert n == d * q + m && 0 <= m < d;
    if q > 0 {
      MulMonotone(1, q, d);
    }
  }

  /**
   The size the image is resized to, or None where the script raises: a side
   that comes out non-positive, or a zero-height image, whose ratio divides by
   zero.
   */
  function TargetSize(s: Size, maxDimension: int): (r: Option<Size>)
    ensures r.Some? <==>
              0 < maxDimension && 0 < DrivingSide(s)
              && DrivingSide(s) <= Min(DrivingSide(s), maxDimension) * OtherSide(s)
    ensures r.Some? && WidthDrives(s) ==>
              && r.value.width == Min(s.width, maxDimension)
              && r.value.height * s.width <= r.value.width * s.height < (r.value.height + 1) * s.width
    ensures r.Some? && !WidthDrives(s) ==>
              && r.value.height == Min(s.height, maxDimension)
              && r.value.width * s.height <= r.value.height * s.width < (r.value.width + 1) * s.height
  {
    if WidthDrives(s) then
      match ScaleSides(s.width, s.height, maxDimension)
      case Some((newWidth, newHeight)) => Some(Size(newWidth, newHeight))
      case None => None
    else if s.height == 0 then
      None
    else
      match ScaleSides(s.height, s.width, maxDimension)
      case Some((newHeight, newWidth)) => Some(Size(newWidth, newHeight))
      case None => None
  }

  /**
   The driving side `d` capped at the maximum, and the other side `o` scaled
   by the same ratio and truncated; None when either comes out non-positive.
   */
  function ScaleSides(d: nat, o: nat, maxDimension: int): (r: Option<(nat, nat)>)
    requires d > 0
    ensures r.Some? <==> 0 < maxDimension && d <= Min(d, maxDimension) * o
    ensures r.Some? ==>
              && r.value.0 == Min(d, maxDimension)
              && 1 <= r.value.1
              && r.value.1 * d <= r.value.0 * o < (r.value.1 + 1) * d
  {
    var m := Min(d, maxDimension);
    var n := TruncDiv(m * o, d);
    if m <= 0 || n <= 0 then None else Some((m, n))
  }

  /**
   On success both sides are at least one pixel, neither grows, neither
   exceeds the maximum dimension, and the image keeps its landscape or
   portrait shape.
   */
  lemma TargetSizeBounds(s: Size, maxDimension: int)
    requires TargetSize(s, maxDimension).Some?
    ensures var t := TargetSize(s, maxDimension).value;
            && 1 <= t.width <= s.width && 1 <= t.height <= s.height
            && t.width <= maxDimension && t.height <= maxDimension
            && (WidthDrives(t) <==> WidthDrives(s))
  {
    var t := TargetSize(s, maxDimension).value;
    var d, o := DrivingSide(s), OtherSide(s);
    var m := Min(d, maxDimension);
    var n := if WidthDrives(s) then t.height else t.width;
    assert n * d <= m * o < (n + 1) * d;
    ScaleBounds(d, o, m, n);
  }

  /**
   The scaled side `n` of a `d` by `o` image whose driving side becomes `m`
   is at most `o`, at most `m`, and below `m` when `o` is below `d`.
   */
  lemma ScaleBounds(d: int, o: nat, m: int, n: int)
    requires o <= d && 0 < m <= d && n * d <= m * o
    ensures n <= o && n <= m
    ensures o < d ==> n < m
  {
    MulMonotone(m, d, o);
    MulCancel(n, o, d);
    MulMonotone(o, d, m);
    MulCancel(n, m, d);
    if o < d {
      MulStrictMonotone(o, d, m);
      MulStrictCancel(n, m, d);
    }
  }

  /** A maximum dimension at least the driving side leaves the size as it is. */
  lemma TargetSizeKeepsSmallImage(s: Size, maxDimension: int)
    requires 1 <= s.width && 1 <= s.height
    requires DrivingSide(s) <= maxDimension
    ensures TargetSize(s, maxDimension) == Some(s)
  {
    var d, o := DrivingSide(s), OtherSide(s);
    assert Min(d, maxDimension) == d;
    MulMonotone(1, o, d);
    var t := TargetSize(s, maxDimension).value;
    var n := if WidthDrives(s) then t.height else t.width;
    assert n * d <= d * o < (n + 1) * d;
    MulCancel(n, o, d);
    MulStrictCancel(o, n + 1, d);
  }

  /** Resizing an already resized image with the same maximum changes nothing. */
  lemma TargetSizeIdempotent(s: Size, maxDimension: int)
    requires TargetSize(s, maxDimension).Some?
    ensures TargetSize(TargetSize(s, maxDimension).value, maxDimension) == TargetSize(s, maxDimension)
  {
    var t := TargetSize(s, maxDimension).value;
    TargetSizeBounds(s, maxDimension);
    TargetSizeKeepsSmallImage(t, maxDimension);
  }

  /**
   A larger maximum dimension never fails where a smaller one succeeds, and
   never gives a smaller side.
   */
  lemma TargetSizeMonotone(s: Size, small: int, large: int)
    requires small <= large
    requires TargetSize(s, small).Some?
    ensures TargetSize(s, large).Some?
    ensures TargetSize(s, small).value.width <= TargetSize(s, large).value.width
    ensures TargetSize(s, small).value.height <= TargetSize(s, large).value.height
  {
    var d, o := DrivingSide(s), OtherSide(s);
    var a, b := Min(d, small), Min(d, large);
    MulMonotone(a, b, o);
    var p, q := TargetSize(s, small).value, TargetSize(s, large).value;
    var np := if WidthDrives(s) then p.height else p.width;
    var nq := if WidthDrives(s) then q.height else q.width;
    assert np * d <= a * o && b * o < (nq + 1) * d;
    MulStrictCancel(np, nq + 1, d);
  }

  lemma MulMonotone(a: int, b: int, c: nat)
    requires a <= b
    ensures a * c <= b * c
  {
  }

  lemma MulStrictMonotone(a: int, b: int, c: int)
    requires a < b && c > 0
    ensures a * c < b * c
  {
  }

  lemma MulCancel(a: int, b: int, c: int)
    requires c > 0 && a * c <= b * c
    ensures a <= b
  {
    if a > b {
      MulMonotone(b + 1, a, c);
    }
  }

  lemma MulStrictCancel(a: int, b: int, c: int)
    requires c > 0 && a * c < b * c
    ensures a < b
  {
    if a >= b {
      MulMonotone(b, a, c);
    }
  }

  /** The inputs the test suite uses: 4000x2000 at 1920, 100x100 at 1 and at -10. */
  lemma TargetSizeExamples()
    ensures TargetSize(Size(4000, 2000), 1920) == Some(Size(1920, 960))
    ensures TargetSize(Size(100, 100), 1) == Some(Size(1, 1))
    ensures TargetSize(Size(100, 100), -10) == None
  {
  }
}
