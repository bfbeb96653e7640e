/** The pixel-mask stages between thresholding and contour search, on row-major grids of
    8-bit values (0 = background, 255 = ink once polarity is normalised). */
module Masks {
  import opened Common

  type Grid = seq<seq<int>>

  /** `rows` rows of `cols` pixels each. */
  predicate IsGrid(m: Grid, rows: nat, cols: nat)
  {
    |m| == rows && forall i :: 0 <= i < |m| ==> |m[i]| == cols
  }

  predicate SameShape(a: Grid, b: Grid)
  {
    |a| == |b| && forall i :: 0 <= i < |a| ==> |a[i]| == |b[i]|
  }

  /** Every pixel is a `CV_8U` value. */
  predicate Bytes(m: Grid)
  {
    forall i, j :: 0 <= i < |m| && 0 <= j < |m[i]| ==> 0 <= m[i][j] <= 255
  }

  /** Every pixel is one of the two levels a binary threshold produces. */
  predicate Binary(m: Grid)
  {
    forall i, j :: 0 <= i < |m| && 0 <= j < |m[i]| ==> m[i][j] == 0 || m[i][j] == 255
  }

  function RowSum(r: seq<int>): int
  {
    if |r| == 0 then 0 else r[0] + RowSum(r[1..])
  }

  function Sum(m: Grid): int
  {
    if |m| == 0 then 0 else RowSum(m[0]) + Sum(m[1..])
  }

  function Count(m: Grid): nat
  {
    if |m| == 0 then 0 else |m[0]| + Count(m[1..])
  }

  /** `cv.mean(bw)[0]`: the average pixel value. */
  function Mean(m: Grid): real
    requires Count(m) > 0
  {
    Sum(m) as real / Count(m) as real
  }

  function InvertRow(r: seq<int>): seq<int>
  {
    seq(|r|, j requires 0 <= j < |r| => 255 - r[j])
  }

  /** `cv.bitwise_not` on an 8-bit mask. */
  function Invert(m: Grid): Grid
  {
    seq(|m|, i requires 0 <= i < |m| => InvertRow(m[i]))
  }

  lemma {:induction false} RowSumInvert(r: seq<int>)
    ensures RowSum(InvertRow(r)) == 255 * |r| - RowSum(r)
    decreases |r|
  {
    if |r| > 0 {
      assert InvertRow(r)[1..] == InvertRow(r[1..]);
      RowSumInvert(r[1..]);
    }
  }

  /** Inverting turns the pixel total `S` of `N` pixels into `255 N - S`. */
  lemma {:induction false} SumInvert(m: Grid)
    ensures Count(Invert(m)) == Count(m)
    ensures Sum(Invert(m)) == 255 * Count(m) - Sum(m)
    decreases |m|
  {
    if |m| > 0 {
      assert Invert(m)[1..] == Invert(m[1..]);
      assert Invert(m)[0] == InvertRow(m[0]);
      RowSumInvert(m[0]);
      SumInvert(m[1..]);
    }
  }

  lemma QuotientAbove(x: real, n: real, c: real)
    requires n > 0.0 && x / n > c
    ensures x > c * n
  {
    assert x == (x / n) * n;
  }

  lemma QuotientBelow(x: real, n: real, c: real)
    requires n > 0.0 && x < c * n
    ensures x / n < c
  {
    assert x == (x / n) * n;
  }

  /** Polarity normalisation: invert when the mean exceeds 127, so that ink, assumed to be the
      minority class, ends up as the high value. `cv.mean` of an empty mask is 0. */
  function NormalizePolarity(m: Grid): (r: Grid)
    ensures SameShape(r, m)
    ensures r == m || r == Invert(m)
    ensures Count(r) == Count(m)
    ensures Count(m) > 0 ==> Mean(r) < 128.0
    ensures Count(m) > 0 ==> (r == Invert(m) <==> Mean(m) > 127.0)
    ensures Count(m) == 0 ==> r == m
    ensures Binary(m) ==> Binary(r)
    ensures Bytes(m) ==> Bytes(r)
  {
    SumInvert(m);
    if Count(m) == 0 then m
    else
      InvertDiffers(m);
      if Mean(m) > 127.0 then
        var n := Count(m) as real;
        QuotientAbove(Sum(m) as real, n, 127.0);
        QuotientBelow(255.0 * n - Sum(m) as real, n, 128.0);
        Invert(m)
      else m
  }

  /** A mask with at least one pixel has some non-empty row. */
  lemma {:induction false} SomeNonEmptyRow(m: Grid) returns (i: nat)
    requires Count(m) > 0
    ensures i < |m| && |m[i]| > 0
    decreases |m|
  {
    if |m[0]| > 0 {
      i := 0;
    } else {
      var k := SomeNonEmptyRow(m[1..]);
      i := k + 1;
    }
  }

  /** No pixel equals its own inverse (`255 - v == v` has no integer solution), so a mask with a
      pixel differs from its inverse. */
  lemma InvertDiffers(m: Grid)
    requires Count(m) > 0
    ensures Invert(m) != m
  {
    var i := SomeNonEmptyRow(m);
    assert Invert(m)[i][0] == 255 - m[i][0];
  }

  /** The bound `Mean < 128` cannot be tightened to `Mean <= 127`: a two-pixel mask that is half
      ink has mean 127.5 both before and after inversion, so the step is not idempotent. */
  lemma PolarityNotIdempotent()
    ensures var m := [[0, 255]];
      NormalizePolarity(m) == [[255, 0]] && NormalizePolarity(NormalizePolarity(m)) == m
  {
    var m := [[0, 255]];
    assert Count(m) == 2 && Sum(m) == 255;
    assert InvertRow([0, 255]) == [255, 0];
    assert Invert(m) == [[255, 0]];
    assert Count([[255, 0]]) == 2 && Sum([[255, 0]]) == 255;
    assert InvertRow([255, 0]) == [0, 255];
    assert Invert([[255, 0]]) == m;
  }

  /** `cv.subtract` on 8-bit masks of one size: pixelwise difference saturated at 0. */
  function SaturatingSubtract(a: Grid, b: Grid): (r: Grid)
    requires SameShape(a, b)
    ensures SameShape(r, a)
    ensures forall i, j :: 0 <= i < |r| && 0 <= j < |r[i]| ==> 0 <= r[i][j]
    ensures Bytes(a) && Bytes(b) ==> Bytes(r)
    ensures Bytes(a) && Bytes(b) ==> forall i, j :: 0 <= i < |r| && 0 <= j < |r[i]| ==> r[i][j] <= a[i][j]
    ensures forall i, j :: 0 <= i < |r| && 0 <= j < |r[i]| && b[i][j] <= a[i][j] ==> r[i][j] == a[i][j] - b[i][j]
    ensures Binary(a) && Binary(b) ==> Binary(r)
    ensures Binary(a) && Binary(b) ==>
      forall i, j :: 0 <= i < |r| && 0 <= j < |r[i]| ==> (r[i][j] == 255 <==> a[i][j] == 255 && b[i][j] == 0)
  {
    seq(|a|, i requires 0 <= i < |a| =>
      seq(|a[i]|, j requires 0 <= j < |a[i]| => MaxI(0, a[i][j] - b[i][j])))
  }

  /** The right-edge exclusion: a fresh zero mask with only columns `[0, xCut)` copied over. */
  function ExcludeRight(m: Grid, xCut: int): (r: Grid)
    ensures SameShape(r, m)
    ensures forall i, j :: 0 <= i < |r| && 0 <= j < |r[i]| && j < xCut ==> r[i][j] == m[i][j]
    ensures forall i, j :: 0 <= i < |r| && 0 <= j < |r[i]| && xCut <= j ==> r[i][j] == 0
    ensures Binary(m) ==> Binary(r)
  {
    seq(|m|, i requires 0 <= i < |m| =>
      seq(|m[i]|, j requires 0 <= j < |m[i]| => if j < xCut then m[i][j] else 0))
  }

  /** Blanking never adds ink: the total only drops. */
  lemma {:induction false} ExcludeRightSum(m: Grid, xCut: int)
    requires Bytes(m)
    ensures Sum(ExcludeRight(m, xCut)) <= Sum(m)
    decreases |m|
  {
    if |m| > 0 {
      var r := ExcludeRight(m, xCut);
      assert r[1..] == ExcludeRight(m[1..], xCut);
      RowSumLe(r[0], m[0]);
      ExcludeRightSum(m[1..], xCut);
    }
  }

  /** A pixelwise smaller row has a smaller sum. */
  lemma {:induction false} RowSumLe(a: seq<int>, b: seq<int>)
    requires |a| == |b|
    requires forall j :: 0 <= j < |a| ==> a[j] <= b[j]
    ensures RowSum(a) <= RowSum(b)
    decreases |a|
  {
    if |a| > 0 {
      RowSumLe(a[1..], b[1..]);
    }
  }
}
