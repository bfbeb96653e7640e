/** Rectangle algebra: the `{x0, y0, x1, y1}` objects of the pipelines and OpenCV's bounding boxes. */
module Geometry {
  import opened Common

  /** A rectangle in canvas pixels, y growing downwards; coordinates may be fractional. */
  datatype Rect = Rect(x0: real, y0: real, x1: real, y1: real)

  /** OpenCV's `cv.Rect` as `boundingRect` returns it: top-left corner plus extent. */
  datatype Box = Box(x: int, y: int, width: nat, height: nat)

  /** The pixel dimensions of a canvas. */
  datatype Size = Size(w: int, h: int)

  function BoxRect(b: Box): Rect
  {
    Rect(b.x as real, b.y as real, (b.x + b.width) as real, (b.y + b.height) as real)
  }

  predicate Contains(outer: Rect, inner: Rect)
  {
    outer.x0 <= inner.x0 && outer.y0 <= inner.y0 && inner.x1 <= outer.x1 && inner.y1 <= outer.y1
  }

  predicate ContainsAll(outer: Rect, rs: seq<Rect>)
  {
    forall i :: 0 <= i < |rs| ==> Contains(outer, rs[i])
  }

  /** Inside the canvas `[0, W] x [0, H]`. */
  predicate Within(r: Rect, W: real, H: real)
  {
    0.0 <= r.x0 && r.x1 <= W && 0.0 <= r.y0 && r.y1 <= H
  }

  /** Near edges do not pass far edges. */
  predicate Ordered(r: Rect)
  {
    r.x0 <= r.x1 && r.y0 <= r.y1
  }

  /** Every side pushed outwards by `pad`. */
  function Grow(r: Rect, pad: real): Rect
  {
    Rect(r.x0 - pad, r.y0 - pad, r.x1 + pad, r.y1 + pad)
  }

  /** Bounding union of two rectangles: `Math.min` of the near edges, `Math.max` of the far ones. */
  function Hull(a: Rect, b: Rect): (r: Rect)
    ensures Contains(r, a) && Contains(r, b)
    ensures forall R :: Contains(R, a) && Contains(R, b) ==> Contains(R, r)
  {
    Rect(MinR(a.x0, b.x0), MinR(a.y0, b.y0), MaxR(a.x1, b.x1), MaxR(a.y1, b.y1))
  }

  /** The least rectangle containing every rectangle of a non-empty list, accumulated left to right. */
  function HullAll(rs: seq<Rect>): (r: Rect)
    requires |rs| > 0
    ensures ContainsAll(r, rs)
    ensures forall R :: ContainsAll(R, rs) ==> Contains(R, r)
    decreases |rs|
  {
    if |rs| == 1 then rs[0]
    else
      var prefix := rs[..|rs| - 1];
      var h := HullAll(prefix);
      assert forall R :: ContainsAll(R, rs) ==> ContainsAll(R, prefix);
      Hull(h, rs[|rs| - 1])
  }

  /** Pad every side by `pad`, then clamp to the canvas, as both pipelines do before cropping:
      the result is the largest rectangle inside both the canvas and the padded rectangle. */
  function PadClamp(r: Rect, pad: int, W: real, H: real): (c: Rect)
    ensures Within(c, W, H)
    ensures Contains(Grow(r, pad as real), c)
    ensures forall R :: Within(R, W, H) && Contains(Grow(r, pad as real), R) ==> Contains(c, R)
    ensures Within(r, W, H) && Ordered(r) && pad >= 0 ==> Contains(c, r) && Ordered(c)
  {
    Rect(MaxR(0.0, r.x0 - pad as real), MaxR(0.0, r.y0 - pad as real),
         MinR(W, r.x1 + pad as real), MinR(H, r.y1 + pad as real))
  }

  /** The example of merging two stroke boxes: the hull of {10,10,50,30} and {60,15,120,40}. */
  lemma HullExample()
    ensures HullAll([Rect(10.0, 10.0, 50.0, 30.0), Rect(60.0, 15.0, 120.0, 40.0)])
         == Rect(10.0, 10.0, 120.0, 40.0)
  {
    var rs := [Rect(10.0, 10.0, 50.0, 30.0), Rect(60.0, 15.0, 120.0, 40.0)];
    assert rs[..1] == [Rect(10.0, 10.0, 50.0, 30.0)];
  }
}
