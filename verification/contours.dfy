/** Contour features and the signature-likeness classification of the App.jsx pipeline.
    Contours are what `findContours` returns; the model receives each one's measured features. */
module Contours {
  import opened Common
  import opened Geometry

  type NonNeg = r: real | r >= 0.0

  /** One external contour as the pipeline measures it: `contourArea`, `boundingRect`, `arcLength`. */
  datatype Contour = Contour(area: NonNeg, box: Box, perimeter: NonNeg)

  /** Width over height, with the source's `1e-3` guard against zero height. */
  function Aspect(c: Contour): real
  {
    c.box.width as real / (c.box.height as real + 0.001)
  }

  /** Area over bounding-box area. */
  function Fill(c: Contour): real
  {
    c.area / ((c.box.width * c.box.height) as real + 0.001)
  }

  /** Area over squared perimeter: small for thin, stroke-like shapes. */
  function Thinness(c: Contour): (t: real)
    ensures t >= 0.0
  {
    var d := c.perimeter * c.perimeter + 0.001;
    assert d > 0.0;
    c.area / d
  }

  /** Stamps, boxes, check marks. */
  predicate SquareLike(c: Contour)
  {
    0.8 < Aspect(c) < 1.25 && Fill(c) > 0.35
  }

  /** Solid printed blocks and logos. */
  predicate DenseRect(c: Contour)
  {
    Fill(c) > 0.55 && 0.5 < Aspect(c) < 2.0
  }

  /** Wide or elongated, sparse, and neither square-like nor a dense block. */
  predicate Likely(c: Contour, W: int)
  {
    (Aspect(c) > 3.0 || c.box.width as real > 0.25 * W as real)
    && Fill(c) < 0.42
    && !SquareLike(c) && !DenseRect(c)
  }

  /** Speckle filter: area under `frac` of the `W x H` canvas. */
  predicate BelowArea(c: Contour, frac: real, W: int, H: int)
  {
    c.area < frac * (W * H) as real
  }

  /** `w * (1 - fill) / (thinFactor + 1e-4)`; computed but never read by the merge. */
  function Score(c: Contour): real
  {
    c.box.width as real * (1.0 - Fill(c)) * (1.0 / (Thinness(c) + 0.0001))
  }

  datatype Candidate = Candidate(rect: Box, score: real)

  predicate Accepted(c: Contour, frac: real, W: int, H: int)
  {
    !BelowArea(c, frac, W, H) && Likely(c, W)
  }

  /** The candidate list the first contour loop pushes, in contour order. */
  function Candidates(cs: seq<Contour>, frac: real, W: int, H: int): (r: seq<Candidate>)
    ensures |r| <= |cs|
    decreases |cs|
  {
    if |cs| == 0 then []
    else
      var last := cs[|cs| - 1];
      var prev := Candidates(cs[..|cs| - 1], frac, W, H);
      if Accepted(last, frac, W, H) then prev + [Candidate(last.box, Score(last))] else prev
  }

  /** One step of the loop: the candidates of `cs` are those of its prefix, plus the last
      contour's when it is accepted. */
  lemma CandidatesStep(cs: seq<Contour>, frac: real, W: int, H: int)
    requires |cs| > 0
    ensures var n := |cs| - 1;
      var prev := Candidates(cs[..n], frac, W, H);
      && (Accepted(cs[n], frac, W, H) ==> Candidates(cs, frac, W, H) == prev + [Candidate(cs[n].box, Score(cs[n]))])
      && (!Accepted(cs[n], frac, W, H) ==> Candidates(cs, frac, W, H) == prev)
  {
  }

  /** Every candidate comes from an accepted contour, with that contour's box and score. */
  lemma {:induction false} CandidatesSound(cs: seq<Contour>, frac: real, W: int, H: int, k: int)
    requires 0 <= k < |Candidates(cs, frac, W, H)|
    ensures exists i :: 0 <= i < |cs| && Accepted(cs[i], frac, W, H)
                     && Candidates(cs, frac, W, H)[k] == Candidate(cs[i].box, Score(cs[i]))
    decreases |cs|
  {
    var n := |cs| - 1;
    var prefix := cs[..n];
    var prev := Candidates(prefix, frac, W, H);
    CandidatesStep(cs, frac, W, H);
    if k < |prev| {
      CandidatesSound(prefix, frac, W, H, k);
      var i :| 0 <= i < |prefix| && Accepted(prefix[i], frac, W, H) && prev[k] == Candidate(prefix[i].box, Score(prefix[i]));
      assert prefix[i] == cs[i];
    } else {
      assert Accepted(cs[n], frac, W, H);
    }
  }

  /** Every accepted contour's box appears among the candidates. */
  lemma {:induction false} CandidatesComplete(cs: seq<Contour>, frac: real, W: int, H: int, i: int)
    requires 0 <= i < |cs| && Accepted(cs[i], frac, W, H)
    ensures exists k :: 0 <= k < |Candidates(cs, frac, W, H)| && Candidates(cs, frac, W, H)[k].rect == cs[i].box
    decreases |cs|
  {
    var n := |cs| - 1;
    var prefix := cs[..n];
    var prev := Candidates(prefix, frac, W, H);
    var r := Candidates(cs, frac, W, H);
    CandidatesStep(cs, frac, W, H);
    if i < n {
      assert prefix[i] == cs[i];
      CandidatesComplete(prefix, frac, W, H, i);
      var k :| 0 <= k < |prev| && prev[k].rect == prefix[i].box;
      assert r[k] == prev[k];
    } else {
      assert r[|r| - 1].rect == cs[i].box;
    }
  }

  /** The candidate list is empty exactly when no contour is accepted. */
  lemma CandidatesEmptyIff(cs: seq<Contour>, frac: real, W: int, H: int)
    ensures |Candidates(cs, frac, W, H)| == 0 <==> forall i :: 0 <= i < |cs| ==> !Accepted(cs[i], frac, W, H)
  {
    if i :| 0 <= i < |cs| && Accepted(cs[i], frac, W, H) {
      CandidatesComplete(cs, frac, W, H, i);
    }
    if |Candidates(cs, frac, W, H)| > 0 {
      CandidatesSound(cs, frac, W, H, 0);
    }
  }

  /** Raising the minimum area fraction never admits more candidates. */
  lemma {:induction false} CandidatesMonotone(cs: seq<Contour>, f1: real, f2: real, W: nat, H: nat)
    requires f1 <= f2
    ensures |Candidates(cs, f2, W, H)| <= |Candidates(cs, f1, W, H)|
    decreases |cs|
  {
    if |cs| > 0 {
      var last := cs[|cs| - 1];
      CandidatesMonotone(cs[..|cs| - 1], f1, f2, W, H);
      CandidatesStep(cs, f1, W, H);
      CandidatesStep(cs, f2, W, H);
      AcceptedAntitone(last, f1, f2, W, H);
    }
  }

  /** A contour that clears the higher area floor clears the lower one too. */
  lemma AcceptedAntitone(c: Contour, f1: real, f2: real, W: nat, H: nat)
    requires f1 <= f2
    ensures Accepted(c, f2, W, H) ==> Accepted(c, f1, W, H)
  {
    var n := W * H;
    assert n >= 0;
    ScaleMonotone(f1, f2, n as real);
  }

  /** Scaling a non-negative quantity preserves the order of the factors. */
  lemma ScaleMonotone(f1: real, f2: real, a: real)
    requires f1 <= f2 && a >= 0.0
    ensures f1 * a <= f2 * a
  {
    assert f2 * a - f1 * a == (f2 - f1) * a;
  }

  /** The rejection example: a filled 100 x 100 box (fill about 0.9) is square-like and a dense
      block, and is never a candidate wherever it sits and whatever the canvas. */
  lemma FilledSquareRejected(x: int, y: int, p: NonNeg, W: int, H: int)
    ensures var c := Contour(9000.0, Box(x, y, 100, 100), p);
      SquareLike(c) && DenseRect(c) && !Accepted(c, 0.0008, W, H)
  {
  }
}
