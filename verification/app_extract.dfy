/** The signature extraction of `src/App.jsx`: region of interest from a keyword anchor or a
    bottom band, mask stages, shape-filtered candidates, union merge, and the `w - 2h` fallback. */
module AppExtract {
  import opened Common
  import opened Geometry
  import opened Keywords
  import opened Masks
  import opened Contours

  const BottomFallbackFrac: real := 0.35
  const ExcludeRightFrac: real := 0.20
  const MinAreaFraction: real := 0.0008
  const HLineFrac: real := 0.25

  /* ---------- Region of interest ---------- */

  /** `bottomRect`: the band from `H (1 - frac)` down to 98 % of the page height. */
  function BottomRect(W: real, H: real, frac: real): (r: Rect)
    ensures r.x0 == 0.0 && r.x1 == W && r.y1 == 0.98 * H
    ensures r.y0 >= 0.0 && r.y0 >= H * (1.0 - frac)
    ensures r.y0 == 0.0 || r.y0 == H * (1.0 - frac)
    ensures 0.0 <= W && 0.0 <= H && 0.02 <= frac ==> Within(r, W, H) && Ordered(r)
  {
    var top := H * (1.0 - frac);
    Rect(0.0, if top >= 0.0 then top else 0.0, W, H * 0.98)
  }

  /** The fallback band of a 800 x 1000 page. */
  lemma BottomRectExample()
    ensures BottomRect(800.0, 1000.0, BottomFallbackFrac) == Rect(0.0, 650.0, 800.0, 980.0)
  {
  }

  /** A text item as the anchor search sees it: its string (absent when `it.str` is missing) and
      the `y` entry of its transform composed with the viewport's, absent when not finite. */
  datatype AppTextItem = AppTextItem(str: Option<string>, y: Option<real>)

  /** `it?.str || ""`. */
  function ItemText(it: AppTextItem): string
  {
    match it.str
    case None => ""
    case Some(s) => s
  }

  predicate AppMatches(it: AppTextItem)
  {
    KeywordTest(ItemText(it))
  }

  /** The anchor loop: `bestY` starts at minus infinity (`None`) and is replaced by every matching
      finite `y` strictly above it. */
  function AnchorY(items: seq<AppTextItem>): (best: Option<real>)
    decreases |items|
  {
    if |items| == 0 then None
    else
      var prev := AnchorY(items[..|items| - 1]);
      var it := items[|items| - 1];
      if AppMatches(it) && it.y.Some? && (prev.None? || it.y.value > prev.value) then it.y else prev
  }

  /** One step of the anchor loop. */
  lemma AnchorYStep(items: seq<AppTextItem>)
    requires |items| > 0
    ensures var prev := AnchorY(items[..|items| - 1]);
      var it := items[|items| - 1];
      AnchorY(items) == if AppMatches(it) && it.y.Some? && (prev.None? || it.y.value > prev.value) then it.y else prev
  {
  }

  /** No anchor exactly when no matching item has a finite `y`. */
  lemma {:induction false} AnchorYNoneIff(items: seq<AppTextItem>)
    ensures AnchorY(items).None? <==> forall i :: 0 <= i < |items| && AppMatches(items[i]) ==> items[i].y.None?
    decreases |items|
  {
    if |items| > 0 {
      var n := |items| - 1;
      var prefix := items[..n];
      AnchorYStep(items);
      AnchorYNoneIff(prefix);
      assert forall i :: 0 <= i < n ==> prefix[i] == items[i];
    }
  }

  /** The anchor is the `y` of a matching item, and no matching item lies lower on the page. */
  lemma AnchorYIsMax(items: seq<AppTextItem>)
    requires AnchorY(items).Some?
    ensures exists i :: 0 <= i < |items| && AppMatches(items[i]) && items[i].y == AnchorY(items)
    ensures forall i :: 0 <= i < |items| && AppMatches(items[i]) && items[i].y.Some? ==>
      items[i].y.value <= AnchorY(items).value
  {
    AnchorYAttained(items);
    AnchorYUpper(items);
  }

  /** The anchor is the `y` of some matching item. */
  lemma {:induction false} AnchorYAttained(items: seq<AppTextItem>)
    requires AnchorY(items).Some?
    ensures exists i :: 0 <= i < |items| && AppMatches(items[i]) && items[i].y == AnchorY(items)
    decreases |items|
  {
    var n := |items| - 1;
    var prefix := items[..n];
    var prev := AnchorY(prefix);
    AnchorYStep(items);
    if AnchorY(items) == prev {
      AnchorYAttained(prefix);
      var i :| 0 <= i < n && AppMatches(prefix[i]) && prefix[i].y == prev;
      assert items[i] == prefix[i];
    } else {
      assert AppMatches(items[n]) && items[n].y == AnchorY(items);
    }
  }

  /** No matching item with a finite `y` lies below the anchor. */
  lemma {:induction false} AnchorYUpper(items: seq<AppTextItem>)
    requires AnchorY(items).Some?
    ensures forall i :: 0 <= i < |items| && AppMatches(items[i]) && items[i].y.Some? ==>
      items[i].y.value <= AnchorY(items).value
    decreases |items|
  {
    var n := |items| - 1;
    var prefix := items[..n];
    var prev := AnchorY(prefix);
    var best := AnchorY(items).value;
    AnchorYStep(items);
    assert prev.Some? ==> prev.value <= best;
    if prev.Some? {
      AnchorYUpper(prefix);
    } else {
      AnchorYNoneIff(prefix);
    }
    forall i | 0 <= i < |items| && AppMatches(items[i]) && items[i].y.Some?
      ensures items[i].y.value <= best
    {
      if i < n {
        assert prefix[i] == items[i];
      }
    }
  }


  /** A full-width band on the page reaching no further than 5 % of the page height above `y`
      and 35 % below it. */
  predicate InAnchorBand(R: Rect, y: real, W: real, H: real)
  {
    R.x0 == 0.0 && R.x1 == W && 0.0 <= R.y0 && R.y1 <= H && y - 0.05 * H <= R.y0 && R.y1 <= y + 0.35 * H
  }

  /** `findAnchorRect` once `bestY` is known: from 5 % of the page height above the anchor to
      35 % below it, cut at the page edges; the largest band that stays within both limits. */
  function AnchorRect(y: real, W: real, H: real): (r: Rect)
    ensures InAnchorBand(r, y, W, H)
    ensures forall R :: InAnchorBand(R, y, W, H) ==> Contains(r, R)
    ensures 0.0 <= H && 0.0 <= y <= H ==> r.y0 <= y <= r.y1
    ensures 0.0 <= W && 0.0 <= H && 0.0 <= y <= H ==> Within(r, W, H) && Ordered(r)
    ensures 0.0 <= W && 0.0 <= H ==> (Ordered(r) <==> -0.35 * H <= y <= 1.05 * H)
  {
    Rect(0.0, MaxR(0.0, y - 0.05 * H), W, MinR(H, y + 0.35 * H))
  }

  /** An item that can anchor: it matches a keyword and has a finite `y`. */
  predicate Anchors(it: AppTextItem)
  {
    AppMatches(it) && it.y.Some?
  }

  /** The region of interest: the anchor band when an anchor exists, else the bottom band.
      `None` content stands for a failed `getTextContent`, which the source swallows. */
  function AppRoi(content: Option<seq<AppTextItem>>, W: real, H: real): (r: Rect)
    ensures 0.0 <= W && 0.0 <= H ==> Within(r, W, H)
    ensures r.x0 == 0.0 && r.x1 == W
    ensures content.None? ==> r == BottomRect(W, H, BottomFallbackFrac)
    ensures content.Some? && (forall i :: 0 <= i < |content.value| ==> !Anchors(content.value[i])) ==>
      r == BottomRect(W, H, BottomFallbackFrac)
    ensures content.Some? && (exists i :: 0 <= i < |content.value| && Anchors(content.value[i])) ==>
      exists i :: (0 <= i < |content.value| && Anchors(content.value[i])
        && (forall j :: 0 <= j < |content.value| && Anchors(content.value[j]) ==>
              content.value[j].y.value <= content.value[i].y.value)
        && r == AnchorRect(content.value[i].y.value, W, H))
  {
    match content
    case None => BottomRect(W, H, BottomFallbackFrac)
    case Some(items) =>
      AnchorYNoneIff(items);
      match AnchorY(items)
      case Some(y) =>
        AnchorYIsMax(items);
        AnchorRect(y, W, H)
      case None => BottomRect(W, H, BottomFallbackFrac)
  }

  /** Anchor priority: keyword matches at y = 800 and y = 950 on a page of height 1000 select
      950, and the band below it is clamped at the page bottom. */
  lemma AnchorPriorityExample(W: real)
    ensures AppRoi(Some([AppTextItem(Some("Firma"), Some(800.0)),
                         AppTextItem(Some("firmado por"), Some(950.0))]), W, 1000.0)
         == Rect(0.0, 900.0, W, 1000.0)
  {
    assert Fold("Firma") == "firma";
    assert Occurs(Alternatives[0], Fold("Firma"));
    assert Fold("firmado por") == "firmado por";
    assert Occurs(Alternatives[5], Fold("firmado por"));
    var items := [AppTextItem(Some("Firma"), Some(800.0)), AppTextItem(Some("firmado por"), Some(950.0))];
    assert items[..1][..0] == [];
    assert AnchorY(items[..1]) == Some(800.0);
  }

  /** No text content at all: the bottom band. */
  lemma NoTextFallbackExample()
    ensures AppRoi(Some([]), 800.0, 1000.0) == Rect(0.0, 650.0, 800.0, 980.0)
  {
  }

  /** An anchor far below the page (here 2000 on a page of height 1000) gives a band whose top,
      1950, lies under its bottom, 1000: the crop is one pixel high, taken off the canvas. */
  lemma OffPageAnchorExample()
    ensures var r := AppRoi(Some([AppTextItem(Some("firma"), Some(2000.0))]), 800.0, 1000.0);
      && r == Rect(0.0, 1950.0, 800.0, 1000.0)
      && !Ordered(r)
      && AppCropSize(r).h == 1
  {
    assert Fold("firma") == "firma";
    assert Occurs(Alternatives[0], Fold("firma"));
  }

  /** The region with an empty anchor band replaced by the bottom band: on a page of non-negative
      size it is always on the page and top-to-bottom ordered, it is the source's region whenever
      that one is ordered, and the bottom band otherwise. */
  function GuardedRoi(content: Option<seq<AppTextItem>>, W: real, H: real): (r: Rect)
    ensures 0.0 <= W && 0.0 <= H ==> Within(r, W, H) && Ordered(r)
    ensures Ordered(AppRoi(content, W, H)) ==> r == AppRoi(content, W, H)
    ensures !Ordered(AppRoi(content, W, H)) ==> r == BottomRect(W, H, BottomFallbackFrac)
  {
    var band := AppRoi(content, W, H);
    if Ordered(band) then band else BottomRect(W, H, BottomFallbackFrac)
  }

  /** With the guard, an anchor inside the vertical reach of the page keeps its band, and one
      outside it falls back to the bottom band. */
  lemma GuardedAnchor(items: seq<AppTextItem>, W: real, H: real)
    requires 0.0 <= W && 0.0 <= H
    requires AnchorY(items).Some?
    ensures var y := AnchorY(items).value;
      && (-0.35 * H <= y <= 1.05 * H ==> GuardedRoi(Some(items), W, H) == AnchorRect(y, W, H))
      && (!(-0.35 * H <= y <= 1.05 * H) ==> GuardedRoi(Some(items), W, H) == BottomRect(W, H, BottomFallbackFrac))
  {
  }

  /* ---------- Page choice and crop sizing ---------- */

  /** The 1-based page `renderPageToCanvas` asks for: the requested 0-based page clamped to the
      last page, and the last page for a negative request. */
  function AppPageNumber(pageNumber: int, numPages: int): (page: int)
    ensures numPages >= 1 ==> 1 <= page <= numPages
    ensures 0 <= pageNumber < numPages ==> page == pageNumber + 1
    ensures pageNumber < 0 || pageNumber >= numPages ==> page == numPages
  {
    (if pageNumber >= 0 then MinI(pageNumber, numPages - 1) else numPages - 1) + 1
  }

  /** `cropCanvas`: the destination canvas is the rounded extent of the rectangle, at least 1. */
  function AppCropSize(r: Rect): (s: Size)
    ensures s.w >= 1 && s.h >= 1
    ensures r.x1 - r.x0 >= 0.5 ==> s.w as real - 0.5 <= r.x1 - r.x0 < s.w as real + 0.5
    ensures r.y1 - r.y0 >= 0.5 ==> s.h as real - 0.5 <= r.y1 - r.y0 < s.h as real + 0.5
    ensures r.x1 - r.x0 < 0.5 ==> s.w == 1
    ensures r.y1 - r.y0 < 0.5 ==> s.h == 1
  {
    Size(MaxI(1, Round(r.x1 - r.x0)), MaxI(1, Round(r.y1 - r.y0)))
  }

  /** A rectangle inside a canvas of integer size crops to at most that size. */
  lemma AppCropSizeBounded(r: Rect, W: int, H: int)
    requires W >= 1 && H >= 1 && Within(r, W as real, H as real)
    ensures AppCropSize(r).w <= W && AppCropSize(r).h <= H
  {
    RoundAtMost(r.x1 - r.x0, W);
    RoundAtMost(r.y1 - r.y0, H);
  }

  /* ---------- Mask stages ---------- */

  /** Width of the horizontal structuring element used to find printed rule lines. */
  function LineKernelWidth(W: int): (k: int)
    ensures k >= 25 && k >= Round(W as real * HLineFrac)
    ensures k == 25 || k == Round(W as real * HLineFrac)
  {
    MaxI(25, Round(W as real * HLineFrac))
  }

  /** `xCut = round(W (1 - EXCLUDE_RIGHT_FRAC))`, the first blanked column. */
  function ExclusionCut(W: nat): (x: int)
    ensures 0 <= x <= W
    ensures x as real - 0.5 <= 0.8 * W as real < x as real + 0.5
    ensures W >= 1 ==> x >= 1
  {
    Round(W as real * (1.0 - ExcludeRightFrac))
  }

  /** The mask handed to `findContours`: polarity-normalised threshold output, minus the line
      opening (an input, computed by OpenCV from that mask), with the right fifth blanked. */
  function AppMask(bw: Grid, lines: Grid, W: nat, H: nat): (r: Grid)
    requires IsGrid(bw, H, W) && IsGrid(lines, H, W)
    ensures IsGrid(r, H, W)
    ensures forall i, j :: 0 <= i < H && ExclusionCut(W) <= j < W ==> r[i][j] == 0
    ensures Binary(bw) && Binary(lines) ==> Binary(r)
    ensures Bytes(bw) && Bytes(lines) ==>
      forall i, j :: 0 <= i < H && 0 <= j < W ==> 0 <= r[i][j] <= NormalizePolarity(bw)[i][j]
    ensures Binary(bw) && Binary(lines) ==>
      forall i, j :: 0 <= i < H && 0 <= j < ExclusionCut(W) ==>
        (r[i][j] == 255 <==> NormalizePolarity(bw)[i][j] == 255 && lines[i][j] == 0)
  {
    var norm := NormalizePolarity(bw);
    ExcludeRight(SaturatingSubtract(norm, lines), ExclusionCut(W))
  }

  /* ---------- Candidate merge and fallback ---------- */

  /** What `isolateSignatureCanvas` returns: the region of interest itself, or a crop of it. */
  datatype Isolation = Unchanged | Cropped(rect: Rect)

  function MergePad(W: nat, H: nat): (p: int)
    ensures p >= 0
  {
    Round(0.06 * MaxI(W, H) as real)
  }

  function FallbackPad(W: nat, H: nat): (p: int)
    ensures p >= 0
  {
    Round(0.05 * MaxI(W, H) as real)
  }

  function CandidateRects(cands: seq<Candidate>): seq<Rect>
  {
    seq(|cands|, k requires 0 <= k < |cands| => BoxRect(cands[k].rect))
  }

  /** Union of all candidate boxes, padded by 6 % of the larger side and clamped to the canvas:
      it covers every candidate box that lies on the canvas, reaches at most `pad` beyond their
      hull, and is the largest rectangle on the canvas that does so. */
  function MergeCandidates(cands: seq<Candidate>, W: nat, H: nat): (r: Rect)
    requires |cands| > 0
    ensures Within(r, W as real, H as real)
    ensures Contains(Grow(HullAll(CandidateRects(cands)), MergePad(W, H) as real), r)
    ensures forall R :: (Within(R, W as real, H as real)
      && Contains(Grow(HullAll(CandidateRects(cands)), MergePad(W, H) as real), R)) ==> Contains(r, R)
    ensures forall k :: 0 <= k < |cands| && Within(BoxRect(cands[k].rect), W as real, H as real) ==>
      Contains(r, BoxRect(cands[k].rect))
  {
    var rs := CandidateRects(cands);
    var hull := HullAll(rs);
    var pad := MergePad(W, H);
    assert forall k :: 0 <= k < |cands| ==> rs[k] == BoxRect(cands[k].rect) && Contains(hull, rs[k]);
    PadClamp(hull, pad, W as real, H as real)
  }

  /** The score is computed but never read: candidates with the same boxes merge identically. */
  lemma MergeIgnoresScore(c1: seq<Candidate>, c2: seq<Candidate>, W: nat, H: nat)
    requires |c1| == |c2| > 0
    requires forall k :: 0 <= k < |c1| ==> c1[k].rect == c2[k].rect
    ensures MergeCandidates(c1, W, H) == MergeCandidates(c2, W, H)
  {
    assert CandidateRects(c1) == CandidateRects(c2);
  }

  /** The fallback ranking `r.width - 2 * r.height`. */
  function FallbackScore(c: Contour): int
  {
    c.box.width - 2 * c.box.height
  }

  /** The fallback loop: `best` starts empty with `bestScore = -1`, and is replaced by every
      contour scoring strictly above the current best. */
  function FallbackPick(cs: seq<Contour>): (best: Option<nat>)
    ensures best.Some? ==> best.value < |cs|
    decreases |cs|
  {
    if |cs| == 0 then None
    else
      var prev := FallbackPick(cs[..|cs| - 1]);
      var bestScore := if prev.None? then -1 else FallbackScore(cs[prev.value]);
      if FallbackScore(cs[|cs| - 1]) > bestScore then Some(|cs| - 1) else prev
  }

  /** The pick is the first contour of maximal `w - 2h`, provided that maximum exceeds -1;
      when every contour scores -1 or less nothing is picked. */
  lemma {:induction false} FallbackPickSpec(cs: seq<Contour>)
    ensures FallbackPick(cs).None? <==> forall j :: 0 <= j < |cs| ==> FallbackScore(cs[j]) <= -1
    ensures FallbackPick(cs).Some? ==> FallbackScore(cs[FallbackPick(cs).value]) > -1
    ensures FallbackPick(cs).Some? ==>
      forall j :: 0 <= j < |cs| ==> FallbackScore(cs[j]) <= FallbackScore(cs[FallbackPick(cs).value])
    ensures FallbackPick(cs).Some? ==>
      forall j :: 0 <= j < FallbackPick(cs).value ==> FallbackScore(cs[j]) < FallbackScore(cs[FallbackPick(cs).value])
    decreases |cs|
  {
    if |cs| > 0 {
      var n := |cs| - 1;
      var prefix := cs[..n];
      FallbackPickSpec(prefix);
      assert forall j :: 0 <= j < n ==> prefix[j] == cs[j];
    }
  }

  /** `isolateSignatureCanvas` on the contours of the final mask of a `W x H` region. */
  function AppIsolate(cs: seq<Contour>, W: nat, H: nat): (r: Isolation)
    ensures r.Cropped? ==> Within(r.rect, W as real, H as real)
  {
    var cands := Candidates(cs, MinAreaFraction, W, H);
    if |cands| > 0 then Cropped(MergeCandidates(cands, W, H))
    else
      match FallbackPick(cs)
      case None => Unchanged
      case Some(i) => Cropped(PadClamp(BoxRect(cs[i].box), FallbackPad(W, H), W as real, H as real))
  }

  /** The region comes back unchanged exactly when no contour is accepted and every contour's
      `w - 2h` is negative. */
  lemma AppUnchangedIff(cs: seq<Contour>, W: nat, H: nat)
    ensures AppIsolate(cs, W, H).Unchanged? <==>
      (forall i :: 0 <= i < |cs| ==> !Accepted(cs[i], MinAreaFraction, W, H))
      && (forall i :: 0 <= i < |cs| ==> FallbackScore(cs[i]) < 0)
  {
    CandidatesEmptyIff(cs, MinAreaFraction, W, H);
    FallbackPickSpec(cs);
  }

  /** With an accepted contour on the canvas, the crop covers its box. */
  lemma AppCropCoversAccepted(cs: seq<Contour>, W: nat, H: nat, i: int)
    requires 0 <= i < |cs| && Accepted(cs[i], MinAreaFraction, W, H)
    requires Within(BoxRect(cs[i].box), W as real, H as real)
    ensures AppIsolate(cs, W, H).Cropped?
    ensures Contains(AppIsolate(cs, W, H).rect, BoxRect(cs[i].box))
  {
    CandidatesComplete(cs, MinAreaFraction, W, H, i);
  }

  /** `R` covers the box of every contour accepted in a `W x H` region. */
  predicate CoversAccepted(R: Rect, cs: seq<Contour>, W: nat, H: nat)
  {
    forall j :: 0 <= j < |cs| && Accepted(cs[j], MinAreaFraction, W, H) ==> Contains(R, BoxRect(cs[j].box))
  }

  /** `hb` is the least cover of the accepted boxes: their bounding box. */
  ghost predicate LeastCover(hb: Rect, cs: seq<Contour>, W: nat, H: nat)
  {
    CoversAccepted(hb, cs, W, H) && forall R :: CoversAccepted(R, cs, W, H) ==> Contains(R, hb)
  }

  /** With an accepted contour, the crop is the bounding box of all accepted boxes grown by 6 % of
      the larger side: it lies within the grown box and is the largest rectangle on the canvas
      that does. */
  lemma AppMergeCrop(cs: seq<Contour>, W: nat, H: nat, i: int)
    requires 0 <= i < |cs| && Accepted(cs[i], MinAreaFraction, W, H)
    ensures AppIsolate(cs, W, H).Cropped?
    ensures exists hb :: (LeastCover(hb, cs, W, H)
      && Contains(Grow(hb, MergePad(W, H) as real), AppIsolate(cs, W, H).rect)
      && forall R :: (Within(R, W as real, H as real) && Contains(Grow(hb, MergePad(W, H) as real), R)) ==>
           Contains(AppIsolate(cs, W, H).rect, R))
  {
    var cands := Candidates(cs, MinAreaFraction, W, H);
    CandidatesComplete(cs, MinAreaFraction, W, H, i);
    var rs := CandidateRects(cands);
    var hb := HullAll(rs);
    forall j | 0 <= j < |cs| && Accepted(cs[j], MinAreaFraction, W, H)
      ensures Contains(hb, BoxRect(cs[j].box))
    {
      CandidatesComplete(cs, MinAreaFraction, W, H, j);
      var k :| 0 <= k < |cands| && cands[k].rect == cs[j].box;
      assert rs[k] == BoxRect(cs[j].box);
    }
    forall R | CoversAccepted(R, cs, W, H)
      ensures Contains(R, hb)
    {
      forall k | 0 <= k < |rs|
        ensures Contains(R, rs[k])
      {
        CandidatesSound(cs, MinAreaFraction, W, H, k);
        var j :| 0 <= j < |cs| && Accepted(cs[j], MinAreaFraction, W, H)
                 && cands[k] == Candidate(cs[j].box, Score(cs[j]));
        assert rs[k] == BoxRect(cs[j].box);
      }
      assert ContainsAll(R, rs);
    }
    assert LeastCover(hb, cs, W, H);
  }

  /** Without accepted contours, the crop is the picked contour's box padded by 5 % of the larger
      side and clamped, and it covers that box when the box lies on the canvas. */
  lemma AppFallbackCrop(cs: seq<Contour>, W: nat, H: nat)
    requires forall i :: 0 <= i < |cs| ==> !Accepted(cs[i], MinAreaFraction, W, H)
    requires FallbackPick(cs).Some?
    ensures var b := BoxRect(cs[FallbackPick(cs).value].box);
      && AppIsolate(cs, W, H) == Cropped(PadClamp(b, FallbackPad(W, H), W as real, H as real))
      && (Within(b, W as real, H as real) ==> Contains(AppIsolate(cs, W, H).rect, b))
  {
    CandidatesEmptyIff(cs, MinAreaFraction, W, H);
  }

  /** A lone tall contour (40 x 200, so `w - 2h = -360`) is rejected by the shape filter and never
      beats the initial `bestScore = -1`: the region comes back unchanged. */
  lemma TallContourKeepsRegion()
    ensures AppIsolate([Contour(2000.0, Box(100, 50, 40, 200), 480.0)], 800, 300) == Unchanged
  {
    var cs := [Contour(2000.0, Box(100, 50, 40, 200), 480.0)];
    assert !Accepted(cs[0], MinAreaFraction, 800, 300);
    AppUnchangedIff(cs, 800, 300);
  }

  /** The output canvas: the region itself, or the crop's rounded size. */
  function AppOutputSize(r: Isolation, W: nat, H: nat): Size
  {
    match r
    case Unchanged => Size(W, H)
    case Cropped(rect) => AppCropSize(rect)
  }

  /** The signature crop is never empty and never larger than the region it is cut from. */
  lemma AppOutputBounded(cs: seq<Contour>, W: nat, H: nat)
    requires W >= 1 && H >= 1
    ensures var s := AppOutputSize(AppIsolate(cs, W, H), W, H);
      1 <= s.w <= W && 1 <= s.h <= H
  {
    var r := AppIsolate(cs, W, H);
    if r.Cropped? {
      AppCropSizeBounded(r.rect, W, H);
    }
  }
}
