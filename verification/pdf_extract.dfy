/** The independent signature extraction of `src/components/PdfAnalyzer.jsx`: its own anchor
    formula, a fixed line kernel, no right-edge exclusion, and an unfiltered union of every
    contour above 0.2 % of the area, padded by 4 %. */
module PdfExtract {
  import opened Common
  import opened Geometry
  import opened Keywords
  import opened Masks
  import opened Contours
  import AppExtract

  const MinAreaFraction: real := 0.002
  const LineKernelWidth: int := 25

  /** A pdf.js affine transform `[a, b, c, d, e, f]`. */
  datatype Affine = Affine(a: real, b: real, c: real, d: real, e: real, f: real)

  /** A text item: its `str` (absent when missing) and its own transform. */
  datatype PdfTextItem = PdfTextItem(str: Option<string>, transform: Affine)

  /** `!it.str || !keywords.test(it.str)` skips the item: a missing or empty string, or no keyword. */
  predicate PdfMatches(it: PdfTextItem)
  {
    it.str.Some? && it.str.value != "" && KeywordTest(it.str.value)
  }

  /** The value the source stores as the keyword box's `y1`: `c * m[1] + d * m[3] + f * m[5]` with
      `m` the viewport transform. This is not pdf.js's composition (`ViewportY` below); for an
      upright page it grows with the item's PDF `y`, so the greatest value is the topmost item. */
  function RectY1(it: PdfTextItem, m: Affine): real
  {
    it.transform.c * m.b + it.transform.d * m.d + it.transform.f * m.f
  }

  /** The anchor loop: `best` starts empty and is replaced when a match's `RectY1` is strictly
      greater; the index of the winning item is returned. */
  function AnchorIndex(items: seq<PdfTextItem>, m: Affine): (best: Option<nat>)
    ensures best.Some? ==> best.value < |items|
    decreases |items|
  {
    if |items| == 0 then None
    else
      var n := |items| - 1;
      var prev := AnchorIndex(items[..n], m);
      if PdfMatches(items[n]) && (prev.None? || RectY1(items[n], m) > RectY1(items[prev.value], m))
      then Some(n) else prev
  }

  /** No anchor exactly when no item matches; otherwise the anchor is a matching item whose
      `RectY1` is greatest, and the first such on ties. */
  lemma {:induction false} AnchorIndexSpec(items: seq<PdfTextItem>, m: Affine)
    ensures AnchorIndex(items, m).None? <==> forall i :: 0 <= i < |items| ==> !PdfMatches(items[i])
    ensures AnchorIndex(items, m).Some? ==> PdfMatches(items[AnchorIndex(items, m).value])
    ensures AnchorIndex(items, m).Some? ==> forall i :: 0 <= i < |items| && PdfMatches(items[i]) ==>
      RectY1(items[i], m) <= RectY1(items[AnchorIndex(items, m).value], m)
    ensures AnchorIndex(items, m).Some? ==> forall i :: 0 <= i < AnchorIndex(items, m).value && PdfMatches(items[i]) ==>
      RectY1(items[i], m) < RectY1(items[AnchorIndex(items, m).value], m)
    decreases |items|
  {
    if |items| > 0 {
      var n := |items| - 1;
      var prefix := items[..n];
      AnchorIndexSpec(prefix, m);
      assert forall i :: 0 <= i < n ==> prefix[i] == items[i];
    }
  }

  /** A missing or empty string never anchors. */
  lemma EmptyStringSkipped(it: PdfTextItem)
    requires it.str == None || it.str == Some("")
    ensures !PdfMatches(it)
  {
  }

  /** `findAnchorRect`: the band from 5 % of the page height above the anchor's `RectY1` to 35 %
      below it, cut at the page edges; absent when no item matches. The anchor is a match with the
      greatest `RectY1`, and the band is the one App.jsx builds around its anchor. */
  function PdfAnchorRect(items: seq<PdfTextItem>, m: Affine, W: real, H: real): (r: Option<Rect>)
    ensures r.None? <==> forall i :: 0 <= i < |items| ==> !PdfMatches(items[i])
    ensures r.Some? ==> exists i :: (0 <= i < |items| && PdfMatches(items[i])
      && (forall j :: 0 <= j < |items| && PdfMatches(items[j]) ==> RectY1(items[j], m) <= RectY1(items[i], m))
      && r.value == AppExtract.AnchorRect(RectY1(items[i], m), W, H))
  {
    AnchorIndexSpec(items, m);
    match AnchorIndex(items, m)
    case None => None
    case Some(i) =>
      var y1 := RectY1(items[i], m);
      Some(Rect(0.0, MaxR(0.0, y1 - 0.05 * H), W, MinR(H, y1 + 0.35 * H)))
  }

  /** `bottomRect`, a copy of App.jsx's. */
  function PdfBottomRect(W: real, H: real, frac: real): (r: Rect)
    ensures r.x0 == 0.0 && r.x1 == W && r.y1 == 0.98 * H
    ensures r.y0 >= 0.0 && r.y0 >= H * (1.0 - frac)
    ensures r.y0 == 0.0 || r.y0 == H * (1.0 - frac)
  {
    var top := H * (1.0 - frac);
    Rect(0.0, if top >= 0.0 then top else 0.0, W, H * 0.98)
  }

  /** The two copies of `bottomRect` agree on every input. */
  lemma BottomRectsAgree(W: real, H: real, frac: real)
    ensures PdfBottomRect(W, H, frac) == AppExtract.BottomRect(W, H, frac)
  {
  }

  /** The region of interest: the band around a match with the greatest `RectY1`, else the bottom
      35 % band. */
  function PdfRoi(items: seq<PdfTextItem>, m: Affine, W: real, H: real): (r: Rect)
    ensures 0.0 <= W && 0.0 <= H ==> Within(r, W, H)
    ensures (forall i :: 0 <= i < |items| ==> !PdfMatches(items[i])) ==> r == PdfBottomRect(W, H, 0.35)
    ensures (exists i :: 0 <= i < |items| && PdfMatches(items[i])) ==>
      exists i :: (0 <= i < |items| && PdfMatches(items[i])
        && (forall j :: 0 <= j < |items| && PdfMatches(items[j]) ==> RectY1(items[j], m) <= RectY1(items[i], m))
        && r == AppExtract.AnchorRect(RectY1(items[i], m), W, H))
  {
    match PdfAnchorRect(items, m, W, H)
    case Some(r) => r
    case None => PdfBottomRect(W, H, 0.35)
  }

  /** With a pdf.js viewport of an upright 1666 x 2357.6 page (scale 2.8, `y` flipped), a "Firma"
      at PDF height 100 gives `RectY1` = 235732, far beyond the page: the band's top lies under its
      bottom and the crop is one pixel high. */
  lemma PdfOffPageExample()
    ensures var r := PdfRoi([PdfTextItem(Some("Firma"), Affine(10.0, 0.0, 0.0, 10.0, 72.0, 100.0))],
                            Affine(2.8, 0.0, 0.0, -2.8, 0.0, 2357.6), 1666.0, 2357.6);
      && r == Rect(0.0, 235614.12, 1666.0, 2357.6)
      && !Ordered(r)
      && PdfCropSize(r).h == 1
  {
    assert Fold("Firma") == "firma";
    assert Occurs(Alternatives[0], Fold("Firma"));
  }

  /** pdf.js's `Util.transform(m, it.transform)[5]`: the item's baseline `y` in viewport
      coordinates, which grows downwards on the page. */
  function ViewportY(it: PdfTextItem, m: Affine): real
  {
    m.b * it.transform.e + m.d * it.transform.f + m.f
  }

  /** An item as App.jsx sees it: its string and its viewport `y`. */
  function AsAppItems(items: seq<PdfTextItem>, m: Affine): (r: seq<AppExtract.AppTextItem>)
    ensures |r| == |items|
    ensures forall i :: 0 <= i < |items| ==> r[i] == AppExtract.AppTextItem(items[i].str, Some(ViewportY(items[i], m)))
  {
    seq(|items|, i requires 0 <= i < |items| => AppExtract.AppTextItem(items[i].str, Some(ViewportY(items[i], m))))
  }

  /** The two keyword guards agree: `!it.str` rejects exactly the strings `it?.str || ""` turns into
      the empty string, which no keyword matches. */
  lemma AnchorsIffMatches(items: seq<PdfTextItem>, m: Affine)
    ensures forall i :: 0 <= i < |items| ==> (AppExtract.Anchors(AsAppItems(items, m)[i]) <==> PdfMatches(items[i]))
  {
    EmptyNeverMatches();
  }

  /** The ROI with the anchor's `y` taken from pdf.js's composition and an empty band replaced by
      the bottom band: on a page of non-negative size it is on the page and top-to-bottom
      ordered; with no match it is the bottom band; otherwise the anchor is a match lying lowest
      on the page, whose band is kept whenever it is ordered. */
  function CorrectedPdfRoi(items: seq<PdfTextItem>, m: Affine, W: real, H: real): (r: Rect)
    ensures 0.0 <= W && 0.0 <= H ==> Within(r, W, H) && Ordered(r)
    ensures (forall i :: 0 <= i < |items| ==> !PdfMatches(items[i])) ==> r == PdfBottomRect(W, H, 0.35)
    ensures (exists i :: 0 <= i < |items| && PdfMatches(items[i])) ==>
      exists i :: (0 <= i < |items| && PdfMatches(items[i])
        && (forall j :: 0 <= j < |items| && PdfMatches(items[j]) ==> ViewportY(items[j], m) <= ViewportY(items[i], m))
        && (Ordered(AppExtract.AnchorRect(ViewportY(items[i], m), W, H)) ==>
              r == AppExtract.AnchorRect(ViewportY(items[i], m), W, H))
        && (!Ordered(AppExtract.AnchorRect(ViewportY(items[i], m), W, H)) ==> r == PdfBottomRect(W, H, 0.35)))
  {
    var app := AsAppItems(items, m);
    AnchorsIffMatches(items, m);
    BottomRectsAgree(W, H, 0.35);
    AppExtract.GuardedRoi(Some(app), W, H)
  }

  /** The page of `PdfOffPageExample` under the corrected ROI: the anchor sits at viewport
      `y` = 2077.6, and the band runs from 1959.72 to the page bottom. */
  lemma CorrectedPdfExample()
    ensures var r := CorrectedPdfRoi([PdfTextItem(Some("Firma"), Affine(10.0, 0.0, 0.0, 10.0, 72.0, 100.0))],
                                     Affine(2.8, 0.0, 0.0, -2.8, 0.0, 2357.6), 1666.0, 2357.6);
      && r == Rect(0.0, 1959.72, 1666.0, 2357.6)
      && Ordered(r)
  {
    assert Fold("Firma") == "firma";
    assert Occurs(Alternatives[0], Fold("Firma"));
    var items := [PdfTextItem(Some("Firma"), Affine(10.0, 0.0, 0.0, 10.0, 72.0, 100.0))];
    var m := Affine(2.8, 0.0, 0.0, -2.8, 0.0, 2357.6);
    var app := [AppExtract.AppTextItem(Some("Firma"), Some(2077.6))];
    assert AsAppItems(items, m) == app;
    assert app[..0] == [];
    assert AppExtract.AnchorY(app) == Some(2077.6);
    var band := Rect(0.0, 1959.72, 1666.0, 2357.6);
    assert AppExtract.AppRoi(Some(app), 1666.0, 2357.6) == band;
    assert AppExtract.GuardedRoi(Some(app), 1666.0, 2357.6) == band;
  }

  /** The 1-based page handed to `getPage` for a 0-based request, negative meaning the last page.
      Nothing clamps it: the page exists exactly when the request is below the page count, and a
      non-negative request always names its own page, existing or not. */
  function PdfPageNumber(pageNumber: int, numPages: int): (page: int)
    ensures numPages >= 1 ==> (1 <= page <= numPages <==> pageNumber < numPages)
    ensures pageNumber >= 0 ==> page - 1 == pageNumber
    ensures pageNumber < 0 ==> page == numPages
  {
    if pageNumber >= 0 then pageNumber + 1 else numPages
  }

  /** Unlike App.jsx, the request is not clamped: the two versions choose the same page exactly
      when the request is below the page count, and otherwise this one asks for a page past the
      end. */
  lemma PageChoicesAgreeIff(pageNumber: int, numPages: int)
    requires numPages >= 1
    ensures PdfPageNumber(pageNumber, numPages) == AppExtract.AppPageNumber(pageNumber, numPages)
        <==> pageNumber < numPages
    ensures pageNumber >= numPages ==> PdfPageNumber(pageNumber, numPages) > numPages
  {
  }

  /** `cropCanvas`, a copy of App.jsx's. */
  function PdfCropSize(r: Rect): (s: Size)
    ensures s.w >= 1 && s.h >= 1
    ensures r.x1 - r.x0 >= 0.5 ==> s.w as real - 0.5 <= r.x1 - r.x0 < s.w as real + 0.5
    ensures r.y1 - r.y0 >= 0.5 ==> s.h as real - 0.5 <= r.y1 - r.y0 < s.h as real + 0.5
  {
    Size(MaxI(1, Round(r.x1 - r.x0)), MaxI(1, Round(r.y1 - r.y0)))
  }

  /** The two copies of `cropCanvas` size a crop identically. */
  lemma CropSizesAgree(r: Rect)
    ensures PdfCropSize(r) == AppExtract.AppCropSize(r)
  {
  }

  /** App.jsx's kernel is never narrower than this fixed 25-pixel one, and the two coincide
      exactly on regions narrower than 102 pixels. */
  lemma KernelWidthsAgreeIff(W: nat)
    ensures AppExtract.LineKernelWidth(W) >= LineKernelWidth
    ensures AppExtract.LineKernelWidth(W) == LineKernelWidth <==> W < 102
  {
    if W >= 102 {
      assert Round(W as real * 0.25) >= 26;
    }
  }

  /** The mask handed to `findContours`: no right-edge exclusion here. */
  function PdfMask(bw: Grid, lines: Grid, W: nat, H: nat): (r: Grid)
    requires IsGrid(bw, H, W) && IsGrid(lines, H, W)
    ensures IsGrid(r, H, W)
    ensures Binary(bw) && Binary(lines) ==> Binary(r)
    ensures Binary(bw) && Binary(lines) ==>
      forall i, j :: 0 <= i < H && 0 <= j < W ==>
        (r[i][j] == 255 <==> NormalizePolarity(bw)[i][j] == 255 && lines[i][j] == 0)
  {
    SaturatingSubtract(NormalizePolarity(bw), lines)
  }

  /** The bounding-box loop: contours under `areaMin` are skipped, the first kept box starts the
      box and every later one widens it. */
  function BBox(cs: seq<Contour>, areaMin: real): (b: Option<Rect>)
    decreases |cs|
  {
    if |cs| == 0 then None
    else
      var n := |cs| - 1;
      var prev := BBox(cs[..n], areaMin);
      if cs[n].area < areaMin then prev
      else match prev
        case None => Some(BoxRect(cs[n].box))
        case Some(p) => Some(Hull(p, BoxRect(cs[n].box)))
  }

  predicate Kept(c: Contour, areaMin: real)
  {
    !(c.area < areaMin)
  }

  /** No box exactly when every contour is under the area floor; otherwise the box contains every
      kept contour's box and lies inside any rectangle that does. */
  lemma {:induction false} BBoxSpec(cs: seq<Contour>, areaMin: real)
    ensures BBox(cs, areaMin).None? <==> forall i :: 0 <= i < |cs| ==> !Kept(cs[i], areaMin)
    ensures BBox(cs, areaMin).Some? ==>
      forall i :: 0 <= i < |cs| && Kept(cs[i], areaMin) ==> Contains(BBox(cs, areaMin).value, BoxRect(cs[i].box))
    ensures BBox(cs, areaMin).Some? ==> forall R ::
      (forall i :: 0 <= i < |cs| && Kept(cs[i], areaMin) ==> Contains(R, BoxRect(cs[i].box)))
      ==> Contains(R, BBox(cs, areaMin).value)
    decreases |cs|
  {
    if |cs| > 0 {
      var n := |cs| - 1;
      var prefix := cs[..n];
      BBoxSpec(prefix, areaMin);
      assert forall i :: 0 <= i < n ==> prefix[i] == cs[i];
    }
  }

  /** The crop padding: 4 % of the larger side, rounded. */
  function PdfPad(W: nat, H: nat): (p: int)
    ensures p >= 0
  {
    Round(0.04 * MaxI(W, H) as real)
  }

  /** The area floor: 0.2 % of the region's pixels. */
  function AreaMin(W: nat, H: nat): real
  {
    MinAreaFraction * (H * W) as real
  }

  /** `isolateSignatureCanvas`: the kept boxes' union padded by 4 % of the larger side and clamped,
      or the region unchanged when no contour reaches 0.2 % of its area. A crop lies on the
      canvas, reaches at most the pad beyond the kept boxes' union, and is the largest such
      rectangle. */
  function PdfIsolate(cs: seq<Contour>, W: nat, H: nat): (r: AppExtract.Isolation)
    ensures r.Unchanged? <==> forall i :: 0 <= i < |cs| ==> !Kept(cs[i], AreaMin(W, H))
    ensures r.Cropped? ==> Within(r.rect, W as real, H as real)
    ensures r.Cropped? ==> (BBox(cs, AreaMin(W, H)).Some?
      && Contains(Grow(BBox(cs, AreaMin(W, H)).value, PdfPad(W, H) as real), r.rect))
    ensures r.Cropped? ==> forall R :: (Within(R, W as real, H as real)
      && Contains(Grow(BBox(cs, AreaMin(W, H)).value, PdfPad(W, H) as real), R)) ==> Contains(r.rect, R)
  {
    var areaMin := AreaMin(W, H);
    BBoxSpec(cs, areaMin);
    match BBox(cs, areaMin)
    case None => AppExtract.Unchanged
    case Some(b) => AppExtract.Cropped(PadClamp(b, PdfPad(W, H), W as real, H as real))
  }

  /** Every kept contour on the canvas ends up inside the crop. */
  lemma PdfCropCoversKept(cs: seq<Contour>, W: nat, H: nat, i: int)
    requires 0 <= i < |cs| && Kept(cs[i], AreaMin(W, H))
    requires Within(BoxRect(cs[i].box), W as real, H as real)
    ensures PdfIsolate(cs, W, H).Cropped?
    ensures Contains(PdfIsolate(cs, W, H).rect, BoxRect(cs[i].box))
  {
    var areaMin := AreaMin(W, H);
    BBoxSpec(cs, areaMin);
    var b := BBox(cs, areaMin).value;
    var box := BoxRect(cs[i].box);
    var pad := PdfPad(W, H);
    assert Contains(b, box);
    assert pad >= 0;
    assert Contains(Grow(b, pad as real), box);
    assert PdfIsolate(cs, W, H) == AppExtract.Cropped(PadClamp(b, pad, W as real, H as real));
  }

  /** The two versions drift apart: a filled 100 x 100 stamp in a 1000 x 1000 region is cropped
      here, while App.jsx's shape filter rejects it and its fallback (`w - 2h = -100`) keeps the
      whole region. */
  lemma VersionsDisagreeOnStamp()
    ensures var cs := [Contour(9000.0, Box(450, 450, 100, 100), 400.0)];
      && PdfIsolate(cs, 1000, 1000) == AppExtract.Cropped(Rect(410.0, 410.0, 590.0, 590.0))
      && AppExtract.AppIsolate(cs, 1000, 1000) == AppExtract.Unchanged
  {
    var cs := [Contour(9000.0, Box(450, 450, 100, 100), 400.0)];
    FilledSquareRejected(450, 450, 400.0, 1000, 1000);
    AppExtract.AppUnchangedIff(cs, 1000, 1000);
    assert cs[..0] == [];
    assert AreaMin(1000, 1000) == 2000.0;
    assert BBox(cs, 2000.0) == Some(Rect(450.0, 450.0, 550.0, 550.0));
    assert PdfPad(1000, 1000) == 40;
  }
}
