# SignFront signature-region extraction, modelled in Dafny

SignFront is a browser front end. It renders a PDF page, finds the part of the page most likely to hold a handwritten signature, crops it, and sends the crop to a classification service that answers REAL or FORGED. This project models the deterministic core of that pipeline as pure Dafny functions and proves properties about it. It also models the bookkeeping around the pipeline: the registration rows, the CSV export of the editable table, and the construction of the classification request.

The extraction exists twice in the source, and the two copies are kept apart here:

- `AppExtract` models `src/App.jsx`. The region of interest (ROI) comes from a keyword anchor or a fixed bottom band. The page request is clamped. The mask goes through polarity normalisation, removal of horizontal rule lines, and blanking of the right fifth. Contours are filtered by shape. The accepted boxes are merged, padded by 6 % and clamped. When nothing is accepted, a `w - 2h` fallback applies, with a 5 % pad.
- `PdfExtract` models `src/components/PdfAnalyzer.jsx`. Its anchor formula is different. Its line kernel is fixed. It has no right-edge exclusion and no shape filter: it takes the union of every contour above 0.2 % of the area and pads it by 4 %. Its page request is not clamped.

Lemmas compare the two copies where they agree (`bottomRect`, `cropCanvas`) and where they drift apart (page choice, kernel width, and a stamp that one crops and the other rejects).

Modules:

- `Common`: `Option` and `Math.round` (`Round(x) = floor(x + 0.5)`).
- `Geometry`: rectangles; the hull (least upper bound) of boxes; padding plus clamping.
- `Keywords`: the case-insensitive keyword regex.
- `Masks`: 8-bit masks as `seq<seq<int>>`, and the mask stages.
- `Contours`: the contour feature record (area, bounding box, perimeter) and App.jsx's shape classification.
- `AppExtract` and `PdfExtract`: the two pipelines.
- `Rows`: App.jsx's row updates, plus the index filter both files use.
- `Table`: DataTable.jsx's CSV export and row edits. An RFC 4180 reader is the partner of the export.
- `Api`: `src/api.js`.

Notes on how the model reads the source:

- Text layout is an input. For App.jsx, each item is its string plus the `y` that pdf.js's `Util.transform` produces, absent when that value is not finite. For PdfAnalyzer.jsx, each item is its string plus its own transform. PdfAnalyzer.jsx computes the keyword box's `y1` as `c*m[1] + d*m[3] + f*m[5]` (`PdfExtract.RectY1`), which is not the affine composition pdf.js performs. The model keeps that formula; see "## Findings".
- The `w - 2h` fallback starts its search at `bestScore = -1` (src/App.jsx:293). A contour whose `w - 2h` is negative is therefore never picked, and the ROI comes back unchanged (`AppExtract.TallContourKeepsRegion`, `AppExtract.AppUnchangedIff`).
- `findContours` runs twice in App.jsx (src/App.jsx:239 and :292) on the same mask. The model therefore gives both loops one contour list.
- The polarity step inverts when `cv.mean` exceeds 127. The mean of an empty mask is taken as 0.
- In DataTable.jsx's `toCSV`, `r.observaciones.replace` is called before the `?? ""` default applies. A stored row without `observaciones` therefore makes the export throw. `Table.ToCSV` returns `None` in that case.

## Model

| member | source | states |
|---|---|---|
| `Common.Round` | src/App.jsx:135-136 | `Math.round(x)` is the integer r with x in [r - 0.5, r + 0.5), that is floor(x + 0.5) |
| `Geometry.Hull` | src/App.jsx:278-281 | the min/max update contains both boxes and lies inside every rectangle that contains both |
| `Geometry.HullAll` | src/App.jsx:276-282 | the accumulated union contains every box and is the least rectangle that does |
| `Geometry.HullExample` | src/App.jsx:276-282 | {10,10,50,30} and {60,15,120,40} merge to exactly {10,10,120,40} |
| `Geometry.PadClamp` | src/App.jsx:283-287 | pad then clamp lands inside the canvas and is the largest such rectangle inside the padded one; it keeps an in-canvas input whole |
| `Keywords.OccursIff` | src/App.jsx:155 | the substring scan finds a word exactly when some start position holds it |
| `Keywords.KeywordTestIff` | src/App.jsx:151-155 | the six-alternative case-insensitive regex matches exactly when the text contains "firma" or "signature" in any ASCII case |
| `Keywords.EmptyNeverMatches` | src/App.jsx:154-155 | the empty string that a missing `str` becomes never matches |
| `Keywords.UpperCaseMatches` | src/App.jsx:151 | "FIRMA:" matches, so the `i` flag is honoured |
| `Masks.SumInvert` | src/App.jsx:214 | `bitwise_not` turns the pixel total S of N pixels into 255 N - S |
| `Masks.NormalizePolarity` | src/App.jsx:212-214 | after the step the mask mean is below 128; a non-empty mask is inverted exactly when its mean exceeds 127, and an empty one is kept; shape and pixel count are unchanged, and binary masks stay binary |
| `Masks.PolarityNotIdempotent` | src/App.jsx:213-214 | a half-ink mask has mean 127.5 both ways, so the bound is tight and repeating the step flips it back |
| `Masks.SaturatingSubtract` | src/App.jsx:223 | the saturated difference keeps the shape, never goes below 0 or above the input mask, and on binary masks keeps a pixel exactly when it is ink and not on a line |
| `Masks.ExcludeRight` | src/App.jsx:225-234 | columns below the cut are copied, columns from the cut on are zero, and the shape is kept |
| `Masks.ExcludeRightSum` | src/App.jsx:225-234 | blanking never adds ink: the pixel total does not grow |
| `Contours.CandidatesSound` | src/App.jsx:244-270 | every candidate is the box and score of an accepted contour |
| `Contours.CandidatesComplete` | src/App.jsx:244-270 | every accepted contour's box is among the candidates |
| `Contours.CandidatesEmptyIff` | src/App.jsx:244-274 | there are no candidates exactly when no contour passes both the area floor and the shape test |
| `Contours.CandidatesMonotone` | src/App.jsx:247 | raising the minimum area fraction never increases the number of candidates |
| `Contours.AcceptedAntitone` | src/App.jsx:247 | a contour that clears a higher area floor also clears a lower one |
| `Contours.FilledSquareRejected` | src/App.jsx:253-263 | a filled 100 x 100 box is square-like and a dense block, and is never a candidate at any position |
| `AppExtract.BottomRect` | src/App.jsx:144-148 | the fallback band spans the full width, ends at 98 % of the height, starts at H(1 - frac) or at the top edge when that is negative, and lies on the page |
| `AppExtract.BottomRectExample` | src/App.jsx:144-148 | on an 800 x 1000 page the band is {0,650,800,980} |
| `AppExtract.AnchorYNoneIff` | src/App.jsx:152-160 | there is no anchor exactly when no matching item has a finite y |
| `AppExtract.AnchorYIsMax` | src/App.jsx:152-159 | the anchor is the y of a matching item and no matching item lies lower |
| `AppExtract.AnchorRect` | src/App.jsx:161-164 | the band is the largest full-width band on the page that reaches no further than 5 % of H above the anchor and 35 % of H below it; it contains the anchor line; on a page of non-negative size its top lies above its bottom exactly when the anchor is between 35 % of H above the page and 5 % of H below it |
| `AppExtract.AppRoi` | src/App.jsx:150-187 | without text content, or with no matching item that has a finite `y`, the ROI is the bottom 35 % band; otherwise it is the anchor band around a matching item whose `y` is the largest; either way it spans the full width and has y0 >= 0 and y1 <= H (the order of y0 and y1 is not promised) |
| `AppExtract.OffPageAnchorExample` | src/App.jsx:161-164 | an anchor at y = 2000 on an 800 x 1000 page gives the band from 1950 down to 1000, whose top lies below its bottom, and a crop one pixel high |
| `AppExtract.GuardedRoi` | src/App.jsx:161-187 | the ROI with an inverted band replaced by the bottom band: on a page of non-negative size it is on the page with top above bottom, equals the source's ROI whenever that one is ordered, and is the bottom band otherwise |
| `AppExtract.GuardedAnchor` | src/App.jsx:161-164 | with the guard, an anchor within [-0.35 H, 1.05 H] keeps its band and any other anchor gives the bottom band |
| `AppExtract.AnchorPriorityExample` | src/App.jsx:150-164 | matches at y = 800 and y = 950 on a page 1000 high give {0,900,W,1000} |
| `AppExtract.NoTextFallbackExample` | src/App.jsx:187 | with no text items the ROI of an 800 x 1000 page is {0,650,800,980} |
| `AppExtract.AppPageNumber` | src/App.jsx:170-171 | the page requested is always a real page: the requested one when it exists, else the last |
| `AppExtract.AppCropSize` | src/App.jsx:134-136 | crop dimensions are at least 1 and are the nearest integer to an extent of at least one half |
| `AppExtract.AppCropSizeBounded` | src/App.jsx:134-136 | a rectangle inside a canvas crops to no more than the canvas size |
| `AppExtract.LineKernelWidth` | src/App.jsx:218 | the line kernel is at least 25 wide and at least a quarter of the ROI width, rounded |
| `AppExtract.ExclusionCut` | src/App.jsx:226 | the first blanked column is 80 % of the width rounded to the nearest integer; it lies within the width, and is at least 1 on a non-empty ROI |
| `AppExtract.AppMask` | src/App.jsx:212-234 | the contour mask keeps the ROI shape, is zero right of the cut, stays at or below the normalised mask, and left of the cut is ink exactly where the normalised mask is ink and the opening is not |
| `AppExtract.MergeCandidates` | src/App.jsx:274-288 | the merged crop lies on the canvas, covers every on-canvas candidate box, reaches at most the 6 % pad beyond their hull, and is the largest rectangle on the canvas that does, so the pad is really applied |
| `AppExtract.MergeIgnoresScore` | src/App.jsx:266-283 | candidates with the same boxes merge identically whatever their scores |
| `AppExtract.FallbackPickSpec` | src/App.jsx:290-300 | the pick is the first contour of maximal w - 2h and that maximum exceeds -1; nothing is picked exactly when every score is at most -1 |
| `AppExtract.AppIsolate` | src/App.jsx:272-317 | any crop lies inside the ROI canvas |
| `AppExtract.AppUnchangedIff` | src/App.jsx:272-310 | the ROI comes back unchanged exactly when no contour is accepted and every w - 2h is negative |
| `AppExtract.AppCropCoversAccepted` | src/App.jsx:274-288 | with an accepted on-canvas contour the result is a crop covering its box |
| `AppExtract.AppMergeCrop` | src/App.jsx:273-288 | with an accepted contour the result is a crop; it lies within the bounding box of all accepted boxes (the least rectangle covering them) grown by round(6 % of the larger side), and is the largest rectangle on the canvas that does |
| `AppExtract.AppFallbackCrop` | src/App.jsx:301-308 | with nothing accepted the crop is the picked box padded by 5 % and clamped, and it covers that box |
| `AppExtract.TallContourKeepsRegion` | src/App.jsx:293-301 | a lone 40 x 200 contour is not picked and the ROI comes back unchanged |
| `AppExtract.AppOutputBounded` | src/App.jsx:272-317 | the output canvas is never empty and never larger than the ROI |
| `PdfExtract.AnchorIndexSpec` | src/components/PdfAnalyzer.jsx:48-68 | there is no anchor exactly when nothing matches; otherwise the anchor is a match with the greatest `c*m[1] + d*m[3] + f*m[5]`, the first one on ties |
| `PdfExtract.EmptyStringSkipped` | src/components/PdfAnalyzer.jsx:50 | an item with a missing or empty string never anchors |
| `PdfExtract.PdfAnchorRect` | src/components/PdfAnalyzer.jsx:45-75 | the band is absent exactly when nothing matches; otherwise it is App.jsx's anchor band around the `c*m[1] + d*m[3] + f*m[5]` of a match with the greatest such value |
| `PdfExtract.PdfBottomRect` | src/components/PdfAnalyzer.jsx:77-81 | the band spans the full width, ends at 98 % of the height, and starts at H(1 - frac) or at the top edge when that is negative |
| `PdfExtract.BottomRectsAgree` | src/components/PdfAnalyzer.jsx:77-81 | this `bottomRect` equals App.jsx's on every input |
| `PdfExtract.PdfRoi` | src/components/PdfAnalyzer.jsx:36-37 | with no matching item the ROI is the bottom 35 % band; otherwise it is App.jsx's anchor band around the `c*m[1] + d*m[3] + f*m[5]` of a match with the greatest such value; it has y0 >= 0 and y1 <= H (the order of y0 and y1 is not promised) |
| `PdfExtract.PdfOffPageExample` | src/components/PdfAnalyzer.jsx:54-57 | on an upright 1666 x 2357.6 viewport (scale 2.8), a "Firma" at PDF height 100 gets the value 235732, and the ROI is the band from 235614.12 down to 2357.6, whose top lies below its bottom, cropped one pixel high |
| `PdfExtract.AnchorsIffMatches` | src/components/PdfAnalyzer.jsx:50 | PdfAnalyzer.jsx's `!it.str` guard and App.jsx's `it?.str || ""` accept exactly the same items |
| `PdfExtract.CorrectedPdfRoi` | src/components/PdfAnalyzer.jsx:45-75 | with the anchor's `y` taken from pdf.js's composition `m[1]*e + m[3]*f + m[5]` and an empty band replaced by the bottom band: on a page of non-negative size the ROI is on the page with top above bottom; with no match it is the bottom band; otherwise the anchor is a match lying lowest on the page, and its band is kept whenever it is ordered |
| `PdfExtract.CorrectedPdfExample` | src/components/PdfAnalyzer.jsx:54-57 | the page of `PdfOffPageExample` gets the ordered band from 1959.72 to 2357.6 around the viewport `y` 2077.6 |
| `PdfExtract.PdfPageNumber` | src/components/PdfAnalyzer.jsx:26-27 | nothing clamps the request: the page asked for exists exactly when the request is below the page count; a request of 0 or more names its own page, and a negative one names the last page |
| `PdfExtract.PageChoicesAgreeIff` | src/components/PdfAnalyzer.jsx:26 | both versions ask for the same page exactly when the request is below the page count; past it, this one asks for a page that does not exist |
| `PdfExtract.PdfCropSize` | src/components/PdfAnalyzer.jsx:83-85 | crop dimensions are at least 1 and are the nearest integer to an extent of at least one half |
| `PdfExtract.CropSizesAgree` | src/components/PdfAnalyzer.jsx:83-85 | this `cropCanvas` sizes crops exactly as App.jsx's does |
| `PdfExtract.KernelWidthsAgreeIff` | src/components/PdfAnalyzer.jsx:120 | App.jsx's kernel is never narrower than this fixed 25, and they are equal exactly on ROIs narrower than 102 pixels |
| `PdfExtract.PdfMask` | src/components/PdfAnalyzer.jsx:109-122 | the contour mask keeps the shape and is ink exactly where the normalised mask is ink and the opening is not, with no column blanked |
| `PdfExtract.BBoxSpec` | src/components/PdfAnalyzer.jsx:129-144 | there is no box exactly when every contour is under the area floor; otherwise it is the least rectangle containing every kept contour's box |
| `PdfExtract.PdfIsolate` | src/components/PdfAnalyzer.jsx:129-155 | the ROI comes back unchanged exactly when no contour reaches 0.2 % of the area; otherwise the crop lies on the canvas, reaches at most the 4 % pad beyond the kept boxes' union, and is the largest rectangle on the canvas that does |
| `PdfExtract.PdfCropCoversKept` | src/components/PdfAnalyzer.jsx:146-155 | every kept on-canvas contour lies inside the crop |
| `PdfExtract.VersionsDisagreeOnStamp` | src/components/PdfAnalyzer.jsx:129-155 | a filled 100 x 100 stamp in a 1000 x 1000 ROI is cropped here to {410,410,590,590}, while App.jsx returns the ROI unchanged |
| `Rows.RemoveAt` | src/App.jsx:361 | the index filter removes exactly the element at a valid index, keeps the rest in order, and changes nothing for an invalid index |
| `Rows.RemoveAtShift` | src/components/DataTable.jsx:68 | elements after the removed index move up by one; those before it stay put |
| `Rows.TrimSpec` | src/App.jsx:63 | `trim` cuts the string into leading whitespace, the result and trailing whitespace, and the result has whitespace at neither end |
| `Rows.AddRow` | src/App.jsx:59-66 | the new "Pendiente" row with the trimmed link goes first, and the old rows shift down by one |
| `Rows.AfterVerdict` | src/App.jsx:83-90 | only the newest row can change; it becomes "Corroborado" on a REAL label, other fields and rows stay as they were, and any other label leaves the list exactly as it was |
| `Rows.LowerCaseRealCounts` | src/App.jsx:83 | "real" counts as REAL; "FORGED" and a missing label do not |
| `Rows.AppRemoveRow` | src/App.jsx:359-362 | removing a row removes exactly that row and keeps the order of the rest |
| `Table.SpaceNewlines` | src/components/DataTable.jsx:21 | the observations field keeps its length; every line feed becomes a space and every other character is kept |
| `Table.Fields` | src/components/DataTable.jsx:18-23 | a row yields six columns exactly when its observations are present (otherwise `replace` throws and nothing is exported), with no line feed in the observations column; the contents of each column are stated by `Table.ExportColumns` |
| `Table.Records` | src/components/DataTable.jsx:18-24 | the export's records exist exactly when every row has observations, one per row and in order |
| `Table.ToCSV` | src/components/DataTable.jsx:16-26 | the export exists exactly when every row has observations; it starts with the exact header line, which is the whole output when there are no rows and is followed by a line break otherwise |
| `Table.ParseBodyEscape` | src/components/DataTable.jsx:23 | reading a quoted field back turns doubled quotes into single ones and recovers the original string exactly |
| `Table.ParseRecordJoin` | src/components/DataTable.jsx:23 | a comma-joined line of quoted fields reads back as exactly those fields |
| `Table.ParseLinesRoundTrip` | src/components/DataTable.jsx:18-25 | the record lines read back as the records |
| `Table.ExportColumns` | src/components/DataTable.jsx:16-26 | record i read back from the export is, in order: the row's pairs, kind, observations with each line feed made a space, the document (the URL when the kind is "url", else the file's name, else empty), part and state, each missing value read as the empty string |
| `Table.CsvRoundTrip` | src/components/DataTable.jsx:16-26 | reading the export as RFC 4180 CSV gives every row's six columns in order, including quotes, commas and line breaks inside fields |
| `Table.QuoteRoundTripExample` | src/components/DataTable.jsx:23 | a field holding a quote, a comma and a line break survives the round trip |
| `Table.NormalizeDraft` | src/components/DataTable.jsx:77-81 | only the URL may change; it is cleared when a file is attached to a file-type document, and kept otherwise |
| `Table.Submit` | src/components/DataTable.jsx:82-86 | edit mode replaces only the edited row, keeping the length; add mode prepends and shifts the old rows down by one |
| `Table.EditDraft` | src/components/DataTable.jsx:51-63 | the edit form has no file; each of the seven text fields keeps the row's value when it is present and non-empty, and otherwise takes the empty form's default |
| `Table.DocLabelVersusCsv` | src/components/DataTable.jsx:100-104 | the table and the CSV show the same document for URL documents and for named files; a file-type document without a file name shows "(archivo)" but exports an empty column; a document of neither type shows nothing but exports its file's name |
| `Table.StartEdit` | src/components/DataTable.jsx:51-63 | starting an edit keeps the rows, records the index, and loads the form from that row as `EditDraft` describes |
| `Table.OnSubmit` | src/components/DataTable.jsx:75-89 | saving leaves edit mode and resets the form; in edit mode every other row keeps its place and value and the edited row becomes the normalised draft; otherwise the normalised draft becomes the first row |
| `Table.SaveAfterEdit` | src/components/DataTable.jsx:51-89 | editing row i and saving whatever the form holds changes row i alone, to the normalised form, and leaves edit mode |
| `Table.RemoveRow` | src/components/DataTable.jsx:66-73 | removal drops the row; edit mode ends only when the removed row was the edited one, and otherwise the edit index is left as it was |
| `Table.StaleEditIndexExample` | src/components/DataTable.jsx:66-73 | editing row 1 of three, deleting row 0 and saving overwrites the wrong row |
| `Table.RemoveRowTracked` | src/components/DataTable.jsx:66-73 | with the index shifted, the edit index still points at the row being edited |
| `Table.RemoveThenSubmitCommutes` | src/components/DataTable.jsx:66-89 | with the index shifted, deleting another row and then saving equals saving and then deleting |
| `Api.StripTrailingSlashes` | src/api.js:4 | the result is a prefix of the input, followed there only by slashes, and does not itself end with a slash |
| `Api.StripIsMaximalRun` | src/api.js:4 | exactly the maximal trailing run of slashes is removed |
| `Api.StripIdempotent` | src/api.js:4-8 | stripping an already-stripped base changes nothing |
| `Api.GetBaseURL` | src/api.js:3-5 | an unset or empty setting gives the default base; otherwise the setting is stripped; the result never ends with a slash |
| `Api.UrlBase` | src/api.js:7-8 | a truthy `baseURL` is stripped and used, a falsy one falls back to `getBaseURL()`, and the result never ends with a slash |
| `Api.AppBaseUnchanged` | src/App.jsx:9 | passing `getBaseURL()` back in as `baseURL` leaves it unchanged |
| `Api.EndpointSingleSlash` | src/api.js:8-12 | for every caller base and configuration, the request path ends in "/predict" and the character before it is not a slash, so the path never holds `//predict` |
| `Api.SlashesDoNotReachEndpoint` | src/api.js:8-12 | a base with any number of trailing slashes reduces to the base without them and reaches the same endpoint |
| `Api.Params` | src/api.js:13-16 | each key is present exactly when its argument is not `undefined`, carries that argument, and no other entry is in the params object |
| `Api.ZeroTtaKept` | src/App.jsx:10-11 | threshold 0.7 with tta 0 sends both keys, so a zero is not dropped |
| `Api.PdfEndpointAgrees` | src/components/PdfAnalyzer.jsx:8 | PdfAnalyzer.jsx's own request reaches the same endpoint as `predictSignature` with no explicit base |

## Findings

| source | as written | input that shows it | evidently intended | confidence | as-written member | corrected member |
|---|---|---|---|---|---|---|
| src/components/DataTable.jsx:66-73 | `removeRow(i)` resets edit mode only when `i` is the edited row; an edited row after `i` moves up one place, but `editingIndex` keeps its old value | three rows, `startEdit(1)`, `removeRow(0)`, submit: the third row is overwritten and the edited row is unchanged (when the edited row was the last one, the save is silently dropped) | decrement `editingIndex` when a row before it is removed | medium, not executed | `Table.RemoveRow`, `Table.StaleEditIndexExample` | `Table.RemoveRowTracked`, `Table.RemoveThenSubmitCommutes` |
| src/App.jsx:161-164 | the anchor band is cut to the page with `max(0, y - 0.05 H)` and `min(H, y + 0.35 H)` but never checked for being empty | a keyword whose transformed `y` lies below 1.05 H (or above -0.35 H), e.g. `y = 2000` on an 800 x 1000 page: the band runs from 1950 down to 1000, and `cropCanvas` returns a one-pixel-high strip taken below the canvas | fall back to the bottom band when the anchor band is empty | low, not executed | `AppExtract.AppRoi`, `AppExtract.OffPageAnchorExample` | `AppExtract.GuardedRoi`, `AppExtract.GuardedAnchor` |
| src/components/PdfAnalyzer.jsx:57 | the anchor's `y` is `c*m[1] + d*m[3] + f*m[5]`, mixing the item's linear part with the viewport's translation, instead of pdf.js's `m[1]*e + m[3]*f + m[5]`; the band it builds (lines 72-73) is never checked for being empty | any keyword on an upright page under a pdf.js viewport, e.g. "Firma" at PDF height 100 on a 1666 x 2357.6 viewport: the value is 235732, the band runs from 235614.12 down to 2357.6, and the crop is one pixel high | take `y` from `Util.transform(viewport.transform, it.transform)[5]` and fall back to the bottom band when the band is empty | medium, not executed | `PdfExtract.PdfRoi`, `PdfExtract.PdfOffPageExample` | `PdfExtract.CorrectedPdfRoi`, `PdfExtract.CorrectedPdfExample` |

## Left out

- OpenCV.js primitives are foreign calls and are not modelled: grayscale conversion, Gaussian blur, Otsu thresholding, the morphological opening, `findContours`, `contourArea`, `arcLength` and `boundingRect`. The threshold output and the line opening are taken as input masks. Each contour is given as its measured area, bounding box and perimeter.
- pdf.js is not modelled: document loading, page rendering, `getTextContent` and `Util.transform`. For App.jsx the transformed `y` of each item is an input. A failed `getTextContent` is the `None` content, which App.jsx swallows. PdfAnalyzer.jsx lets that failure propagate to its caller, and that error path is not modelled.
- PdfAnalyzer.jsx computes each keyword box's x0, x1 and y0 (`fontH`, `width`) but never reads them. Only `y1` is modelled.
- Canvas pixel copying (`drawImage`, including source rectangles outside the page) is not modelled; only crop sizes are. Assigning the fractional viewport size to `canvas.width` truncates it, and that step is not modelled either.
- IEEE-754 effects are not modelled. Coordinates and features are Dafny `real`, so NaN, infinities and rounding error are absent. The non-finite `y` check in App.jsx is kept as an absent value. `parseInt` yielding NaN for the page field is not modelled.
- `Rows.IsRealLabel`: upper-cases ASCII letters only, not the full Unicode mapping of `toUpperCase`.
- `Keywords.KeywordTest`: folds ASCII letters only. Without the `u` flag, JavaScript never folds a non-ASCII character onto an ASCII letter, so for these ASCII keywords the two agree.
- Table fields are strings or absent. Other JSON values coming back from `localStorage` (numbers, objects), which `String()` would convert, are not modelled.
- The readiness waits (`waitForCV` timers and `requestAnimationFrame` polling), React state, effects and rendering, `localStorage`, `confirm`/`alert`, `FormData`/`Blob`/`toDataURL`, and the axios request are not modelled. They are asynchronous or external plumbing. Removing a row is modelled as the step after the user confirms.
- The `AfterVerdict` guard reads a possibly stale `rows.length` from the closure before the functional update re-checks `prev.length`. The model uses one row list for both.
- `src/components/ImageAnalyzer.jsx` is not part of this model. It is UI plus preference storage, and its badge mapping repeats App.jsx's.
- `Contours.Score`: has no contract of its own. The score is never read by the merge, and `AppExtract.MergeIgnoresScore` states that it does not matter.
- `AppExtract.AppRoi`: promises y0 >= 0 and y1 <= H but not y0 <= y1, because the source does not check the band (see "## Findings"). `PdfExtract.PdfRoi` is the same.
