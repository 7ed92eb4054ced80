# Photo marker canvas: a Dafny model

MarkApp is a mobile app for annotating photos. The user picks a photo and
turns on mark mode. Each tap then drops a numbered red circle on the photo.
The user can pan and zoom, undo the last mark, and save the result as a JPEG.
All the logic lives in the `PhotoEditorPage` screen. This project models that
screen's state and geometry in Dafny over exact reals.

- **Fitted rectangle** (`Fitting`). Both the paint handler and `AddMarker`
  compute a rectangle (`destRect`) and a factor (`scaleX`) meant to scale the
  photo uniformly until it fills the canvas along one axis and centre it
  along the other. `AddMarker` works on the view's float canvas size
  (`FitToCanvas`), and that rectangle has exactly these properties. The paint
  handler works on the surface's integer size, so its canvas aspect ratio and
  its factor are integer quotients that truncate (`PaintFit`). The two agree
  when the canvas is the same whole multiple of the photo on both axes. They
  also agree whenever both take the same branch and the canvas length along
  that axis is a whole multiple of the photo's. Otherwise they can differ:
  the painted photo can be stretched, overflow the canvas, or vanish. See
  Findings.
- **View matrix** (`Matrix`, `View`). The user's zoom and pan are built as
  SKMatrix products: scale, then translate by minus the canvas centre, then
  translate by the centre plus the offset. `Matrix` models the affine part of
  SKMatrix: `CreateScale`, `CreateTranslation`, `PostConcat`, `MapPoint` and
  `TryInvert`. `View` proves that the two centre translations cancel, so the
  net map is `screen = scale·p + offset`. The matrix can be inverted exactly
  when `scale ≠ 0`, and the inverse is `(q − offset)/scale`.
- **Marker store** (`Markers`). This is the marker list plus
  `currentMarkNumber`: append in `AddMarker`, remove-last in undo, and the
  reset when a photo is picked.
- **Page state machine** (`Canvas`). This is an immutable `CanvasState` with
  one pure function per handler: picking a photo, toggling mark mode, undo,
  `AddMarker`, and the touch handler (press, move, release, wheel). `Run`
  folds any sequence of these events. Its contract says the page invariant
  holds in every reachable state:
  - the zoom is in [0.5, 5];
  - the counter equals the number of markers;
  - marker *i* is numbered *i*+1;
  - every marker is a pixel of the displayed photo.
- **Marker drawing** (`Render`). These are the size and position formulas of
  `DrawMarkersOnCanvas`, used on screen and for export. A size divided by a
  zero float scale is modelled as positive infinity.

The model follows what the code does, including behaviour a reader might not
expect:

- A drag moves the offset by the finger's delta divided by the zoom. The
  offset is applied after scaling, so the picture follows the finger only at
  unit zoom (`Canvas.PanFollowsFingerIff`).
- The wheel changes the scale and leaves the offset alone. Zoom therefore
  happens about the screen point at the offset, not about the canvas centre
  or the cursor (`Canvas.WheelZoomsAboutOffset`).
- When the matrix cannot be inverted, `AddMarker` simply returns. It does not
  fall back to the untransformed point.
- Sometimes the decoder returns no bitmap. In that case `originalImage` is
  already cleared when `Copy()` throws. The old picture and its markers stay
  on screen, but marking and mode toggling stop until a photo loads
  (`Canvas.PickPhoto`).
- On screen, markers are drawn at the rectangle's origin plus their *unscaled*
  pixel position. So they do not stay over the pixel they were placed on. See
  Findings.
- On a portrait canvas the paint handler's integer aspect ratio is 0, so it
  always fits the photo to the canvas width (`Fitting.PortraitCanvasFitsWidth`).

## Model

| member | source | states |
|---|---|---|
| `Fitting.FitToCanvas` | MarkApp/PhotoEditorPage.xaml.cs:329-349 | AddMarker's fit over the float canvas size. The rectangle is centred (left+right = canvas width, top+bottom = canvas height) and lies inside the canvas. It is the photo scaled by one positive factor on both axes, and it touches the canvas edges along at least one axis. |
| `Fitting.FitKeepsAspectRatio` | MarkApp/PhotoEditorPage.xaml.cs:336-349 | AddMarker's rectangle has the photo's width/height ratio. |
| `Fitting.FactorIsLargestThatFits` | MarkApp/PhotoEditorPage.xaml.cs:336-349 | AddMarker's branch on aspect ratios picks min(canvasW/imageW, canvasH/imageH): the largest uniform scale at which the whole photo still fits. |
| `Fitting.FitOnWholeMultiple` | MarkApp/PhotoEditorPage.xaml.cs:336-349 | When the canvas is k times the photo on both axes (any real k > 0), AddMarker's factor is k and its rectangle is the whole canvas. |
| `Fitting.WholeQuotient` | MarkApp/PhotoEditorPage.xaml.cs:189 | C#'s int / int on positive operands, as the float it is stored in: the largest whole q with q·b ≤ a. It is 0 exactly when a < b. |
| `Fitting.PaintFit` | MarkApp/PhotoEditorPage.xaml.cs:177-201 | The paint handler's fit over the integer surface size. The factor is ≥ 0 and the rectangle is centred on the canvas. When the float photo ratio exceeds the truncated canvas ratio, the factor is canvasW / imageW truncated, the rectangle spans the canvas width and is imageH·factor high. Otherwise the factor is canvasH / imageH truncated, the rectangle spans the canvas height and is imageW·factor wide. |
| `Fitting.PaintFitVanishes` | MarkApp/PhotoEditorPage.xaml.cs:186-201 | The paint factor is 0 if and only if the photo is larger than the canvas along the fitted axis, and if and only if the rectangle has zero width or height. |
| `Fitting.PortraitCanvasFitsWidth` | MarkApp/PhotoEditorPage.xaml.cs:180-186 | On a canvas taller than wide the integer aspect ratio is 0, so the paint handler always takes the fit-to-width branch. |
| `Fitting.PaintFitAgreesOnWholeMultiples` | MarkApp/PhotoEditorPage.xaml.cs:177-201 | When the canvas is the same whole multiple k of the photo on both axes, the paint handler's fit equals AddMarker's: factor k over the whole canvas. |
| `Fitting.PaintFitAgreesAlongWidth` | MarkApp/PhotoEditorPage.xaml.cs:177-201 | When both handlers take the fit-to-width branch and the canvas width is a whole multiple of the photo width, the paint handler's fit equals AddMarker's, whatever the heights. |
| `Fitting.PaintFitAgreesAlongHeight` | MarkApp/PhotoEditorPage.xaml.cs:177-201 | When both handlers take the fit-to-height branch and the canvas height is a whole multiple of the photo height, the paint handler's fit equals AddMarker's, whatever the widths. |
| `Fitting.AgreeAlongWidthExample` | MarkApp/PhotoEditorPage.xaml.cs:177-201 | A 100×100 photo on a 200×300 canvas (2 across, 3 down): both handlers give factor 2 over (0, 50, 200, 250). |
| `Fitting.AgreeAlongHeightExample` | MarkApp/PhotoEditorPage.xaml.cs:177-201 | A 100×50 photo on a 300×100 canvas (3 across, 2 down): both handlers give factor 2 over (50, 0, 250, 100). |
| `Fitting.VanishingExample` | MarkApp/PhotoEditorPage.xaml.cs:177-201 | A 2000×1000 photo on a 1000×500 canvas: the paint factor is 0 and the rectangle is (500, 0, 500, 500), while AddMarker fits at 0.5 over (0, 0, 1000, 500). |
| `Fitting.PhonePhotoVanishes` | MarkApp/PhotoEditorPage.xaml.cs:177-201 | A 4032×3024 photo on a 1080×1920 canvas: the paint factor is 0 and the rectangle is the line (0, 960, 1080, 960), while AddMarker fits at 1080/4032 over (0, 555, 1080, 1365). |
| `Fitting.OverflowExample` | MarkApp/PhotoEditorPage.xaml.cs:177-201 | A 500×1000 photo on a 1080×1920 canvas: the paint handler fits the width at factor 2 over (0, −40, 1080, 1960), which overflows the canvas, while AddMarker fits the height at 1.92 over (60, 0, 1020, 1920). |
| `Fitting.StretchedExample` | MarkApp/PhotoEditorPage.xaml.cs:177-201 | A 300×100 photo on a 1000×500 canvas: the paint factor is 3 but the rectangle is (0, 100, 1000, 400), 1000 wide instead of 900, so the photo is stretched. |
| `Fitting.DestToPixel` | MarkApp/PhotoEditorPage.xaml.cs:369-371 | A point the rectangle contains (half-open) converts to an image pixel with 0 ≤ x < width and 0 ≤ y < height. |
| `Fitting.PixelToDestInvertsDestToPixel` | MarkApp/PhotoEditorPage.xaml.cs:369-371 | Converting a contained point to pixels and back to where DrawBitmap puts that pixel gives the same point. |
| `Fitting.DestToPixelInvertsPixelToDest` | MarkApp/PhotoEditorPage.xaml.cs:369-371 | Every photo pixel is drawn inside the rectangle, and AddMarker's conversion takes the drawn point back to the pixel. |
| `Matrix.CreateScale` | MarkApp/PhotoEditorPage.xaml.cs:352 | The scale matrix maps (x, y) to (sx·x, sy·y). |
| `Matrix.CreateTranslation` | MarkApp/PhotoEditorPage.xaml.cs:354-355 | The translation matrix maps (x, y) to (x+dx, y+dy). |
| `Matrix.PostConcat` | MarkApp/PhotoEditorPage.xaml.cs:354-355 | `m.PostConcat(n)` maps every point by m first and then by n. |
| `Matrix.MapPointKeepsCombinations` | MarkApp/PhotoEditorPage.xaml.cs:363 | MapPoint is affine. It takes the point a fraction a of the way from p to q to the point the same fraction of the way between their images. |
| `Matrix.TryInvert` | MarkApp/PhotoEditorPage.xaml.cs:358-360 | Inversion succeeds exactly when the determinant is non-zero. |
| `Matrix.InverseUndoesMap` | MarkApp/PhotoEditorPage.xaml.cs:358-363 | For any invertible matrix, mapping a point forward and then through the inverse returns the point. |
| `Matrix.MapUndoesInverse` | MarkApp/PhotoEditorPage.xaml.cs:358-363 | For any invertible matrix, mapping through the inverse and then forward returns the point. |
| `View.ViewMatrix` | MarkApp/PhotoEditorPage.xaml.cs:352-355 | The composed matrix maps every p to scale·p + offset, whatever the canvas centre. |
| `View.ViewInvertibleIff` | MarkApp/PhotoEditorPage.xaml.cs:358-360 | The view matrix is invertible if and only if scale ≠ 0. |
| `View.ViewInverseIsUnproject` | MarkApp/PhotoEditorPage.xaml.cs:358-363 | When scale ≠ 0, the inverse matrix maps a screen point q to (q − offset)/scale. |
| `View.UnprojectProject` | MarkApp/PhotoEditorPage.xaml.cs:352-363 | (scale·p + offset − offset)/scale = p exactly. |
| `View.ProjectUnproject` | MarkApp/PhotoEditorPage.xaml.cs:352-363 | scale·((q − offset)/scale) + offset = q exactly. |
| `View.ZoomFixesOnlyOffset` | MarkApp/PhotoEditorPage.xaml.cs:352-355 | With the offset fixed, two different non-zero scales send a screen point to the same photo-side point only when that screen point is the offset. |
| `Markers.Empty` | MarkApp/PhotoEditorPage.xaml.cs:72-73 | The cleared store has no markers and satisfies the numbering invariant. |
| `Markers.Append` | MarkApp/PhotoEditorPage.xaml.cs:373-384 | The counter goes up by exactly one. Exactly one marker is appended, and its number is the new counter. The earlier markers are unchanged. |
| `Markers.UndoLast` | MarkApp/PhotoEditorPage.xaml.cs:98-105 | On an empty list nothing changes. Otherwise only the last marker is removed, the prefix is kept, and the counter is decremented if it is positive. |
| `Markers.AppendKeepsNumbered` | MarkApp/PhotoEditorPage.xaml.cs:373-384 | Appending keeps counter = length and number(i) = i+1. |
| `Markers.UndoKeepsNumbered` | MarkApp/PhotoEditorPage.xaml.cs:98-105 | Undo keeps counter = length and number(i) = i+1. |
| `Markers.UndoCancelsAppend` | MarkApp/PhotoEditorPage.xaml.cs:98-105 | Undo right after an append restores the store exactly, for any non-negative counter. |
| `Markers.AppendCancelsUndo` | MarkApp/PhotoEditorPage.xaml.cs:373-384 | Under the numbering invariant, re-appending the removed marker's position after undo restores the store exactly. |
| `Canvas.Init` | MarkApp/PhotoEditorPage.xaml.cs:19-39 | The freshly constructed page has no photo and no markers, and it satisfies the page invariant. |
| `Canvas.PickPhoto` | MarkApp/PhotoEditorPage.xaml.cs:55-73 | A loaded photo replaces both bitmaps and resets the page: scale 1, offset 0, empty list, counter 0. Mode and drag state are kept. A cancelled pick or a read failure changes nothing. A decoder that returns no bitmap clears only the original bitmap. |
| `Canvas.ToggleMarkMode` | MarkApp/PhotoEditorPage.xaml.cs:84-94 | Without a photo nothing changes. Otherwise only the mark-mode flag flips. |
| `Canvas.Redraw` | MarkApp/PhotoEditorPage.xaml.cs:399-406 | The displayed bitmap becomes the original when there is one and is otherwise left as it is. |
| `Canvas.Undo` | MarkApp/PhotoEditorPage.xaml.cs:96-110 | Undo on an empty list changes nothing. Otherwise the store changes by `UndoLast`, the displayed bitmap is redrawn from the original, and nothing else changes. |
| `Canvas.LocateTouch` | MarkApp/PhotoEditorPage.xaml.cs:321-371 | A located touch requires both bitmaps. The pixel it returns lies on the displayed photo. |
| `Canvas.LocateTouchClosedForm` | MarkApp/PhotoEditorPage.xaml.cs:323-367 | Locating fails exactly when there is no photo, when scale = 0 (inversion fails), or when (touch − offset)/scale falls outside the half-open rectangle. On success it returns that point's pixel. |
| `Canvas.LocateTouchHits` | MarkApp/PhotoEditorPage.xaml.cs:363-371 | With the photo present, a non-zero scale and the unprojected touch inside AddMarker's rectangle, the touch locates that point's pixel. |
| `Canvas.AddMarker` | MarkApp/PhotoEditorPage.xaml.cs:321-389 | In the three early-return cases the page is unchanged. Otherwise the counter goes up by one and one marker is appended at an in-bounds pixel, numbered with the new counter. The earlier markers stay. View, mode and drag state are untouched. |
| `Canvas.Clamp` | MarkApp/PhotoEditorPage.xaml.cs:312 | The result lies in [lo, hi]. It is the value itself when in range, and the nearer bound otherwise. |
| `Canvas.OnTouch` | MarkApp/PhotoEditorPage.xaml.cs:272-319 | A press records the location. It then adds a marker when mark mode is on and the contact flag is clear, and starts a drag otherwise. A move pans by delta/scale only while dragging and is a no-op otherwise. A release clears the drag flag. A wheel event sets the scale to clamp(scale·factor, 0.5, 5) and changes nothing else. Only a marking press can touch the markers. |
| `Canvas.WheelSetsClamp` | MarkApp/PhotoEditorPage.xaml.cs:311-312 | A wheel event replaces the scale by the clamped product of the scale and the wheel factor, and changes nothing else. |
| `Canvas.PanShiftsPicture` | MarkApp/PhotoEditorPage.xaml.cs:292-302 | A move while dragging shifts every point's screen position by delta/scale. |
| `Canvas.PanFollowsFingerIff` | MarkApp/PhotoEditorPage.xaml.cs:296-299 | The picture moves exactly with the finger if and only if scale = 1 or the finger did not move. |
| `Canvas.WheelZoomsAboutOffset` | MarkApp/PhotoEditorPage.xaml.cs:309-314 | A wheel event that changes the scale keeps exactly one screen point over the same photo-side point: the offset. |
| `Canvas.StepKeepsInv` | MarkApp/PhotoEditorPage.xaml.cs:19-39 | Every handler keeps the page invariant, and the invariant makes every handler defined. |
| `Canvas.AddMarkerKeepsInv` | MarkApp/PhotoEditorPage.xaml.cs:366-384 | AddMarker keeps the numbering invariant, and every stored marker stays on the displayed photo. |
| `Canvas.Run` | MarkApp/PhotoEditorPage.xaml.cs:19-39 | Any sequence of events from a state that satisfies the invariant reaches only states that satisfy it. |
| `Canvas.Reachable` | MarkApp/PhotoEditorPage.xaml.cs:19-39 | From the constructed page, after any events, all of these hold: scale in [0.5, 5] (so scale > 0), counter = number of markers, marker i numbered i+1, every marker a pixel of the displayed photo. |
| `Render.Over` | MarkApp/PhotoEditorPage.xaml.cs:227-246 | A drawing size divided by the float image scale: infinite exactly when the scale is 0, and otherwise a value that times the scale gives the size. |
| `Render.MarkerGlyphs` | MarkApp/PhotoEditorPage.xaml.cs:221-270 | One glyph per marker, carrying the marker's number. The centre is the offset plus the marker's pixel position. For a non-zero image scale, radius, stroke width and text size times the scale give 15, 2 and 12, and the baseline sits a third of the text size below the centre. For a zero scale every size is infinite. |
| `Render.ExportGlyphsSitOnPixels` | MarkApp/PhotoEditorPage.xaml.cs:130-138 | On export every marker is drawn centred on its own pixel, with radius 15 and text size 12. |
| `Render.PaintMatrix` | MarkApp/PhotoEditorPage.xaml.cs:203-207 | The paint handler's matrix, built with the truncated integer canvas centre, maps every p to scale·p + offset, the same map AddMarker inverts. |
| `Render.ScreenGlyphs` | MarkApp/PhotoEditorPage.xaml.cs:177-215 | In the paint handler's call, with the paint fit: each glyph carries its marker's number. Its centre is the fitted rectangle's origin plus the unscaled pixel position. Its radius is 15 over the paint factor: infinite when the factor is 0. |
| `Render.ScreenRadius` | MarkApp/PhotoEditorPage.xaml.cs:227 | The drawn radius is infinite if and only if the photo is larger than the canvas along the fitted axis. Otherwise, after the view matrix, it is 15·scale/paintFactor on screen. |
| `Render.ScreenGlyphOverPixelIff` | MarkApp/PhotoEditorPage.xaml.cs:254-257 | A marker drawn by the paint handler sits where DrawBitmap puts its photo pixel if and only if, on each axis, the pixel coordinate is 0 or the painted rectangle is exactly as long as the photo in pixels. |
| `Render.MisplacedExampleFit` | MarkApp/PhotoEditorPage.xaml.cs:177-201 | In the example (250×125 photo, 1000×500 canvas) both handlers fit at factor 4 over (0, 0, 1000, 500). |
| `Render.MisplacedExampleReachable` | MarkApp/PhotoEditorPage.xaml.cs:321-384 | From the constructed page, picking the 250×125 photo, turning on mark mode and tapping (400, 200) on the 1000×500 canvas stores marker 1 at pixel (100, 50). |
| `Render.LocateOnWholeMultiple` | MarkApp/PhotoEditorPage.xaml.cs:363-371 | When the canvas is k times the photo, at zoom 1 and no pan, a touch anywhere on the canvas locates the pixel at the touch's coordinates divided by k. |
| `Render.ExampleTapLocates` | MarkApp/PhotoEditorPage.xaml.cs:363-371 | In the example, the tap at (400, 200) locates pixel (100, 50). |
| `Render.MisplacedPixelDrawnAt` | MarkApp/PhotoEditorPage.xaml.cs:212 | In the example, DrawBitmap puts the photo pixel (100, 50) at (400, 200). |
| `Render.MisplacedGlyphDrawnAt` | MarkApp/PhotoEditorPage.xaml.cs:254-257 | In the example at zoom 1 and no pan, the marker on pixel (100, 50) is drawn at (100, 50) on screen, with radius 3.75. |
| `Render.MisplacedTouchMarksElsewhere` | MarkApp/PhotoEditorPage.xaml.cs:363-371 | In the example, tapping the marker where it is drawn, at (100, 50), locates pixel (25, 12.5), so the next marker lands there. |
| `Render.AnchoredScreenGlyphs` | MarkApp/PhotoEditorPage.xaml.cs:254-257 | Corrected drawing, with the fit computed in float division: each marker is centred where DrawBitmap puts its pixel (origin + position·factor), with finite radius 15 over the factor. |
| `Render.AnchoredGlyphLocatesItsPixel` | MarkApp/PhotoEditorPage.xaml.cs:254-257 | With the corrected drawing, in every state satisfying the page invariant and at any zoom and pan, tapping a marker where it is drawn locates exactly that marker's pixel. |

## Left out

- Photo picking and stream copying are not modelled: they are I/O. `SKBitmap.Decode`, `Copy` and `Encode`, JPEG saving and `Share.RequestAsync` are left out too: they are calls into foreign libraries. A pick is an input (`PickResult`) that says how it ended.
- The Skia drawing calls (`Clear`, `DrawBitmap`, `DrawCircle`, `DrawText`, paints, `SetMatrix`) are left out. Only the marker size and position formulas are modelled, plus where DrawBitmap puts a pixel (`PixelToDest`).
- `Math.Pow(2, -WheelDelta/10)` is floating-point numerics. The wheel event carries that factor as an arbitrary real, and only the multiplication and the clamp are modelled.
- `DisplayAlert`, `MainThread.BeginInvokeOnMainThread`, button text, `InvalidateSurface` and `e.Handled` are UI plumbing and are left out.
- The catch block of `AddMarker` is not modelled: none of the modelled arithmetic throws over reals. The pick handler's catch is modelled only as an outcome: a read that throws (`PickResult.ReadFailed`) leaves the page unchanged, and the alert it shows is left out.
- `e.InContact` is an opaque boolean input of a press.
- The touch actions Entered, Exited and Cancelled are not modelled because the handler's switch has no case for them. They change no state, and the model likewise has no event for them. In particular, a cancelled touch leaves the drag flag set until the next release.
- EditPhotoPage, MauiProgram, MainActivity and MainPage are not part of this model. They are a wrapper over an image-editor control, app bootstrap, Android permission requests and navigation, with no logic of their own here.
- Floats are modelled as exact reals. Rounding of 32-bit floats is not modelled. For example, a touch just inside the right edge could round to the image width in floats; in the model that pixel is strictly less than the width.
- `Matrix.TryInvert`: Skia's tolerance for nearly singular matrices is not modelled; the model fails only on an exactly zero determinant. On reachable states the determinant is scale² ≥ 0.25, so this makes no difference there.
- `Canvas.OnTouch`: a drag move requires scale ≠ 0. The source would divide by zero and get an IEEE infinity or NaN. The invariant rules that state out (`Canvas.StepKeepsInv`).
- `Geometry.Size`: canvas dimensions are positive reals. The source would divide by a zero height before layout.
- `Geometry.Bitmap`: bitmap dimensions are positive integers.
- `Markers.Append`: `currentMarkNumber` is an unbounded integer. Wrap-around of the 32-bit counter after 2³¹ markers is not modelled.
- The paint handler makes no state change. It is modelled only through `Fitting.PaintFit`, `Render.PaintMatrix` and `Render.ScreenGlyphs`.
- The two canvas sizes are separate inputs. A touch carries the view's float `CanvasSize` (`Geometry.Size`), and the paint functions take the surface's integer size (`Geometry.PixelSize`). The model does not relate the two. The examples and `Render.AnchoredGlyphLocatesItsPixel` take the float size to be the integer size converted.
- `Render.ScreenGlyphs`: states the centre, number and radius of each glyph. Stroke width, text size and baseline follow `Render.MarkerGlyphs` with the paint factor and are not restated.
- `Render.AnchoredScreenGlyphs`: states only the centre and the radius of the corrected drawing; the other sizes are as in `Render.MarkerGlyphs`.

## Findings

| source | as written | input that shows it | evidently intended | confidence | as-written member | corrected member |
|---|---|---|---|---|---|---|
| MarkApp/PhotoEditorPage.xaml.cs:254-257 | On screen a marker is drawn at destRect's origin plus its image-pixel position. The position is not multiplied by the fit factor `scaleX`, which is passed in as `imageScale`. | A 250×125 photo on a 1000×500 canvas, where both handlers fit at factor 4 over (0, 0, 1000, 500), at zoom 1 and no pan. A tap at (400, 200) stores marker 1 at pixel (100, 50). DrawBitmap puts that pixel at (400, 200), but the marker is drawn at (100, 50) with radius 3.75. Tapping the marker there stores pixel (25, 12.5). | The marker is centred where DrawBitmap puts its pixel, origin + position·scaleX, and the fit uses float division at :181, :189 and :197 as AddMarker does. A tap on the marker then locates its own pixel at any zoom and pan. | likely; not executed | `Render.MisplacedGlyphDrawnAt` | `Render.AnchoredGlyphLocatesItsPixel` |
| MarkApp/PhotoEditorPage.xaml.cs:181-197 | `canvasSize` is `e.Info.Size`, an integer size. So the canvas aspect ratio (:181) and the factor (:189, :197) are int / int divisions that truncate before the result is stored as a float. | A 4032×3024 photo on a 1080×1920 canvas: the factor is 0 and the rectangle is the line (0, 960, 1080, 960). The photo is not drawn and every marker radius is 15/0f, infinite. A 500×1000 photo on the same canvas is fitted at 2 and overflows it by 40 at the top and bottom. | Float division, as in AddMarker's computation over `canvasView.CanvasSize` (:329-349): the rectangle then lies inside the canvas and keeps the photo's aspect ratio. | likely; not executed | `Fitting.PhonePhotoVanishes` | `Fitting.FitToCanvas` |
