/** The pure size and position formulas of DrawMarkersOnCanvas, which the
    paint handler calls with its truncated fit factor and its rectangle's
    origin, and the save handler calls with 1 and the origin. */
module Render {

  import opened Maybe
  import opened Geometry
  import opened Matrix
  import opened Fitting
  import opened View
  import opened Markers
  import opened Canvas

  /** The drawing sizes, in canvas units before division by the image
      scale. */
  const CircleRadius: real := 15.0
  const StrokeWidth: real := 2.0
  const TextSize: real := 12.0

  /** A drawing size as a float: a positive constant divided by a zero
      float image scale is positive infinity. */
  datatype Length = Finite(value: real) | Infinite

  /** A drawing size divided by the image scale. */
  function Over(size: real, imageScale: real): (l: Length)
    ensures l.Infinite? <==> imageScale == 0.0
    ensures l.Finite? ==> l.value * imageScale == size
  {
    if imageScale == 0.0 then Infinite else Finite(size / imageScale)
  }

  /** What is drawn for one marker: a filled and a stroked circle around
      `center`, and its number centred horizontally on `center.x` with its
      baseline at `baseline`. */
  datatype Glyph = Glyph(center: Point, radius: Length, strokeWidth: Length,
                         textSize: Length, baseline: Length, number: int)

  function GlyphAt(m: Marker, imageScale: real, center: Point): Glyph {
    var textSize := Over(TextSize, imageScale);
    Glyph(center, Over(CircleRadius, imageScale), Over(StrokeWidth, imageScale), textSize,
          if textSize.Infinite? then Infinite else Finite(center.y + textSize.value / 3.0),
          m.number)
  }

  /** DrawMarkersOnCanvas as written: each marker's pixel position is
      added to `imageOffset` as it is, and every size is divided by
      `imageScale`; a zero scale makes every size infinite. */
  function MarkerGlyphs(markers: seq<Marker>, imageScale: real, imageOffset: Point): (g: seq<Glyph>)
    ensures |g| == |markers|
    ensures forall i :: 0 <= i < |g| ==>
      && g[i].number == markers[i].number
      && g[i].center.x - imageOffset.x == markers[i].position.x
      && g[i].center.y - imageOffset.y == markers[i].position.y
    ensures imageScale != 0.0 ==> forall i :: 0 <= i < |g| ==>
      && g[i].radius.Finite? && g[i].radius.value * imageScale == CircleRadius
      && g[i].strokeWidth.Finite? && g[i].strokeWidth.value * imageScale == StrokeWidth
      && g[i].textSize.Finite? && g[i].textSize.value * imageScale == TextSize
      && g[i].baseline.Finite? && 3.0 * (g[i].baseline.value - g[i].center.y) == g[i].textSize.value
    ensures imageScale == 0.0 ==> forall i :: 0 <= i < |g| ==>
      && g[i].radius == Infinite && g[i].strokeWidth == Infinite
      && g[i].textSize == Infinite && g[i].baseline == Infinite
  {
    seq(|markers|, i requires 0 <= i < |markers| =>
      GlyphAt(markers[i], imageScale,
              Point(imageOffset.x + markers[i].position.x, imageOffset.y + markers[i].position.y)))
  }

  /** The save handler's call: on the full-size bitmap every marker is
      drawn centred on its own pixel with the unscaled sizes. */
  lemma ExportGlyphsSitOnPixels(markers: seq<Marker>)
    ensures var g := MarkerGlyphs(markers, 1.0, Point(0.0, 0.0));
      forall i :: 0 <= i < |g| ==>
        && g[i].center == markers[i].position
        && g[i].radius == Finite(CircleRadius)
        && g[i].textSize == Finite(TextSize)
  {
    var g := MarkerGlyphs(markers, 1.0, Point(0.0, 0.0));
    forall i | 0 <= i < |g|
      ensures g[i].center == markers[i].position
    {
      assert g[i].center.x == markers[i].position.x;
      assert g[i].center.y == markers[i].position.y;
    }
  }

  /** The paint handler's view matrix: its centre halves the integer
      canvas size with truncation, which the net effect does not see. */
  function PaintMatrix(s: CanvasState, canvas: PixelSize): (m: Affine)
    ensures forall p {:trigger MapPoint(m, p)} :: MapPoint(m, p) == Project(s.scale, s.offset, p)
  {
    ViewMatrix(s.scale, Point((canvas.width / 2) as real, (canvas.height / 2) as real), s.offset)
  }

  /** The paint handler's call: its truncated fit factor and its
      rectangle's origin. The drawing then passes through PaintMatrix. */
  function ScreenGlyphs(s: CanvasState, canvas: PixelSize): (g: seq<Glyph>)
    requires s.display.Some?
    ensures var fit := PaintFit(s.display.value, canvas);
      && |g| == |s.store.markers|
      && (forall i :: 0 <= i < |g| ==>
        && g[i].number == s.store.markers[i].number
        && g[i].center == Point(fit.dest.left + s.store.markers[i].position.x,
                                fit.dest.top + s.store.markers[i].position.y))
      && (forall i :: 0 <= i < |g| ==> g[i].radius == Over(CircleRadius, fit.factor))
  {
    var fit := PaintFit(s.display.value, canvas);
    var g := MarkerGlyphs(s.store.markers, fit.factor, Point(fit.dest.left, fit.dest.top));
    assert forall i :: 0 <= i < |g| ==>
      g[i].center == Point(fit.dest.left + s.store.markers[i].position.x,
                           fit.dest.top + s.store.markers[i].position.y);
    g
  }

  /** On screen a circle's radius is 15 times the zoom over the paint
      factor, and it is infinite exactly when the photo is larger than the
      canvas along the fitted axis. */
  lemma ScreenRadius(s: CanvasState, canvas: PixelSize, i: nat)
    requires s.display.Some? && i < |s.store.markers|
    ensures ScreenGlyphs(s, canvas)[i].radius.Infinite? <==> ExceedsFittedAxis(s.display.value, canvas)
    ensures var fit, r := PaintFit(s.display.value, canvas), ScreenGlyphs(s, canvas)[i].radius;
      r.Finite? ==> s.scale * r.value == CircleRadius * s.scale / fit.factor
  {
    PaintFitVanishes(s.display.value, canvas);
  }

  /** A marker drawn by the paint handler sits over the photo pixel it
      names exactly when, along each axis, the pixel coordinate is zero or
      the drawn rectangle is as long as the photo in pixels. */
  lemma ScreenGlyphOverPixelIff(s: CanvasState, canvas: PixelSize, i: nat)
    requires s.display.Some? && i < |s.store.markers|
    ensures var dest, image, pos := PaintFit(s.display.value, canvas).dest, s.display.value,
                                    s.store.markers[i].position;
      ScreenGlyphs(s, canvas)[i].center == PixelToDest(dest, image, pos)
      <==> (pos.x == 0.0 || dest.Width() == image.W()) && (pos.y == 0.0 || dest.Height() == image.H())
  {
    var dest, image, pos := PaintFit(s.display.value, canvas).dest, s.display.value,
                            s.store.markers[i].position;
    var center := ScreenGlyphs(s, canvas)[i].center;
    assert center == Point(dest.left + pos.x, dest.top + pos.y);
    ShiftedCenterVsDrawnPixel(dest, image, pos, center);
  }

  /** A centre obtained by shifting a pixel position by the rectangle's
      origin, against where DrawBitmap puts that pixel. */
  lemma ShiftedCenterVsDrawnPixel(dest: Rect, image: Bitmap, pos: Point, center: Point)
    requires center == Point(dest.left + pos.x, dest.top + pos.y)
    ensures center == PixelToDest(dest, image, pos)
      <==> (pos.x == 0.0 || dest.Width() == image.W()) && (pos.y == 0.0 || dest.Height() == image.H())
  {
    ShiftOrRescale(dest.left, pos.x, image.W(), dest.Width());
    ShiftOrRescale(dest.top, pos.y, image.H(), dest.Height());
  }

  /** Adding a length to an origin agrees with adding it rescaled from n to
      size exactly when the length is zero or the two sizes are equal. */
  lemma ShiftOrRescale(origin: real, a: real, n: real, size: real)
    requires n > 0.0
    ensures origin + a == origin + a / n * size <==> a == 0.0 || size == n
  {
    var t := a / n;
    assert a == t * n;
    if t * size == t * n && a != 0.0 {
      assert t * (size - n) == 0.0;
    }
  }

  /** The example of the finding: a 250x125 photo on a 1000x500 canvas.
      Both handlers fit it at factor 4 over the whole canvas. The user
      picks it, turns on mark mode and taps the photo at (400, 200). */
  const ExamplePhoto: Bitmap := Bitmap(250, 125)
  const ExampleCanvas: PixelSize := PixelSize(1000, 500)
  const ExampleTap: Point := Point(400.0, 200.0)
  const ExampleMarker: Marker := Marker(Point(100.0, 50.0), 1)

  function ExampleActions(): seq<Action> {
    [Pick(Loaded(ExamplePhoto)), ToggleMode, Touch(ExampleCanvas.AsSize(), Pressed(ExampleTap, false))]
  }

  function MisplacedExample(): CanvasState {
    CanvasState(true, Store([ExampleMarker], 1), Some(ExamplePhoto), Some(ExamplePhoto),
                1.0, Point(0.0, 0.0), ExampleTap, false)
  }

  /** Both handlers fit the example photo at factor 4 over the whole
      canvas. */
  lemma MisplacedExampleFit(image: Bitmap, canvas: PixelSize)
    requires image == ExamplePhoto && canvas == ExampleCanvas
    ensures PaintFit(image, canvas) == Fit(4.0, Rect(0.0, 0.0, 1000.0, 500.0))
    ensures FitToCanvas(image, canvas.AsSize()) == Fit(4.0, Rect(0.0, 0.0, 1000.0, 500.0))
  {
    PaintFitAgreesOnWholeMultiples(image, canvas);
  }

  /** The example photo shown at unit zoom with no pan. */
  predicate ShowsExampleAtRest(s: CanvasState) {
    s.original.Some? && s.display == Some(ExamplePhoto) && s.scale == 1.0 && s.offset == Point(0.0, 0.0)
  }

  /** The tap stores marker 1 at pixel (100, 50): the example state is
      what the page reaches from its constructed state. */
  lemma MisplacedExampleReachable(actions: seq<Action>)
    requires actions == ExampleActions()
    ensures Run(Init(), actions) == MisplacedExample()
  {
    var photo := Some(ExamplePhoto);
    var loaded := CanvasState(false, Store([], 0), photo, photo, 1.0, Point(0.0, 0.0), Point(0.0, 0.0), false);
    var marking := loaded.(markMode := true);
    var tap := Touch(ExampleCanvas.AsSize(), Pressed(ExampleTap, false));
    assert PickPhoto(Init(), Loaded(ExamplePhoto)) == loaded;
    assert ToggleMarkMode(loaded) == marking;
    ExampleTapLocates(marking);
    assert OnTouch(marking, ExampleCanvas.AsSize(), Pressed(ExampleTap, false)) == MisplacedExample();
    assert actions[1..] == [ToggleMode, tap];
    assert Run(Init(), actions) == Run(loaded, [ToggleMode, tap]);
    assert [ToggleMode, tap][1..] == [tap];
    assert Run(loaded, [ToggleMode, tap]) == Run(marking, [tap]);
    assert [tap][1..] == [];
  }

  /** When the canvas is exactly k times the photo, at unit zoom and no
      pan a touch anywhere on the canvas locates the pixel at 1/k of the
      touch's coordinates. */
  lemma LocateOnWholeMultiple(s: CanvasState, canvas: Size, k: real, touch: Point)
    requires s.original.Some? && s.display.Some? && s.scale == 1.0 && s.offset == Point(0.0, 0.0)
    requires k > 0.0 && canvas.width == k * s.display.value.W() && canvas.height == k * s.display.value.H()
    requires 0.0 <= touch.x < canvas.width && 0.0 <= touch.y < canvas.height
    ensures LocateTouch(s, canvas, touch) == Some(Point(touch.x / k, touch.y / k))
  {
    var image := s.display.value;
    var dest := Rect(0.0, 0.0, canvas.width, canvas.height);
    FitOnWholeMultiple(image, canvas, k);
    assert Unproject(s.scale, s.offset, touch) == touch;
    LocateTouchHits(s, canvas, touch, dest, touch);
    PixelOfWholeMultiple(dest, image, k, touch);
  }

  /** On a rectangle at the origin k times the size of the photo, a
      contained point's pixel is the point scaled down by k. */
  lemma PixelOfWholeMultiple(dest: Rect, image: Bitmap, k: real, q: Point)
    requires k > 0.0 && dest == Rect(0.0, 0.0, k * image.W(), k * image.H())
    requires dest.Contains(q)
    ensures DestToPixel(dest, image, q) == Point(q.x / k, q.y / k)
  {
    ShareOfMultiple(q.x, k, image.W());
    ShareOfMultiple(q.y, k, image.H());
  }

  /** a over k times n, times n, is a over k. */
  lemma ShareOfMultiple(a: real, k: real, n: real)
    requires k > 0.0 && n > 0.0
    ensures a / (k * n) * n == a / k
  {
    assert a / (k * n) * (k * n) == a;
  }

  /** At unit zoom and no pan, the example's tap locates pixel (100, 50). */
  lemma ExampleTapLocates(s: CanvasState)
    requires ShowsExampleAtRest(s)
    ensures LocateTouch(s, ExampleCanvas.AsSize(), ExampleTap) == Some(ExampleMarker.position)
  {
    LocateOnWholeMultiple(s, ExampleCanvas.AsSize(), 4.0, ExampleTap);
  }

  /** In the example DrawBitmap puts the marker's pixel at the tapped
      point (400, 200)... */
  lemma MisplacedPixelDrawnAt(s: CanvasState)
    requires ShowsExampleAtRest(s) && s.store.markers == [ExampleMarker]
    ensures PixelToDest(PaintFit(s.display.value, ExampleCanvas).dest, s.display.value,
                        s.store.markers[0].position) == ExampleTap
  {
    var image, pos := s.display.value, s.store.markers[0].position;
    MisplacedExampleFit(image, ExampleCanvas);
    PixelDrawnOnWholeMultiple(PaintFit(image, ExampleCanvas).dest, image, 4.0, pos);
  }

  /** On a rectangle at the origin k times the size of the photo, DrawBitmap
      puts a pixel at its coordinates times k. */
  lemma PixelDrawnOnWholeMultiple(dest: Rect, image: Bitmap, k: real, p: Point)
    requires k > 0.0 && dest == Rect(0.0, 0.0, k * image.W(), k * image.H())
    ensures PixelToDest(dest, image, p) == Point(k * p.x, k * p.y)
  {
    ShareTimesMultiple(p.x, k, image.W());
    ShareTimesMultiple(p.y, k, image.H());
  }

  /** a over n, times k times n, is k times a. */
  lemma ShareTimesMultiple(a: real, k: real, n: real)
    requires n > 0.0
    ensures a / n * (k * n) == k * a
  {
    assert a / n * n == a;
  }

  /** ... but the paint handler draws the marker at (100, 50), with
      radius 15/4, and at unit zoom and no pan that is also its screen
      position. */
  lemma MisplacedGlyphDrawnAt(s: CanvasState)
    requires ShowsExampleAtRest(s) && s.store.markers == [ExampleMarker]
    ensures var g := ScreenGlyphs(s, ExampleCanvas)[0];
      && g.center == Point(100.0, 50.0)
      && g.radius == Finite(3.75)
      && Project(s.scale, s.offset, g.center) == Point(100.0, 50.0)
  {
    MisplacedExampleFit(s.display.value, ExampleCanvas);
  }

  /** Tapping the marker where it is drawn locates a different pixel,
      (25, 12.5), so the next marker lands there. */
  lemma MisplacedTouchMarksElsewhere(s: CanvasState)
    requires ShowsExampleAtRest(s)
    ensures LocateTouch(s, ExampleCanvas.AsSize(), Point(100.0, 50.0)) == Some(Point(25.0, 12.5))
  {
    LocateOnWholeMultiple(s, ExampleCanvas.AsSize(), 4.0, Point(100.0, 50.0));
  }

  /** The intended drawing: the fit computed with float division as in
      AddMarker, and each marker centred where DrawBitmap puts its pixel
      inside that rectangle. Every size is finite. */
  function AnchoredScreenGlyphs(s: CanvasState, canvas: PixelSize): (g: seq<Glyph>)
    requires s.display.Some?
    ensures var fit := FitToCanvas(s.display.value, canvas.AsSize());
      && |g| == |s.store.markers|
      && forall i :: 0 <= i < |g| ==>
        && g[i].center == PixelToDest(fit.dest, s.display.value, s.store.markers[i].position)
        && g[i].radius == Over(CircleRadius, fit.factor) && g[i].radius.Finite?
  {
    var image := s.display.value;
    var fit := FitToCanvas(image, canvas.AsSize());
    seq(|s.store.markers|, i requires 0 <= i < |s.store.markers| =>
      GlyphAt(s.store.markers[i], fit.factor, PixelToDest(fit.dest, image, s.store.markers[i].position)))
  }

  /** With the intended drawing markers stay anchored: touching the screen
      point where a marker is drawn, at any zoom and pan, locates exactly
      that marker's pixel. */
  lemma AnchoredGlyphLocatesItsPixel(s: CanvasState, canvas: PixelSize, i: nat)
    requires Inv(s) && s.original.Some?
    requires i < |s.store.markers|
    ensures s.display.Some?
    ensures LocateTouch(s, canvas.AsSize(), Project(s.scale, s.offset, AnchoredScreenGlyphs(s, canvas)[i].center))
         == Some(s.store.markers[i].position)
  {
    var image := s.display.value;
    var fit := FitToCanvas(image, canvas.AsSize());
    var pos := s.store.markers[i].position;
    var center := AnchoredScreenGlyphs(s, canvas)[i].center;
    var touch := Project(s.scale, s.offset, center);
    DestToPixelInvertsPixelToDest(fit.dest, image, pos);
    UnprojectProject(s.scale, s.offset, center);
    LocateTouchClosedForm(s, canvas.AsSize(), touch);
  }
}
