/** The state of the photo editor page and its event handlers: picking a
    photo, toggling mark mode, undo, and the touch handler with its press /
    move / release / wheel transitions, including AddMarker. Each handler
    is a pure function from the page state to the next page state. */
module Canvas {

  import opened Maybe
  import opened Geometry
  import opened Matrix
  import opened Fitting
  import opened View
  import opened Markers

  /** The zoom limits of the wheel handler. */
  const MinScale: real := 0.5
  const MaxScale: real := 5.0

  /** The fields of the page the handlers read and write. `original` and
      `display` are the two bitmap references; `scale` and `offset` are the
      user's view transform; `lastTouch` and `dragging` track a pan. */
  datatype CanvasState = CanvasState(
    markMode: bool,
    store: Store,
    original: Option<Bitmap>,
    display: Option<Bitmap>,
    scale: real,
    offset: Point,
    lastTouch: Point,
    dragging: bool)

  /** What the page keeps true between events: the zoom stays within its
      limits, markers are numbered 1, 2, ... with the counter equal to
      their count, the displayed bitmap is a copy of the original whenever
      there is one, and every marker lies on the displayed bitmap. */
  predicate Inv(s: CanvasState) {
    && MinScale <= s.scale <= MaxScale
    && Numbered(s.store)
    && (s.original.Some? ==> s.display == s.original)
    && (s.display.None? ==> s.store.markers == [])
    && (s.display.Some? ==>
          forall i :: 0 <= i < |s.store.markers| ==> s.display.value.Holds(s.store.markers[i].position))
  }

  /** The page as constructed: no photo, no markers, unit zoom, no pan. */
  function Init(): (s: CanvasState)
    ensures Inv(s)
    ensures s.original.None? && s.display.None? && s.store.markers == []
  {
    CanvasState(false, Empty(), None, None, 1.0, Point(0.0, 0.0), Point(0.0, 0.0), false)
  }

  /** How picking a photo ended. `ReadFailed` is an exception before the
      decoded bitmap is stored; `DecodeFailed` is a decoder that returned
      no bitmap, after which copying it throws. */
  datatype PickResult = Cancelled | ReadFailed | DecodeFailed | Loaded(bitmap: Bitmap)

  /** OnPickPhotoClicked. A loaded photo replaces both bitmaps and resets
      the view and the markers. A decoder that returns no bitmap still
      clears `original` before the copy throws, so the old picture stays
      on screen with its markers, but marking and mode changes stop. */
  function PickPhoto(s: CanvasState, r: PickResult): (t: CanvasState)
    ensures r.Loaded? ==>
      && t.original == Some(r.bitmap) && t.display == Some(r.bitmap)
      && t.scale == 1.0 && t.offset == Point(0.0, 0.0)
      && t.store.markers == [] && t.store.counter == 0
      && t.markMode == s.markMode && t.dragging == s.dragging && t.lastTouch == s.lastTouch
    ensures r.DecodeFailed? ==> t.original.None? && t.(original := s.original) == s
    ensures r.Cancelled? || r.ReadFailed? ==> t == s
  {
    match r
    case Cancelled => s
    case ReadFailed => s
    case DecodeFailed => s.(original := None)
    case Loaded(bmp) =>
      s.(original := Some(bmp), display := Some(bmp), scale := 1.0,
         offset := Point(0.0, 0.0), store := Empty())
  }

  /** OnMarkModeClicked: without a photo nothing changes, otherwise mark
      mode flips. */
  function ToggleMarkMode(s: CanvasState): (t: CanvasState)
    ensures s.original.None? ==> t == s
    ensures s.original.Some? ==> t.markMode != s.markMode && t.(markMode := s.markMode) == s
  {
    if s.original.None? then s else s.(markMode := !s.markMode)
  }

  /** RedrawImage: the displayed bitmap becomes a fresh copy of the
      original when there is one. */
  function Redraw(s: CanvasState): (r: Option<Bitmap>)
    ensures s.original.Some? ==> r == s.original
    ensures s.original.None? ==> r == s.display
  {
    if s.original.Some? then s.original else s.display
  }

  /** OnUndoClicked: on an empty list nothing changes; otherwise the last
      marker goes, the counter drops by one if positive, and the displayed
      bitmap is redrawn. View and mode are untouched. */
  function Undo(s: CanvasState): (t: CanvasState)
    ensures |s.store.markers| == 0 ==> t == s
    ensures |s.store.markers| > 0 ==>
      && t.store == UndoLast(s.store)
      && t.display == Redraw(s)
      && t.(store := s.store, display := s.display) == s
  {
    if |s.store.markers| > 0 then s.(store := UndoLast(s.store), display := Redraw(s)) else s
  }

  /** AddMarker's canvas centre: half its float canvas size. */
  function Center(canvas: Size): Point {
    Point(canvas.width / 2.0, canvas.height / 2.0)
  }

  /** The first half of AddMarker: the image pixel under a touch, or None
      when there is no photo, the view matrix cannot be inverted, or the
      inverse-mapped touch falls outside the fitted rectangle. */
  function LocateTouch(s: CanvasState, canvas: Size, touch: Point): (r: Option<Point>)
    ensures r.Some? ==> s.original.Some? && s.display.Some? && s.display.value.Holds(r.value)
  {
    if s.original.None? || s.display.None? then None
    else
      var image := s.display.value;
      var fit := FitToCanvas(image, canvas);
      match TryInvert(ViewMatrix(s.scale, Center(canvas), s.offset))
      case None => None
      case Some(inverse) =>
        var q := MapPoint(inverse, touch);
        if fit.dest.Contains(q) then Some(DestToPixel(fit.dest, image, q)) else None
  }

  /** LocateTouch without matrices: the touch is unprojected with
      (touch - offset) / scale and must land in the fitted rectangle. The
      lookup fails exactly in the three early returns of AddMarker. */
  lemma LocateTouchClosedForm(s: CanvasState, canvas: Size, touch: Point)
    ensures LocateTouch(s, canvas, touch).None? <==>
      || s.original.None? || s.display.None? || s.scale == 0.0
      || !FitToCanvas(s.display.value, canvas).dest.Contains(Unproject(s.scale, s.offset, touch))
    ensures LocateTouch(s, canvas, touch).Some? ==>
      var dest := FitToCanvas(s.display.value, canvas).dest;
      && dest.Contains(Unproject(s.scale, s.offset, touch))
      && LocateTouch(s, canvas, touch).value
         == DestToPixel(dest, s.display.value, Unproject(s.scale, s.offset, touch))
  {
    ViewInvertibleIff(s.scale, Center(canvas), s.offset);
    if s.scale != 0.0 {
      ViewInverseIsUnproject(s.scale, Center(canvas), s.offset, touch);
    }
  }

  /** When the photo is there, the zoom is not zero and the unprojected
      touch lands in the fitted rectangle, the touch locates that point's
      pixel. */
  lemma LocateTouchHits(s: CanvasState, canvas: Size, touch: Point, dest: Rect, q: Point)
    requires s.original.Some? && s.display.Some? && s.scale != 0.0
    requires dest == FitToCanvas(s.display.value, canvas).dest
    requires q == Unproject(s.scale, s.offset, touch) && dest.Contains(q)
    ensures LocateTouch(s, canvas, touch) == Some(DestToPixel(dest, s.display.value, q))
  {
    LocateTouchClosedForm(s, canvas, touch);
  }

  /** AddMarker. In the three early-return cases the page is unchanged;
      otherwise the counter goes up by one, exactly one marker is appended
      at the touched pixel with the new counter as its number, the earlier
      markers are kept, and the displayed bitmap is redrawn from the
      original. The view, the mode and the pan state are untouched. */
  function AddMarker(s: CanvasState, canvas: Size, touch: Point): (t: CanvasState)
    ensures LocateTouch(s, canvas, touch).None? ==> t == s
    ensures LocateTouch(s, canvas, touch).Some? ==>
      var n := |s.store.markers|;
      var p := LocateTouch(s, canvas, touch).value;
      && t.store.counter == s.store.counter + 1
      && |t.store.markers| == n + 1
      && t.store.markers[..n] == s.store.markers
      && t.store.markers[n] == Marker(p, t.store.counter)
      && s.display.value.Holds(t.store.markers[n].position)
      && t.display == s.original
      && t.(store := s.store, display := s.display) == s
  {
    match LocateTouch(s, canvas, touch)
    case None => s
    case Some(p) => s.(store := Append(s.store, p), display := Redraw(s))
  }

  /** Math.Clamp: the value itself when it lies within the bounds, the
      nearer bound otherwise. */
  function Clamp(v: real, lo: real, hi: real): (r: real)
    requires lo <= hi
    ensures lo <= r <= hi
    ensures lo <= v <= hi ==> r == v
    ensures v < lo ==> r == lo
    ensures v > hi ==> r == hi
  {
    if v < lo then lo else if v > hi then hi else v
  }

  /** The touch events the handler distinguishes. `inContact` is the
      event's contact flag; `factor` stands for the wheel's power-of-two
      zoom factor, which is not modelled. */
  datatype TouchEvent =
    | Pressed(location: Point, inContact: bool)
    | Moved(location: Point)
    | Released
    | WheelChanged(factor: real)

  /** A move while dragging divides by the zoom. */
  predicate TouchDefined(s: CanvasState, ev: TouchEvent) {
    ev.Moved? && s.dragging ==> s.scale != 0.0
  }

  /** OnCanvasViewTouch. A press records the location and either adds a
      marker (mark mode, contact flag clear) or starts a drag; a move pans
      by the finger's delta divided by the zoom, but only while dragging; a
      release ends the drag; a wheel event sets the clamped scale. */
  function OnTouch(s: CanvasState, canvas: Size, ev: TouchEvent): (t: CanvasState)
    requires TouchDefined(s, ev)
    ensures ev.Pressed? ==> t.lastTouch == ev.location
    ensures ev.Pressed? && !(s.markMode && !ev.inContact) ==>
      t == s.(lastTouch := ev.location, dragging := true)
    ensures ev.Pressed? && s.markMode && !ev.inContact ==>
      t == AddMarker(s.(lastTouch := ev.location), canvas, ev.location)
    ensures ev.Moved? && !s.dragging ==> t == s
    ensures ev.Moved? && s.dragging ==>
      && t.offset.x - s.offset.x == (ev.location.x - s.lastTouch.x) / s.scale
      && t.offset.y - s.offset.y == (ev.location.y - s.lastTouch.y) / s.scale
      && t == s.(offset := t.offset, lastTouch := ev.location)
    ensures ev.Released? ==> !t.dragging && t.(dragging := s.dragging) == s
    ensures ev.WheelChanged? ==> t == s.(scale := Clamp(s.scale * ev.factor, MinScale, MaxScale))
    ensures !(ev.Pressed? && s.markMode && !ev.inContact) ==> t.store == s.store
  {
    match ev
    case Pressed(location, inContact) =>
      var pressed := s.(lastTouch := location);
      if s.markMode && !inContact then AddMarker(pressed, canvas, location)
      else pressed.(dragging := true)
    case Moved(location) =>
      if s.dragging then
        s.(offset := Point(s.offset.x + (location.x - s.lastTouch.x) / s.scale,
                           s.offset.y + (location.y - s.lastTouch.y) / s.scale),
           lastTouch := location)
      else s
    case Released => s.(dragging := false)
    case WheelChanged(_) => s.(scale := Clamp(s.scale * ev.factor, MinScale, MaxScale))
  }

  /** A move while dragging shifts the whole picture on screen by the
      finger's delta divided by the zoom. */
  lemma PanShiftsPicture(s: CanvasState, canvas: Size, location: Point, p: Point)
    requires s.dragging && s.scale != 0.0
    ensures var t := OnTouch(s, canvas, Moved(location));
      && Project(t.scale, t.offset, p).x
         == Project(s.scale, s.offset, p).x + (location.x - s.lastTouch.x) / s.scale
      && Project(t.scale, t.offset, p).y
         == Project(s.scale, s.offset, p).y + (location.y - s.lastTouch.y) / s.scale
  {
  }

  /** The picture follows the finger exactly only at unit zoom (or when the
      finger did not move): at any other zoom a pan drifts against it. */
  lemma PanFollowsFingerIff(s: CanvasState, canvas: Size, location: Point, p: Point)
    requires s.dragging && s.scale != 0.0
    ensures var t := OnTouch(s, canvas, Moved(location));
      (Project(t.scale, t.offset, p).x - Project(s.scale, s.offset, p).x == location.x - s.lastTouch.x
       && Project(t.scale, t.offset, p).y - Project(s.scale, s.offset, p).y == location.y - s.lastTouch.y)
      <==> (s.scale == 1.0 || location == s.lastTouch)
  {
    PanShiftsPicture(s, canvas, location, p);
    QuotientIsSelf(location.x - s.lastTouch.x, s.scale);
    QuotientIsSelf(location.y - s.lastTouch.y, s.scale);
  }

  /** a / k == a exactly when a is zero or k is one. */
  lemma QuotientIsSelf(a: real, k: real)
    requires k != 0.0
    ensures a / k == a <==> a == 0.0 || k == 1.0
  {
    if a / k == a && a != 0.0 {
      assert a == (a / k) * k;
      assert a * (k - 1.0) == 0.0;
    }
  }

  /** A wheel event that changes the zoom keeps the offset, so it zooms
      about the screen point at the offset: that point, and no other,
      stays over the same point of the picture. */
  lemma WheelZoomsAboutOffset(s: CanvasState, canvas: Size, factor: real, q: Point)
    requires MinScale <= s.scale <= MaxScale
    requires Clamp(s.scale * factor, MinScale, MaxScale) != s.scale
    ensures var t := OnTouch(s, canvas, WheelChanged(factor));
      Unproject(t.scale, t.offset, q) == Unproject(s.scale, s.offset, q) <==> q == s.offset
  {
    var zoomed := Clamp(s.scale * factor, MinScale, MaxScale);
    ZoomFixesOnlyOffset(zoomed, s.scale, s.offset, q);
    WheelSetsClamp(s, canvas, factor, s.scale * factor);
  }

  /** A wheel event sets the scale to the clamped product and nothing
      else; `zoomed` names the product so that the solver can match it. */
  lemma WheelSetsClamp(s: CanvasState, canvas: Size, factor: real, zoomed: real)
    requires zoomed == s.scale * factor
    ensures OnTouch(s, canvas, WheelChanged(factor)) == s.(scale := Clamp(zoomed, MinScale, MaxScale))
  {
  }

  /** The user-driven events of the page. A touch carries the canvas size
      the handler reads at that moment. */
  datatype Action =
    | Pick(result: PickResult)
    | ToggleMode
    | UndoClicked
    | Touch(canvas: Size, event: TouchEvent)

  predicate StepDefined(s: CanvasState, a: Action) {
    a.Touch? ==> TouchDefined(s, a.event)
  }

  function Step(s: CanvasState, a: Action): CanvasState
    requires StepDefined(s, a)
  {
    match a
    case Pick(r) => PickPhoto(s, r)
    case ToggleMode => ToggleMarkMode(s)
    case UndoClicked => Undo(s)
    case Touch(canvas, ev) => OnTouch(s, canvas, ev)
  }

  /** Every handler keeps the invariant, and the invariant makes every
      handler defined. */
  lemma StepKeepsInv(s: CanvasState, a: Action)
    requires Inv(s)
    ensures StepDefined(s, a)
    ensures Inv(Step(s, a))
  {
    match a
    case Pick(r) =>
    case ToggleMode =>
    case UndoClicked =>
      UndoKeepsNumbered(s.store);
    case Touch(canvas, ev) =>
      match ev
      case Pressed(location, inContact) =>
        var pressed := s.(lastTouch := location);
        if s.markMode && !inContact {
          AddMarkerKeepsInv(pressed, canvas, location);
        }
      case Moved(_) =>
      case Released =>
      case WheelChanged(_) =>
  }

  lemma AddMarkerKeepsInv(s: CanvasState, canvas: Size, touch: Point)
    requires Inv(s)
    ensures Inv(AddMarker(s, canvas, touch))
  {
    match LocateTouch(s, canvas, touch)
    case None =>
    case Some(p) =>
      AppendKeepsNumbered(s.store, p);
      var t := AddMarker(s, canvas, touch);
      var n := |s.store.markers|;
      forall i | 0 <= i < |t.store.markers|
        ensures t.display.value.Holds(t.store.markers[i].position)
      {
        if i < n {
          assert t.store.markers[i] == t.store.markers[..n][i];
        }
      }
  }

  /** Runs a sequence of events from a state that satisfies the invariant;
      every state reached satisfies it too. */
  function Run(s: CanvasState, actions: seq<Action>): (t: CanvasState)
    requires Inv(s)
    ensures Inv(t)
    decreases |actions|
  {
    if actions == [] then s
    else
      StepKeepsInv(s, actions[0]);
      Run(Step(s, actions[0]), actions[1..])
  }

  /** From the freshly constructed page, whatever the events: the zoom is
      in [0.5, 5], the counter equals the number of markers, marker i is
      numbered i + 1, and every marker is a pixel of the displayed photo. */
  lemma Reachable(actions: seq<Action>)
    ensures var t := Run(Init(), actions);
      && 0.0 < MinScale <= t.scale <= MaxScale
      && t.store.counter == |t.store.markers|
      && (forall i :: 0 <= i < |t.store.markers| ==> t.store.markers[i].number == i + 1)
      && (t.store.markers != [] ==> t.display.Some?)
      && (forall i :: 0 <= i < |t.store.markers| ==> t.display.value.Holds(t.store.markers[i].position))
  {
  }
}
