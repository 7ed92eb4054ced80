/** The user's view transform: the page zooms by `scale` and pans by
    `offset` by composing three SKMatrix factors. The two centre
    translations cancel, so the net map is screen = scale*p + offset; zoom
    is therefore about the origin of the canvas, not about its centre. */
module View {

  import opened Geometry
  import opened Matrix

  /** The net effect of the view matrix on a point. */
  function Project(scale: real, offset: Point, p: Point): Point {
    Point(scale * p.x + offset.x, scale * p.y + offset.y)
  }

  /** The closed form of the inverse view map. */
  function Unproject(scale: real, offset: Point, q: Point): Point
    requires scale != 0.0
  {
    Point((q.x - offset.x) / scale, (q.y - offset.y) / scale)
  }

  /** The matrix built by the paint handler and by AddMarker: scale, then
      translate by minus the canvas centre, then translate by the centre
      plus the user's offset. Its net effect is scale*p + offset, whatever
      the centre (the paint handler halves its integer canvas size with
      truncation, AddMarker halves its float size exactly). */
  function ViewMatrix(scale: real, center: Point, offset: Point): (m: Affine)
    ensures forall p {:trigger MapPoint(m, p)} :: MapPoint(m, p) == Project(scale, offset, p)
  {
    var scaled := CreateScale(scale, scale);
    var centred := PostConcat(scaled, CreateTranslation(-center.x, -center.y));
    var moved := CreateTranslation(center.x + offset.x, center.y + offset.y);
    assert centred == Affine(scale, 0.0, -center.x, 0.0, scale, -center.y);
    assert PostConcat(centred, moved) == Affine(scale, 0.0, offset.x, 0.0, scale, offset.y);
    ScaleThenShift(PostConcat(centred, moved), scale, offset);
    PostConcat(centred, moved)
  }

  /** The matrix with zoom `scale` on the diagonal and `offset` as its
      translation maps every point by Project. */
  lemma ScaleThenShift(m: Affine, scale: real, offset: Point)
    requires m == Affine(scale, 0.0, offset.x, 0.0, scale, offset.y)
    ensures forall p {:trigger MapPoint(m, p)} :: MapPoint(m, p) == Project(scale, offset, p)
  {
    forall p
      ensures MapPoint(m, p) == Project(scale, offset, p)
    {
      var q := MapPoint(m, p);
      assert q.x == scale * p.x + offset.x;
      assert q.y == scale * p.y + offset.y;
    }
  }

  /** The view matrix can be inverted exactly when the zoom is not zero. */
  lemma ViewInvertibleIff(scale: real, center: Point, offset: Point)
    ensures TryInvert(ViewMatrix(scale, center, offset)).Some? <==> scale != 0.0
  {
    assert Determinant(ViewMatrix(scale, center, offset)) == scale * scale;
  }

  /** Unproject undoes Project. */
  lemma UnprojectProject(scale: real, offset: Point, p: Point)
    requires scale != 0.0
    ensures Unproject(scale, offset, Project(scale, offset, p)) == p
  {
  }

  /** Project undoes Unproject. */
  lemma ProjectUnproject(scale: real, offset: Point, q: Point)
    requires scale != 0.0
    ensures Project(scale, offset, Unproject(scale, offset, q)) == q
  {
  }

  /** Whenever the view matrix can be inverted, its inverse (as AddMarker
      uses it) maps a screen point q to (q - offset) / scale. */
  lemma ViewInverseIsUnproject(scale: real, center: Point, offset: Point, q: Point)
    requires scale != 0.0
    ensures TryInvert(ViewMatrix(scale, center, offset)).Some?
    ensures MapPoint(TryInvert(ViewMatrix(scale, center, offset)).value, q)
         == Unproject(scale, offset, q)
  {
    var m := ViewMatrix(scale, center, offset);
    ViewInvertibleIff(scale, center, offset);
    var p := Unproject(scale, offset, q);
    ProjectUnproject(scale, offset, q);
    assert MapPoint(m, p) == q;
    InverseUndoesMap(m, p);
  }

  /** Zooming with an unchanged offset is about the canvas origin: of all
      screen points, only the offset itself stays over the same photo
      point when the scale changes. */
  lemma ZoomFixesOnlyOffset(s1: real, s2: real, offset: Point, q: Point)
    requires s1 != 0.0 && s2 != 0.0 && s1 != s2
    ensures Unproject(s1, offset, q) == Unproject(s2, offset, q) <==> q == offset
  {
    if Unproject(s1, offset, q) == Unproject(s2, offset, q) {
      SameQuotient(q.x - offset.x, s1, s2);
      SameQuotient(q.y - offset.y, s1, s2);
    }
  }

  /** Two different non-zero divisors give the same quotient only of zero. */
  lemma SameQuotient(a: real, s1: real, s2: real)
    requires s1 != 0.0 && s2 != 0.0 && s1 != s2
    requires a / s1 == a / s2
    ensures a == 0.0
  {
    var k := a / s1;
    assert a == k * s1 && a == k * s2;
    assert k * (s1 - s2) == 0.0;
  }
}
