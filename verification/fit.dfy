/** The destination rectangle of the photo. AddMarker computes it over the
    float canvas size: the photo is scaled uniformly so that it fills the
    canvas along one axis and is centred along the other. The paint handler
    computes it over the integer canvas size, where two of the quotients
    truncate. */
module Fitting {

  import opened Geometry

  /** The uniform factor from image pixels to canvas units, and the
      rectangle the whole bitmap is drawn into. */
  datatype Fit = Fit(factor: real, dest: Rect)

  function Min(a: real, b: real): real {
    if a <= b then a else b
  }

  /** AddMarker's fit computation over the float canvas size: when the
      photo is relatively wider than the canvas it is scaled to the canvas
      width and centred vertically, otherwise scaled to the canvas height
      and centred horizontally. */
  function FitToCanvas(image: Bitmap, canvas: Size): (f: Fit)
    ensures f.factor > 0.0
    // centred on the canvas
    ensures f.dest.left + f.dest.right == canvas.width
    ensures f.dest.top + f.dest.bottom == canvas.height
    // lies inside the canvas
    ensures 0.0 <= f.dest.left <= f.dest.right <= canvas.width
    ensures 0.0 <= f.dest.top <= f.dest.bottom <= canvas.height
    // is the bitmap scaled uniformly by the factor, so keeps its aspect ratio
    ensures f.dest.Width() == image.W() * f.factor
    ensures f.dest.Height() == image.H() * f.factor
    // has no margin along at least one axis
    ensures f.dest.Width() == canvas.width || f.dest.Height() == canvas.height
  {
    var w := image.W();
    var h := image.H();
    if w / h > canvas.width / canvas.height then
      var s := canvas.width / w;
      var scaledHeight := h * s;
      WiderFitsHeight(w, h, canvas.width, canvas.height);
      Fit(s, Rect(0.0, (canvas.height - scaledHeight) / 2.0,
                  canvas.width, (canvas.height + scaledHeight) / 2.0))
    else
      var s := canvas.height / h;
      var scaledWidth := w * s;
      TallerFitsWidth(w, h, canvas.width, canvas.height);
      Fit(s, Rect((canvas.width - scaledWidth) / 2.0, 0.0,
                  (canvas.width + scaledWidth) / 2.0, canvas.height))
  }

  /** The fitted rectangle has the photo's aspect ratio. */
  lemma FitKeepsAspectRatio(image: Bitmap, canvas: Size)
    ensures var dest := FitToCanvas(image, canvas).dest;
      dest.Width() * image.H() == dest.Height() * image.W()
  {
    var f := FitToCanvas(image, canvas);
    assert f.dest.Width() * image.H() == image.W() * f.factor * image.H();
  }

  /** A photo relatively wider than the canvas, scaled to the canvas width,
      is no taller than the canvas. */
  lemma WiderFitsHeight(w: real, h: real, cw: real, ch: real)
    requires w > 0.0 && h > 0.0 && cw > 0.0 && ch > 0.0
    requires w / h > cw / ch
    ensures 0.0 < h * (cw / w) < ch
  {
    assert w * ch > cw * h by {
      assert (w / h) * (h * ch) > (cw / ch) * (h * ch);
    }
    assert h * (cw / w) * w == h * cw;
  }

  /** A photo not relatively wider than the canvas, scaled to the canvas
      height, is no wider than the canvas. */
  lemma TallerFitsWidth(w: real, h: real, cw: real, ch: real)
    requires w > 0.0 && h > 0.0 && cw > 0.0 && ch > 0.0
    requires w / h <= cw / ch
    ensures 0.0 < w * (ch / h) <= cw
  {
    assert w * ch <= cw * h by {
      assert (w / h) * (h * ch) <= (cw / ch) * (h * ch);
    }
    assert w * (ch / h) * h == w * ch;
  }

  /** The factor is the largest uniform scale at which the whole photo is
      still inside the canvas: the smaller of the two axis ratios. */
  lemma FactorIsLargestThatFits(image: Bitmap, canvas: Size)
    ensures FitToCanvas(image, canvas).factor
         == Min(canvas.width / image.W(), canvas.height / image.H())
  {
    var w, h, cw, ch := image.W(), image.H(), canvas.width, canvas.height;
    if w / h > cw / ch {
      WiderFitsHeight(w, h, cw, ch);
      assert h * (cw / w) < ch;
      assert cw / w < ch / h by {
        assert (cw / w) * h < (ch / h) * h;
      }
    } else {
      TallerFitsWidth(w, h, cw, ch);
      assert w * (ch / h) <= cw;
      assert ch / h <= cw / w by {
        assert (ch / h) * w <= (cw / w) * w;
      }
    }
  }

  /** AddMarker's conversion from a point of the destination rectangle to
      image pixels: the point's relative position inside the rectangle,
      times the bitmap's size. A point the rectangle contains lands on the
      bitmap. */
  function DestToPixel(dest: Rect, image: Bitmap, q: Point): (p: Point)
    requires dest.Contains(q)
    ensures image.Holds(p)
  {
    var p := Point((q.x - dest.left) / dest.Width() * image.W(),
                   (q.y - dest.top) / dest.Height() * image.H());
    FractionOfSize(q.x - dest.left, dest.Width(), image.W());
    FractionOfSize(q.y - dest.top, dest.Height(), image.H());
    p
  }

  /** Where DrawBitmap(bitmap, dest) puts an image pixel: the rectangle's
      origin plus the pixel's relative position times the rectangle's size. */
  function PixelToDest(dest: Rect, image: Bitmap, p: Point): Point {
    Point(dest.left + p.x / image.W() * dest.Width(),
          dest.top + p.y / image.H() * dest.Height())
  }

  /** A fraction a/b of a length in [0, b) is in [0, 1), so scaling it by
      c > 0 gives a value in [0, c). */
  lemma FractionOfSize(a: real, b: real, c: real)
    requires 0.0 <= a < b
    requires c > 0.0
    ensures 0.0 <= a / b * c < c
  {
    assert a / b < 1.0 by {
      assert (a / b) * b == a;
    }
  }

  /** Converting a contained point to pixels and drawing that pixel brings
      the point back. */
  lemma PixelToDestInvertsDestToPixel(dest: Rect, image: Bitmap, q: Point)
    requires dest.Contains(q)
    ensures PixelToDest(dest, image, DestToPixel(dest, image, q)) == q
  {
    RatioRoundTrip(q.x - dest.left, dest.Width(), image.W());
    RatioRoundTrip(q.y - dest.top, dest.Height(), image.H());
  }

  /** Drawing a pixel of the bitmap and converting the drawn point back
      gives the pixel again. */
  lemma DestToPixelInvertsPixelToDest(dest: Rect, image: Bitmap, p: Point)
    requires dest.Width() > 0.0 && dest.Height() > 0.0
    requires image.Holds(p)
    ensures dest.Contains(PixelToDest(dest, image, p))
    ensures DestToPixel(dest, image, PixelToDest(dest, image, p)) == p
  {
    RatioRoundTrip(p.x, image.W(), dest.Width());
    RatioRoundTrip(p.y, image.H(), dest.Height());
    FractionOfSize(p.x, image.W(), dest.Width());
    FractionOfSize(p.y, image.H(), dest.Height());
  }

  /** Rescaling from a length b to a length c and back is the identity. */
  lemma RatioRoundTrip(a: real, b: real, c: real)
    requires b > 0.0 && c > 0.0
    ensures (a / b * c) / c * b == a
  {
    assert (a / b * c) / c == a / b;
  }

  /** The paint handler's branch: the photo's aspect ratio is a float
      quotient, the canvas's a truncating integer quotient. (Dafny's `/` on
      positive integers truncates as C#'s does.) */
  predicate PaintFitsWidth(image: Bitmap, canvas: PixelSize) {
    image.W() / image.H() > (canvas.width / canvas.height) as real
  }

  /** C#'s int / int on positive operands, converted to float: the
      truncated quotient, zero exactly when the divisor is the larger. */
  function WholeQuotient(a: PixelCount, b: PixelCount): (q: real)
    ensures q == (a / b) as real
    ensures q >= 0.0
    ensures q == 0.0 <==> a < b
    ensures q * (b as real) <= a as real < (q + 1.0) * (b as real)
  {
    (a / b) as real
  }

  /** The paint handler's fit over the integer canvas size. The factor is a
      truncating integer quotient, and the rectangle spans the canvas along
      the branch's axis whatever the factor. */
  function PaintFit(image: Bitmap, canvas: PixelSize): (f: Fit)
    ensures f.factor >= 0.0
    ensures f.dest.left + f.dest.right == canvas.width as real
    ensures f.dest.top + f.dest.bottom == canvas.height as real
    ensures PaintFitsWidth(image, canvas) ==>
      && f.factor == (canvas.width / image.width) as real
      && f.dest.Width() == canvas.width as real
      && f.dest.Height() == image.H() * f.factor
    ensures !PaintFitsWidth(image, canvas) ==>
      && f.factor == (canvas.height / image.height) as real
      && f.dest.Height() == canvas.height as real
      && f.dest.Width() == image.W() * f.factor
  {
    var cw, ch := canvas.width as real, canvas.height as real;
    if PaintFitsWidth(image, canvas) then
      var s := WholeQuotient(canvas.width, image.width);
      var scaledHeight := image.H() * s;
      Fit(s, Rect(0.0, (ch - scaledHeight) / 2.0, cw, (ch + scaledHeight) / 2.0))
    else
      var s := WholeQuotient(canvas.height, image.height);
      var scaledWidth := image.W() * s;
      Fit(s, Rect((cw - scaledWidth) / 2.0, 0.0, (cw + scaledWidth) / 2.0, ch))
  }

  /** The photo is larger than the canvas along the axis the paint handler
      fits it to. */
  predicate ExceedsFittedAxis(image: Bitmap, canvas: PixelSize) {
    if PaintFitsWidth(image, canvas) then canvas.width < image.width
    else canvas.height < image.height
  }

  /** The paint factor is zero exactly when the photo is larger than the
      canvas along the fitted axis, and then, and only then, the
      rectangle has no area: the photo is not drawn at all. */
  lemma PaintFitVanishes(image: Bitmap, canvas: PixelSize)
    ensures PaintFit(image, canvas).factor == 0.0 <==> ExceedsFittedAxis(image, canvas)
    ensures var dest := PaintFit(image, canvas).dest;
      PaintFit(image, canvas).factor == 0.0 <==> dest.Width() == 0.0 || dest.Height() == 0.0
  {
    var f := PaintFit(image, canvas);
    if PaintFitsWidth(image, canvas) {
      assert f.factor == 0.0 <==> canvas.width / image.width == 0;
    } else {
      assert f.factor == 0.0 <==> canvas.height / image.height == 0;
    }
  }

  /** When the canvas is the same whole multiple k of the photo along both
      axes, the paint handler's fit and AddMarker's agree: factor k, the
      whole canvas. */
  lemma PaintFitAgreesOnWholeMultiples(image: Bitmap, canvas: PixelSize)
    requires canvas.width % image.width == 0 && canvas.height % image.height == 0
    requires canvas.width / image.width == canvas.height / image.height
    ensures PaintFit(image, canvas) == FitToCanvas(image, canvas.AsSize())
    ensures PaintFit(image, canvas)
         == Fit((canvas.width / image.width) as real,
                Rect(0.0, 0.0, canvas.width as real, canvas.height as real))
  {
    var k := canvas.width / image.width;
    WholeMultiple(canvas.width, image.width, k);
    WholeMultiple(canvas.height, image.height, k);
    var kr := k as real;
    PaintFitOnWholeMultiple(image, canvas, kr);
    FitOnWholeMultiple(image, canvas.AsSize(), kr);
  }

  /** A positive whole multiple, read as floats: the multiplier is positive
      and the product converts exactly. */
  lemma WholeMultiple(a: PixelCount, b: PixelCount, k: int)
    requires a % b == 0 && k == a / b
    ensures k > 0
    ensures a as real == (b as real) * (k as real)
  {
    assert a == b * k;
    assert (b * k) as real == (b as real) * (k as real);
  }

  /** The paint half of PaintFitAgreesOnWholeMultiples. */
  lemma PaintFitOnWholeMultiple(image: Bitmap, canvas: PixelSize, k: real)
    requires k == (canvas.width / image.width) as real
    requires k == (canvas.height / image.height) as real
    requires canvas.width as real == image.W() * k && canvas.height as real == image.H() * k
    ensures PaintFit(image, canvas)
         == Fit(k, Rect(0.0, 0.0, canvas.width as real, canvas.height as real))
  {
  }

  /** The AddMarker half of PaintFitAgreesOnWholeMultiples, for any
      positive real multiple. */
  lemma FitOnWholeMultiple(image: Bitmap, canvas: Size, k: real)
    requires k > 0.0
    requires canvas.width == k * image.W() && canvas.height == k * image.H()
    ensures FitToCanvas(image, canvas) == Fit(k, Rect(0.0, 0.0, canvas.width, canvas.height))
  {
    var w, h := image.W(), image.H();
    assert canvas.width / canvas.height == w / h by {
      assert (k * w) / (k * h) * h == w;
    }
    assert canvas.height / h == k;
  }

  /** When both handlers fit the photo to the canvas width and the canvas
      width is a whole multiple of the photo width, the truncations are
      exact and the two fits agree, whatever the heights. */
  lemma PaintFitAgreesAlongWidth(image: Bitmap, canvas: PixelSize)
    requires PaintFitsWidth(image, canvas)
    requires image.W() / image.H() > canvas.AsSize().width / canvas.AsSize().height
    requires canvas.width % image.width == 0
    ensures PaintFit(image, canvas) == FitToCanvas(image, canvas.AsSize())
  {
    var k := canvas.width / image.width;
    WholeMultiple(canvas.width, image.width, k);
    assert (canvas.width as real) / image.W() == k as real;
  }

  /** When both handlers fit the photo to the canvas height and the canvas
      height is a whole multiple of the photo height, the two fits agree,
      whatever the widths. */
  lemma PaintFitAgreesAlongHeight(image: Bitmap, canvas: PixelSize)
    requires !PaintFitsWidth(image, canvas)
    requires image.W() / image.H() <= canvas.AsSize().width / canvas.AsSize().height
    requires canvas.height % image.height == 0
    ensures PaintFit(image, canvas) == FitToCanvas(image, canvas.AsSize())
  {
    var k := canvas.height / image.height;
    WholeMultiple(canvas.height, image.height, k);
    assert (canvas.height as real) / image.H() == k as real;
  }

  /** A 100x100 photo on a 200x300 canvas, 2 times the photo across and 3
      times down: both handlers fit it to the width at factor 2, centred
      vertically. */
  lemma AgreeAlongWidthExample(image: Bitmap, canvas: PixelSize)
    requires image == Bitmap(100, 100) && canvas == PixelSize(200, 300)
    ensures PaintFit(image, canvas) == FitToCanvas(image, canvas.AsSize())
    ensures PaintFit(image, canvas) == Fit(2.0, Rect(0.0, 50.0, 200.0, 250.0))
  {
    PortraitCanvasFitsWidth(image, canvas);
    PaintFitAgreesAlongWidth(image, canvas);
  }

  /** A 100x50 photo on a 300x100 canvas, 3 times the photo across and 2
      times down: both handlers fit it to the height at factor 2, centred
      horizontally. */
  lemma AgreeAlongHeightExample(image: Bitmap, canvas: PixelSize)
    requires image == Bitmap(100, 50) && canvas == PixelSize(300, 100)
    ensures PaintFit(image, canvas) == FitToCanvas(image, canvas.AsSize())
    ensures PaintFit(image, canvas) == Fit(2.0, Rect(50.0, 0.0, 250.0, 100.0))
  {
    assert canvas.width / canvas.height == 3;
    PaintFitAgreesAlongHeight(image, canvas);
  }

  /** A 2000x1000 photo on a 1000x500 canvas: AddMarker fits it at half
      size over the whole canvas, but the paint handler's factor truncates
      to 0 and its rectangle has no width. */
  lemma VanishingExample(image: Bitmap, canvas: PixelSize)
    requires image == Bitmap(2000, 1000) && canvas == PixelSize(1000, 500)
    ensures PaintFit(image, canvas) == Fit(0.0, Rect(500.0, 0.0, 500.0, 500.0))
    ensures FitToCanvas(image, canvas.AsSize()) == Fit(0.5, Rect(0.0, 0.0, 1000.0, 500.0))
  {
  }

  /** A 300x100 photo on a 1000x500 canvas: the paint handler scales its
      height by 3 but stretches it across the full width, 1000 rather
      than 900. */
  lemma StretchedExample(image: Bitmap, canvas: PixelSize)
    requires image == Bitmap(300, 100) && canvas == PixelSize(1000, 500)
    ensures PaintFit(image, canvas) == Fit(3.0, Rect(0.0, 100.0, 1000.0, 400.0))
  {
  }

  /** On a portrait canvas the integer aspect ratio truncates to 0, so the
      paint handler always fits the photo to the canvas width. */
  lemma PortraitCanvasFitsWidth(image: Bitmap, canvas: PixelSize)
    requires canvas.width < canvas.height
    ensures PaintFitsWidth(image, canvas)
  {
    assert canvas.width / canvas.height == 0;
    assert image.W() / image.H() > 0.0;
  }

  /** A 4032x3024 photo on a 1080x1920 portrait canvas: AddMarker fits it
      at 1080/4032 with a 1080x810 rectangle, but the paint handler's
      factor truncates to 0 and its rectangle is a line. */
  lemma PhonePhotoVanishes(image: Bitmap, canvas: PixelSize)
    requires image == Bitmap(4032, 3024) && canvas == PixelSize(1080, 1920)
    ensures PaintFit(image, canvas) == Fit(0.0, Rect(0.0, 960.0, 1080.0, 960.0))
    ensures FitToCanvas(image, canvas.AsSize()) == Fit(1080.0 / 4032.0, Rect(0.0, 555.0, 1080.0, 1365.0))
  {
  }

  /** A 500x1000 photo on a 1080x1920 portrait canvas: the paint handler
      fits it to the width at factor 2, so its 2000-pixel height overflows
      the canvas by 40 at the top and the bottom; AddMarker fits it to the
      height at 1.92. */
  lemma OverflowExample(image: Bitmap, canvas: PixelSize)
    requires image == Bitmap(500, 1000) && canvas == PixelSize(1080, 1920)
    ensures PaintFit(image, canvas) == Fit(2.0, Rect(0.0, -40.0, 1080.0, 1960.0))
    ensures FitToCanvas(image, canvas.AsSize()) == Fit(1.92, Rect(60.0, 0.0, 1020.0, 1920.0))
  {
    PortraitCanvasFitsWidth(image, canvas);
    assert canvas.width / image.width == 2;
    assert image.W() / image.H() == 0.5 && 1080.0 / 1920.0 == 0.5625;
  }
}
