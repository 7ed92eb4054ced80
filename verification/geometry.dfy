/** The conventional optional value: used where the page holds a nullable
    reference (a bitmap that may not be loaded) or an operation may fail
    (a matrix that cannot be inverted, a touch that misses the photo). */
module Maybe {

  datatype Option<+T> = None | Some(value: T)
}

/** Plane geometry shared by the canvas: SkiaSharp's SKPoint, SKRect and
    SKSize over exact reals, and the pixel dimensions of a decoded bitmap. */
module Geometry {

  /** A point of the plane (SKPoint). */
  datatype Point = Point(x: real, y: real)

  /** An axis-aligned rectangle given by its edges (SKRect). */
  datatype Rect = Rect(left: real, top: real, right: real, bottom: real) {

    function Width(): real { right - left }

    function Height(): real { bottom - top }

    /** SKRect.Contains: closed on the left and top edges, open on the
        right and bottom ones. */
    predicate Contains(p: Point) {
      left <= p.x < right && top <= p.y < bottom
    }
  }

  type PositiveReal = r: real | r > 0.0 witness 1.0

  type PixelCount = n: int | n > 0 witness 1

  /** The size of the canvas surface as floats (SKSize), as AddMarker reads
      it from the view. */
  datatype Size = Size(width: PositiveReal, height: PositiveReal)

  /** The size of the canvas surface as whole pixels (SKSizeI), as the paint
      handler reads it from the surface's image info. */
  datatype PixelSize = PixelSize(width: PixelCount, height: PixelCount) {

    /** The same size as floats. */
    function AsSize(): Size {
      Size(width as real, height as real)
    }
  }

  /** A decoded bitmap; only its pixel dimensions matter to the geometry. */
  datatype Bitmap = Bitmap(width: PixelCount, height: PixelCount) {

    function W(): real { width as real }

    function H(): real { height as real }

    /** A position in image-pixel space lies on the bitmap. */
    predicate Holds(p: Point) {
      0.0 <= p.x < W() && 0.0 <= p.y < H()
    }
  }
}
