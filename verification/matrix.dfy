/** The affine part of SkiaSharp's SKMatrix: the six coefficients that
    CreateScale, CreateTranslation and PostConcat produce, MapPoint, and
    TryInvert. The perspective row is always (0, 0, 1) for these matrices
    and is not represented. */
module Matrix {

  import opened Maybe
  import opened Geometry

  /** x' = scaleX*x + skewX*y + transX,  y' = skewY*x + scaleY*y + transY */
  datatype Affine = Affine(scaleX: real, skewX: real, transX: real,
                           skewY: real, scaleY: real, transY: real)

  /** SKMatrix.MapPoint for an affine matrix. */
  function MapPoint(m: Affine, p: Point): Point {
    Point(m.scaleX * p.x + m.skewX * p.y + m.transX,
          m.skewY * p.x + m.scaleY * p.y + m.transY)
  }

  /** MapPoint keeps affine combinations: the point a fraction `a` of the
      way from p to q maps to the point the same fraction of the way from
      the image of p to the image of q. */
  lemma MapPointKeepsCombinations(m: Affine, p: Point, q: Point, a: real)
    ensures var mp, mq := MapPoint(m, p), MapPoint(m, q);
      MapPoint(m, Point(p.x + a * (q.x - p.x), p.y + a * (q.y - p.y)))
      == Point(mp.x + a * (mq.x - mp.x), mp.y + a * (mq.y - mp.y))
  {
    var mix := Point(p.x + a * (q.x - p.x), p.y + a * (q.y - p.y));
    var mp, mq, mm := MapPoint(m, p), MapPoint(m, q), MapPoint(m, mix);
    RowKeepsCombinations(m.scaleX, m.skewX, m.transX, p.x, p.y, q.x, q.y, a);
    RowKeepsCombinations(m.skewY, m.scaleY, m.transY, p.x, p.y, q.x, q.y, a);
    assert mm.x == mp.x + a * (mq.x - mp.x);
    assert mm.y == mp.y + a * (mq.y - mp.y);
  }

  /** One output coordinate of MapPoint is an affine function of the
      point, so it keeps combinations. */
  lemma RowKeepsCombinations(u: real, v: real, w: real, px: real, py: real, qx: real, qy: real, a: real)
    ensures u * (px + a * (qx - px)) + v * (py + a * (qy - py)) + w
         == (u * px + v * py + w) + a * ((u * qx + v * qy + w) - (u * px + v * py + w))
  {
    calc {
      u * (px + a * (qx - px)) + v * (py + a * (qy - py)) + w;
      (u * px + v * py + w) + a * (u * (qx - px)) + a * (v * (qy - py));
      (u * px + v * py + w) + a * ((u * qx + v * qy + w) - (u * px + v * py + w));
    }
  }

  /** SKMatrix.CreateScale: stretches each axis about the origin. */
  function CreateScale(sx: real, sy: real): (m: Affine)
    ensures forall p {:trigger MapPoint(m, p)} :: MapPoint(m, p) == Point(sx * p.x, sy * p.y)
  {
    Affine(sx, 0.0, 0.0, 0.0, sy, 0.0)
  }

  /** SKMatrix.CreateTranslation: moves every point by (dx, dy). */
  function CreateTranslation(dx: real, dy: real): (m: Affine)
    ensures forall p {:trigger MapPoint(m, p)} :: MapPoint(m, p) == Point(p.x + dx, p.y + dy)
  {
    Affine(1.0, 0.0, dx, 0.0, 1.0, dy)
  }

  /** The coefficients of the matrix product other * m. */
  function Product(m: Affine, other: Affine): Affine {
    Affine(other.scaleX * m.scaleX + other.skewX * m.skewY,
           other.scaleX * m.skewX + other.skewX * m.scaleY,
           other.scaleX * m.transX + other.skewX * m.transY + other.transX,
           other.skewY * m.scaleX + other.scaleY * m.skewY,
           other.skewY * m.skewX + other.scaleY * m.scaleY,
           other.skewY * m.transX + other.scaleY * m.transY + other.transY)
  }

  /** SKMatrix.PostConcat: m.PostConcat(other) is the product other * m,
      so the resulting matrix maps every point by m first and by other
      second. */
  function PostConcat(m: Affine, other: Affine): (r: Affine)
    ensures forall p {:trigger MapPoint(r, p)} :: MapPoint(r, p) == MapPoint(other, MapPoint(m, p))
  {
    ProductComposes(m, other);
    Product(m, other)
  }

  /** The product maps every point as its two factors do in turn. */
  lemma ProductComposes(m: Affine, other: Affine)
    ensures forall p {:trigger MapPoint(Product(m, other), p)} ::
      MapPoint(Product(m, other), p) == MapPoint(other, MapPoint(m, p))
  {
    forall p
      ensures MapPoint(Product(m, other), p) == MapPoint(other, MapPoint(m, p))
    {
      ProductComposesAt(m, other, p);
    }
  }

  /** One point of ProductComposes: expand both sides and regroup. */
  lemma ProductComposesAt(m: Affine, other: Affine, p: Point)
    ensures MapPoint(Product(m, other), p) == MapPoint(other, MapPoint(m, p))
  {
    var q := MapPoint(m, p);
    var r := MapPoint(Product(m, other), p);
    assert r.x == other.scaleX * q.x + other.skewX * q.y + other.transX by {
      ComposeRow(other.scaleX, other.skewX, other.transX, m, p);
    }
    assert r.y == other.skewY * q.x + other.scaleY * q.y + other.transY by {
      ComposeRow(other.skewY, other.scaleY, other.transY, m, p);
    }
  }

  /** One output row (a, b, c) applied after m, regrouped by the point's
      coordinates: the coefficients of the product's row. */
  lemma ComposeRow(a: real, b: real, c: real, m: Affine, p: Point)
    ensures a * (m.scaleX * p.x + m.skewX * p.y + m.transX)
          + b * (m.skewY * p.x + m.scaleY * p.y + m.transY) + c
         == (a * m.scaleX + b * m.skewY) * p.x
          + (a * m.skewX + b * m.scaleY) * p.y
          + (a * m.transX + b * m.transY + c)
  {
    calc {
      a * (m.scaleX * p.x + m.skewX * p.y + m.transX)
        + b * (m.skewY * p.x + m.scaleY * p.y + m.transY) + c;
      (a * m.scaleX) * p.x + (a * m.skewX) * p.y + a * m.transX
        + (b * m.skewY) * p.x + (b * m.scaleY) * p.y + b * m.transY + c;
      (a * m.scaleX + b * m.skewY) * p.x
        + (a * m.skewX + b * m.scaleY) * p.y
        + (a * m.transX + b * m.transY + c);
    }
  }

  function Determinant(m: Affine): real {
    m.scaleX * m.scaleY - m.skewX * m.skewY
  }

  /** SKMatrix.TryInvert: fails exactly on a singular matrix. */
  function TryInvert(m: Affine): (r: Option<Affine>)
    ensures r.Some? <==> Determinant(m) != 0.0
  {
    var det := Determinant(m);
    if det == 0.0 then None
    else
      Some(Affine(m.scaleY / det, -m.skewX / det, (m.skewX * m.transY - m.scaleY * m.transX) / det,
                  -m.skewY / det, m.scaleX / det, (m.skewY * m.transX - m.scaleX * m.transY) / det))
  }

  /** The coefficients of TryInvert's result, written as products with
      the reciprocal of the determinant. */
  lemma InverseCoefficients(m: Affine)
    requires Determinant(m) != 0.0
    ensures var inv, k := TryInvert(m).value, 1.0 / Determinant(m);
      && k * Determinant(m) == 1.0
      && inv.scaleX == m.scaleY * k && inv.skewX == -m.skewX * k
      && inv.transX == (m.skewX * m.transY - m.scaleY * m.transX) * k
      && inv.skewY == -m.skewY * k && inv.scaleY == m.scaleX * k
      && inv.transY == (m.skewY * m.transX - m.scaleX * m.transY) * k
  {
  }

  /** The inverse undoes the matrix: mapping a point forward and then back
      through TryInvert's result gives the point again. */
  lemma InverseUndoesMap(m: Affine, p: Point)
    requires Determinant(m) != 0.0
    ensures MapPoint(TryInvert(m).value, MapPoint(m, p)) == p
  {
    InverseCoefficients(m);
    BackAfterForth(m.scaleX, m.skewX, m.transX, m.skewY, m.scaleY, m.transY,
                   1.0 / Determinant(m), p.x, p.y);
  }

  /** The matrix undoes its inverse: every point is the image of the point
      TryInvert's result sends it to. */
  lemma MapUndoesInverse(m: Affine, p: Point)
    requires Determinant(m) != 0.0
    ensures MapPoint(m, MapPoint(TryInvert(m).value, p)) == p
  {
    InverseCoefficients(m);
    ForthAfterBack(m.scaleX, m.skewX, m.transX, m.skewY, m.scaleY, m.transY,
                   1.0 / Determinant(m), p.x, p.y);
  }

  /** The matrix (a b c; d e f) followed by its adjugate scaled by k, the
      reciprocal of the determinant, is the identity. */
  lemma BackAfterForth(a: real, b: real, c: real, d: real, e: real, f: real,
                       k: real, x: real, y: real)
    requires k * (a * e - b * d) == 1.0
    ensures var qx, qy := a * x + b * y + c, d * x + e * y + f;
      && (e * k) * qx + (-b * k) * qy + (b * f - e * c) * k == x
      && (-d * k) * qx + (a * k) * qy + (d * c - a * f) * k == y
  {
    var det := a * e - b * d;
    var qx, qy := a * x + b * y + c, d * x + e * y + f;
    calc {
      (e * k) * qx + (-b * k) * qy + (b * f - e * c) * k;
      k * (e * qx - b * qy + b * f - e * c);
      { assert e * qx - b * qy + b * f - e * c == det * x; }
      k * (det * x);
      (k * det) * x;
    }
    calc {
      (-d * k) * qx + (a * k) * qy + (d * c - a * f) * k;
      k * (-d * qx + a * qy + d * c - a * f);
      { assert -d * qx + a * qy + d * c - a * f == det * y; }
      k * (det * y);
      (k * det) * y;
    }
  }

  /** The adjugate of (a b c; d e f) scaled by k, the reciprocal of the
      determinant, followed by the matrix is the identity. */
  lemma ForthAfterBack(a: real, b: real, c: real, d: real, e: real, f: real,
                       k: real, x: real, y: real)
    requires k * (a * e - b * d) == 1.0
    ensures var qx, qy := (e * k) * x + (-b * k) * y + (b * f - e * c) * k,
                          (-d * k) * x + (a * k) * y + (d * c - a * f) * k;
      && a * qx + b * qy + c == x
      && d * qx + e * qy + f == y
  {
    var det := a * e - b * d;
    var ux, uy := e * x - b * y + b * f - e * c, -d * x + a * y + d * c - a * f;
    var qx, qy := (e * k) * x + (-b * k) * y + (b * f - e * c) * k,
                  (-d * k) * x + (a * k) * y + (d * c - a * f) * k;
    assert qx == k * ux;
    assert qy == k * uy;
    calc {
      a * qx + b * qy + c;
      k * (a * ux + b * uy) + c;
      { assert a * ux + b * uy == det * (x - c); }
      k * (det * (x - c)) + c;
      (k * det) * (x - c) + c;
    }
    calc {
      d * qx + e * qy + f;
      k * (d * ux + e * uy) + f;
      { assert d * ux + e * uy == det * (y - f); }
      k * (det * (y - f)) + f;
      (k * det) * (y - f) + f;
    }
  }
}
