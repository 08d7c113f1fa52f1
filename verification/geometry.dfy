/** Screen-space geometry standing in for the UI toolkit's `Rect` and `Offset`.
    Coordinates are reals: the toolkit's single-precision rounding is not modelled. */
module Geometry {

  datatype Offset = Offset(x: real, y: real)

  /** An axis-aligned rectangle given by its four edges, as the toolkit stores it.
      Nothing forces `left <= right` or `top <= bottom`; see `Normalized`. */
  datatype Rect = Rect(left: real, top: real, right: real, bottom: real)

  function Abs(a: real): real { if a < 0.0 then -a else a }

  function Min(a: real, b: real): real { if a <= b then a else b }

  function Max(a: real, b: real): real { if a >= b then a else b }

  function Sq(a: real): real { a * a }

  function Width(r: Rect): real { r.right - r.left }

  function Height(r: Rect): real { r.bottom - r.top }

  function Center(r: Rect): Offset {
    Offset(r.left + Width(r) / 2.0, r.top + Height(r) / 2.0)
  }

  /** The larger of the two side lengths, ignoring the sign of either. */
  function MaxDimension(r: Rect): (d: real)
    ensures d >= 0.0
    ensures Abs(Width(r)) <= d && Abs(Height(r)) <= d
    ensures d == Abs(Width(r)) || d == Abs(Height(r))
  {
    Max(Abs(Width(r)), Abs(Height(r)))
  }

  predicate Normalized(r: Rect) {
    r.left <= r.right && r.top <= r.bottom
  }

  /** The toolkit's hit test: the left and top edges belong to the rectangle,
      the right and bottom edges do not. */
  predicate Contains(r: Rect, p: Offset) {
    r.left <= p.x < r.right && r.top <= p.y < r.bottom
  }

  /** Closed containment, edges included. */
  predicate Covers(r: Rect, p: Offset) {
    r.left <= p.x <= r.right && r.top <= p.y <= r.bottom
  }

  /** `outer` covers every edge of `inner`. */
  predicate Encloses(outer: Rect, inner: Rect) {
    outer.left <= inner.left && outer.top <= inner.top &&
    inner.right <= outer.right && inner.bottom <= outer.bottom
  }

  /** `p` lies in the closed disc of the given radius around `c`. */
  predicate InDisc(p: Offset, c: Offset, radius: real) {
    Sq(p.x - c.x) + Sq(p.y - c.y) <= Sq(radius)
  }

  /** A rectangle with a positive area accepts a tap on its centre. */
  lemma CenterIsHit(r: Rect)
    requires Width(r) > 0.0 && Height(r) > 0.0
    ensures Contains(r, Center(r))
  {
  }

  lemma SqMonotone(a: real, b: real)
    requires Abs(a) <= b
    ensures Sq(a) <= Sq(b)
  {
    assert Sq(a) == Abs(a) * Abs(a);
    assert Abs(a) * Abs(a) <= b * Abs(a);
    assert b * Abs(a) <= b * b;
  }

  /** A disc centred on a rectangle covers all of it exactly when it covers its
      corners, that is when the squared diagonal is at most the squared diameter. */
  lemma {:induction false} DiscCoversRectIff(r: Rect, radius: real)
    requires Normalized(r)
    ensures (forall p :: Covers(r, p) ==> InDisc(p, Center(r), radius))
            <==> Sq(Width(r)) + Sq(Height(r)) <= 4.0 * Sq(radius)
  {
    var c := Center(r);
    var w, h := Width(r), Height(r);
    if forall p :: Covers(r, p) ==> InDisc(p, c, radius) {
      var corner := Offset(r.right, r.bottom);
      assert Covers(r, corner);
      assert corner.x - c.x == w / 2.0 && corner.y - c.y == h / 2.0;
      assert Sq(w / 2.0) + Sq(h / 2.0) <= Sq(radius);
      assert Sq(w) == 4.0 * Sq(w / 2.0) && Sq(h) == 4.0 * Sq(h / 2.0);
    }
    if Sq(w) + Sq(h) <= 4.0 * Sq(radius) {
      forall p | Covers(r, p)
        ensures InDisc(p, c, radius)
      {
        SqMonotone(p.x - c.x, w / 2.0);
        SqMonotone(p.y - c.y, h / 2.0);
        assert Sq(w) == 4.0 * Sq(w / 2.0) && Sq(h) == 4.0 * Sq(h / 2.0);
      }
    }
  }

  /** Cauchy-Schwarz in the plane: the dot product of two vectors is at most the
      product of bounds on their lengths. */
  lemma DotBound(ux: real, uy: real, ex: real, ey: real, a: real, b: real)
    requires a >= 0.0 && b >= 0.0
    requires Sq(ux) + Sq(uy) <= Sq(a) && Sq(ex) + Sq(ey) <= Sq(b)
    ensures ux * ex + uy * ey <= a * b
  {
    var dot, cross := ux * ex + uy * ey, ux * ey - uy * ex;
    var nu, ne := Sq(ux) + Sq(uy), Sq(ex) + Sq(ey);
    assert Sq(dot) + Sq(cross) == nu * ne;
    assert Sq(cross) >= 0.0;
    ProductBound(nu, Sq(a), ne, Sq(b));
    assert Sq(a) * Sq(b) == Sq(a * b);
    ProductBound(0.0, a, 0.0, b);
    if dot > a * b {
      SqStrict(a * b, dot);
    }
  }

  lemma ProductBound(x: real, a: real, y: real, b: real)
    requires 0.0 <= x <= a && 0.0 <= y <= b
    ensures x * y <= a * b
  {
    assert x * y <= a * y;
    assert a * y <= a * b;
  }

  lemma SqStrict(x: real, y: real)
    requires 0.0 <= x < y
    ensures Sq(x) < Sq(y)
  {
    var xx, xy, yy := x * x, x * y, y * y;
    assert xx <= xy;
    assert xy < yy;
    assert Sq(x) == xx && Sq(y) == yy;
  }

  /** A disc of radius `r` whose centre lies within `d` of `c` sits inside the
      disc of radius `r + d` around `c`. */
  lemma DiscInsideDisc(inner: Offset, r: real, c: Offset, d: real)
    requires r >= 0.0 && d >= 0.0
    requires InDisc(inner, c, d)
    ensures forall p :: InDisc(p, inner, r) ==> InDisc(p, c, r + d)
  {
    forall p | InDisc(p, inner, r)
      ensures InDisc(p, c, r + d)
    {
      SumOfShifts(p.x - inner.x, p.y - inner.y, inner.x - c.x, inner.y - c.y, r, d);
      assert p.x - c.x == (p.x - inner.x) + (inner.x - c.x);
      assert p.y - c.y == (p.y - inner.y) + (inner.y - c.y);
    }
  }

  lemma SumOfShifts(ux: real, uy: real, ex: real, ey: real, r: real, d: real)
    requires r >= 0.0 && d >= 0.0
    requires Sq(ux) + Sq(uy) <= Sq(r) && Sq(ex) + Sq(ey) <= Sq(d)
    ensures Sq(ux + ex) + Sq(uy + ey) <= Sq(r + d)
  {
    DotBound(ux, uy, ex, ey, r, d);
    assert Sq(ux + ex) + Sq(uy + ey) == (Sq(ux) + Sq(uy)) + (Sq(ex) + Sq(ey)) + 2.0 * (ux * ex + uy * ey);
    assert Sq(r + d) == Sq(r) + Sq(d) + 2.0 * (r * d);
  }
}
