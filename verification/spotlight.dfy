/** Spotlight geometry for the target on screen: the cut-out radius, the test
    for a target hugging the top or bottom edge, and the larger backdrop circle
    that the animated rounded variant draws behind the caption. */
module Spotlight {
  import opened Geometry
  import opened Options
  import opened Property
  import Caption

  /** Added to half the target's larger side to get the spotlight radius. */
  const SpotlightMargin: real := 20.0
  /** The simple rounded cut-out is this much smaller than the spotlight radius. */
  const SimpleCutoutInset: real := 10.0
  /** Height, in dp, of the band at the top and bottom of the screen. */
  const TopArea: real := 10.0

  /** The spotlight radius reaches `SpotlightMargin` past the midpoint of the
      farther pair of edges. */
  function TargetRadius(target: Rect): (r: real)
    ensures r >= SpotlightMargin && r > MaxDimension(target) / 2.0
    ensures Abs(Width(target)) / 2.0 <= r - SpotlightMargin
    ensures Abs(Height(target)) / 2.0 <= r - SpotlightMargin
    ensures Abs(Width(target)) / 2.0 == r - SpotlightMargin || Abs(Height(target)) / 2.0 == r - SpotlightMargin
  {
    MaxDimension(target) / 2.0 + SpotlightMargin
  }

  /** Radius of the transparent circle cut around the target; the rectangle
      variants cut a rectangle instead and have none. */
  function CutoutRadius(kind: ShowcaseType, target: Rect): (r: Option<real>)
    ensures r.Some? <==> kind == SimpleRounded || kind == AnimatedRounded
    ensures r.Some? ==> r.value > MaxDimension(target) / 2.0
    ensures kind == SimpleRounded ==> r == Some(TargetRadius(target) - SimpleCutoutInset)
    ensures kind == AnimatedRounded ==> r == Some(TargetRadius(target))
  {
    match kind
    case SimpleRounded => Some(TargetRadius(target) - SimpleCutoutInset)
    case AnimatedRounded => Some(TargetRadius(target))
    case _ => None
  }

  /** A target given only the required arguments gets the simple circular cut-out. */
  lemma DefaultTargetGetsSimpleCutout(index: int, coordinates: Rect, title: string, subTitle: string)
    ensures CutoutRadius(NewProperty(index, coordinates, title, subTitle).showCaseType, coordinates)
            == Some(MaxDimension(coordinates) / 2.0 + 10.0)
  {
  }

  /** The circular cut-out clears the whole target exactly when the target's
      diagonal is no longer than the cut-out's diameter. */
  lemma CutoutCoversTargetIff(kind: ShowcaseType, target: Rect)
    requires Normalized(target)
    requires kind == SimpleRounded || kind == AnimatedRounded
    ensures var radius := CutoutRadius(kind, target).value;
            (forall p :: Covers(target, p) ==> InDisc(p, Center(target), radius))
            <==> Sq(Width(target)) + Sq(Height(target)) <= 4.0 * Sq(radius)
  {
    DiscCoversRectIff(target, CutoutRadius(kind, target).value);
  }

  /** Targets no larger than 40 on either side are cleared entirely, even by the
      smaller simple cut-out. */
  lemma SmallTargetsFullyCleared(kind: ShowcaseType, target: Rect)
    requires Normalized(target) && MaxDimension(target) <= 40.0
    requires kind == SimpleRounded || kind == AnimatedRounded
    ensures forall p :: Covers(target, p) ==> InDisc(p, Center(target), CutoutRadius(kind, target).value)
  {
    var m := MaxDimension(target);
    var radius := CutoutRadius(kind, target).value;
    SqMonotone(Width(target), m);
    SqMonotone(Height(target), m);
    assert m * m <= 40.0 * m;
    assert radius >= m / 2.0 + 10.0;
    SqMonotone(m / 2.0 + 10.0, radius);
    assert 4.0 * Sq(m / 2.0 + 10.0) == m * m + 40.0 * m + 400.0;
    assert Sq(Width(target)) + Sq(Height(target)) <= 2.0 * (m * m);
    assert 2.0 * (m * m) <= 4.0 * Sq(m / 2.0 + 10.0);
    assert 4.0 * Sq(m / 2.0 + 10.0) <= 4.0 * Sq(radius);
    DiscCoversRectIff(target, radius);
  }

  /** A square target of side `m` is cleared entirely by the simple cut-out
      (radius `m / 2 + 10`) exactly when `m * m - 40 * m - 400 <= 0`, that is for
      sides up to 20 + 20 * sqrt(2), about 48.3. */
  lemma SquareClearedIff(x: real, y: real, m: real)
    requires m >= 0.0
    ensures var target := Rect(x, y, x + m, y + m);
            (forall p :: Covers(target, p) ==> InDisc(p, Center(target), CutoutRadius(SimpleRounded, target).value))
            <==> m * m - 40.0 * m - 400.0 <= 0.0
  {
    var target := Rect(x, y, x + m, y + m);
    assert Width(target) == m && Height(target) == m;
    assert MaxDimension(target) == m;
    var radius := CutoutRadius(SimpleRounded, target).value;
    assert radius == m / 2.0 + 10.0;
    CutoutCoversTargetIff(SimpleRounded, target);
    assert 4.0 * Sq(radius) == m * m + 40.0 * m + 400.0;
  }

  /** A vertical position (in dp) is in the gutter when it lies within `TopArea`
      of the top of the screen or beyond `TopArea` above its bottom edge. */
  function InGutter(yDp: real, screenHeightDp: int): (r: bool)
    ensures !r <==> TopArea <= yDp <= screenHeightDp as real - TopArea
  {
    TopArea > yDp || yDp > screenHeightDp as real - TopArea
  }

  /** Pixels to density-independent pixels. */
  function ToDp(px: real, density: real): real
    requires density > 0.0
  {
    px / density
  }

  /** The gutter test on a target: its top edge is converted to dp and compared
      with the screen height in dp; stated in pixels, the top is above
      `TopArea * density` or below `(screenHeightDp - TopArea) * density`. */
  function TargetInGutter(target: Rect, density: real, screenHeightDp: int): (r: bool)
    requires density > 0.0
    ensures r <==> target.top < TopArea * density ||
                   target.top > (screenHeightDp as real - TopArea) * density
  {
    var y := ToDp(target.top, density);
    assert y * density == target.top;
    assert y < TopArea <==> target.top < TopArea * density by {
      if y < TopArea { assert y * density < TopArea * density; }
      if target.top < TopArea * density { assert y * density < TopArea * density; }
    }
    var h := screenHeightDp as real - TopArea;
    assert y > h <==> target.top > h * density by {
      if y > h { assert y * density > h * density; }
      if target.top > h * density { assert y * density > h * density; }
    }
    InGutter(y, screenHeightDp)
  }

  /** Centre of the backdrop circle. Horizontally it is the midpoint of the span
      running from the leftmost of the caption and the spotlight's left reach to
      the rightmost of the caption and the spotlight's right reach. Vertically it
      sits `radius + textHeight` above the target's centre when that point is
      below the top of the screen, otherwise as far below; a target in the gutter
      keeps the target's own centre height. */
  function OuterCircleCenter(target: Rect, text: Rect, radius: real, textHeight: int, inGutter: bool): (r: Offset)
    ensures r.x - Min(text.left, target.left - radius) == Max(text.right, target.right + radius) - r.x
    ensures inGutter ==> r.y == Center(target).y
    ensures !inGutter ==> Abs(r.y - Center(target).y) == Abs(radius + textHeight as real)
    ensures !inGutter && Center(target).y - radius - textHeight as real > 0.0 ==>
              r.y == Center(target).y - radius - textHeight as real
    ensures !inGutter && Center(target).y - radius - textHeight as real <= 0.0 ==>
              r.y == Center(target).y + radius + textHeight as real
  {
    var c := Center(target);
    var onTop := c.y - radius - textHeight as real > 0.0;
    var left := Min(text.left, target.left - radius);
    var right := Max(text.right, target.right + radius);
    var centerY := if onTop then c.y - radius - textHeight as real else c.y + radius + textHeight as real;
    Offset((left + right) / 2.0, if inGutter then c.y else centerY)
  }

  /** The backdrop centre's span reaches over both the caption and the whole
      spotlight disc, and the centre never rises above the top of the screen
      when the target's centre is on screen. */
  lemma OuterCircleCenterPlacement(target: Rect, text: Rect, radius: real, textHeight: int, inGutter: bool)
    requires Normalized(target) && Normalized(text)
    requires radius >= 0.0 && textHeight >= 0 && Center(target).y >= 0.0
    ensures var lo := Min(text.left, target.left - radius);
            var hi := Max(text.right, target.right + radius);
            lo <= text.left && text.right <= hi &&
            lo <= Center(target).x - radius && Center(target).x + radius <= hi &&
            lo <= OuterCircleCenter(target, text, radius, textHeight, inGutter).x <= hi
    ensures OuterCircleCenter(target, text, radius, textHeight, inGutter).y >= 0.0
  {
  }

  /** The smallest rectangle holding both the caption and the target. */
  function Union(a: Rect, b: Rect): (u: Rect)
    ensures Encloses(u, a) && Encloses(u, b)
    ensures forall o :: Encloses(o, a) && Encloses(o, b) ==> Encloses(o, u)
    ensures Normalized(a) ==> Normalized(u)
  {
    Rect(Min(a.left, b.left), Min(a.top, b.top), Max(a.right, b.right), Max(a.bottom, b.bottom))
  }

  /** Square of half the diagonal of the union of caption and target. */
  function OuterRadiusSquared(text: Rect, target: Rect): (r: real)
    ensures r >= 0.0
  {
    var u := Union(text, target);
    (Sq(Height(u)) + Sq(Width(u))) / 4.0
  }

  /** `rho` is the square root the source takes: half the union's diagonal. */
  predicate IsOuterRadius(text: Rect, target: Rect, rho: real) {
    rho >= 0.0 && Sq(rho) == OuterRadiusSquared(text, target)
  }

  /** The disc of radius `rho` around the union's centre clears the whole union,
      hence both the caption and the target. */
  lemma OuterRadiusCoversBoth(text: Rect, target: Rect, rho: real)
    requires Normalized(text) && Normalized(target)
    requires IsOuterRadius(text, target, rho)
    ensures var c := Center(Union(text, target));
            forall p :: Covers(text, p) || Covers(target, p) ==> InDisc(p, c, rho)
  {
    var u := Union(text, target);
    DiscCoversRectIff(u, rho);
    forall p | Covers(text, p) || Covers(target, p)
      ensures InDisc(p, Center(u), rho)
    {
      assert Covers(u, p);
    }
  }

  /** Radius of the backdrop circle: half the union's diagonal plus the
      spotlight radius, so it is never smaller than either. */
  function OuterCircleRadius(text: Rect, target: Rect, rho: real): (r: real)
    requires IsOuterRadius(text, target, rho)
    ensures r >= TargetRadius(target) && r >= rho
    ensures r > MaxDimension(target) / 2.0
  {
    rho + TargetRadius(target)
  }

  /** The backdrop drawn by the animated rounded variant (centre
      `OuterCircleCenter`, radius `OuterCircleRadius`) covers the whole
      spotlight disc whenever the target's centre lies within the outer radius
      of the backdrop's centre; for a target in the gutter it always does. */
  lemma BackdropCoversSpotlight(target: Rect, text: Rect, textHeight: int, inGutter: bool, rho: real)
    requires Normalized(target) && Normalized(text)
    requires IsOuterRadius(text, target, rho)
    ensures var r := TargetRadius(target);
            var o := OuterCircleCenter(target, text, r, textHeight, inGutter);
            InDisc(Center(target), o, rho) ==>
              forall p :: InDisc(p, Center(target), r) ==> InDisc(p, o, OuterCircleRadius(text, target, rho))
    ensures inGutter ==>
              InDisc(Center(target), OuterCircleCenter(target, text, TargetRadius(target), textHeight, inGutter), rho)
  {
    var r := TargetRadius(target);
    var c := Center(target);
    var o := OuterCircleCenter(target, text, r, textHeight, inGutter);
    if InDisc(c, o, rho) {
      DiscInsideDisc(c, r, o, rho);
    }
    if inGutter {
      var u := Union(text, target);
      var half := Width(u) / 2.0;
      BackdropSpanNearTarget(target, text, r, textHeight, inGutter);
      SqMonotone(o.x - c.x, half);
      GutterCentreWithin(c, o, half, u, rho);
    }
  }

  /** The backdrop centre lies horizontally within half the box's width of the
      target's centre. */
  lemma BackdropSpanNearTarget(target: Rect, text: Rect, r: real, textHeight: int, inGutter: bool)
    requires Normalized(target) && Normalized(text) && r >= 0.0
    ensures Abs(OuterCircleCenter(target, text, r, textHeight, inGutter).x - Center(target).x)
            <= Width(Union(text, target)) / 2.0
  {
  }

  lemma GutterCentreWithin(c: Offset, o: Offset, half: real, u: Rect, rho: real)
    requires o.y == c.y && half == Width(u) / 2.0
    requires Sq(o.x - c.x) <= Sq(half)
    requires rho >= 0.0 && Sq(rho) == (Sq(Height(u)) + Sq(Width(u))) / 4.0
    ensures InDisc(c, o, rho)
  {
    assert Sq(c.x - o.x) == Sq(o.x - c.x);
    assert Sq(half) * 4.0 == Sq(Width(u));
    assert Sq(Height(u)) >= 0.0;
  }

  /** The backdrop as drawn can miss its own target. On a 540 dp wide screen at
      density 1, a 10 by 10 target at (100, 500) gets its 300 high caption laid
      out above it by the caption rules, starting at x = 100 and running to the
      screen's right edge at 540. The backdrop then has radius 300 and centre
      (307.5, 180), about 383 away from the target's centre. */
  lemma BackdropCanMissTarget()
    ensures var target := Rect(100.0, 500.0, 110.0, 510.0);
            var text := Rect(100.0, 180.0, 540.0, 480.0);
            var r := TargetRadius(target);
            IsOuterRadius(text, target, 275.0) &&
            !TargetInGutter(target, 1.0, 800) &&
            Caption.CaptionTop(AnimatedRounded, target, r, 300) == text.top &&
            Caption.CaptionLeft(target, r, 540) == text.left &&
            !InDisc(Center(target), OuterCircleCenter(target, text, r, 300, false),
                    OuterCircleRadius(text, target, 275.0))
  {
    var target := Rect(100.0, 500.0, 110.0, 510.0);
    var text := Rect(100.0, 180.0, 540.0, 480.0);
    assert MaxDimension(target) == 10.0;
    var r := TargetRadius(target);
    assert r == 25.0;
    var u := Union(text, target);
    assert u == Rect(100.0, 180.0, 540.0, 510.0);
    assert Sq(275.0) == OuterRadiusSquared(text, target);
    assert Center(target) == Offset(105.0, 505.0);
    assert OuterCircleCenter(target, text, r, 300, false) == Offset(307.5, 180.0);
    assert OuterCircleRadius(text, target, 275.0) == 300.0;
  }

  /** Centre of the caption-and-target box: the backdrop centre under which the
      outer radius, the box's half-diagonal, reaches every corner. */
  function CoveringBackdropCenter(text: Rect, target: Rect): (c: Offset)
    ensures c.x - Min(text.left, target.left) == Max(text.right, target.right) - c.x
    ensures c.y - Min(text.top, target.top) == Max(text.bottom, target.bottom) - c.y
  {
    Center(Union(text, target))
  }

  /** Centred on the caption-and-target box, a backdrop of the drawn radius
      covers the caption, the target and the whole spotlight disc. */
  lemma CoveringBackdropCoversAll(text: Rect, target: Rect, rho: real)
    requires Normalized(text) && Normalized(target)
    requires IsOuterRadius(text, target, rho)
    ensures var c := CoveringBackdropCenter(text, target);
            var radius := OuterCircleRadius(text, target, rho);
            (forall p :: Covers(text, p) || Covers(target, p) ==> InDisc(p, c, radius)) &&
            (forall p :: InDisc(p, Center(target), TargetRadius(target)) ==> InDisc(p, c, radius))
  {
    var c := CoveringBackdropCenter(text, target);
    var radius := OuterCircleRadius(text, target, rho);
    OuterRadiusCoversBoth(text, target, rho);
    SqMonotone(rho, radius);
    assert Covers(target, Center(target));
    DiscInsideDisc(Center(target), TargetRadius(target), c, rho);
  }
}
