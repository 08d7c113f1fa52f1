/** Placement of the caption (title and subtitle) next to the spotlight, as the
    caption's layout callback computes it from the target's bounds, the
    spotlight radius, the caption's own measured size and the screen width.
    Values stay in the units the callback mixes: target bounds in pixels,
    screen width in dp. */
module Caption {
  import opened Geometry
  import opened Options
  import opened Property

  /** For the variants other than animated rounded, the candidate top is this
      far below the target's centre, less the caption height. */
  const DropBelowCenter: real := 200.0
  /** When the candidate top is not positive, the caption starts this far above
      the bottom of the spotlight circle. */
  const FallbackLift: real := 140.0
  /** A narrowed subtitle is half the screen plus this much. */
  const NarrowExtra: real := 40.0

  /** Where the caption would like its top edge to be. */
  function CandidateTop(kind: ShowcaseType, target: Rect, radius: real, textHeight: int): real {
    if kind == AnimatedRounded then
      Center(target).y - radius - textHeight as real
    else
      Center(target).y - textHeight as real + DropBelowCenter
  }

  /** Vertical offset of the caption. The animated rounded variant puts the
      caption right on top of the spotlight circle, the others end it
      `DropBelowCenter` below the target's centre; when that would not start
      below the top of the screen, the caption falls back to just above the
      bottom of the spotlight circle. */
  function CaptionTop(kind: ShowcaseType, target: Rect, radius: real, textHeight: int): (y: real)
    ensures y > 0.0 || y == Center(target).y + radius - FallbackLift
    ensures kind == AnimatedRounded && CandidateTop(kind, target, radius, textHeight) > 0.0 ==>
              y + textHeight as real == Center(target).y - radius
    ensures kind != AnimatedRounded && CandidateTop(kind, target, radius, textHeight) > 0.0 ==>
              y + textHeight as real == Center(target).y + DropBelowCenter
    ensures CandidateTop(kind, target, radius, textHeight) <= 0.0 ==>
              y == Center(target).y + radius - FallbackLift
  {
    var possibleTop := CandidateTop(kind, target, radius, textHeight);
    if possibleTop > 0.0 then possibleTop else Center(target).y + radius - FallbackLift
  }

  /** When the animated rounded caption sits above the spotlight, no point of
      its horizontal band lies strictly inside the spotlight circle. */
  lemma CaptionAboveClearsSpotlight(target: Rect, radius: real, textHeight: int)
    requires radius >= 0.0 && textHeight >= 0
    requires CandidateTop(AnimatedRounded, target, radius, textHeight) > 0.0
    ensures var y := CaptionTop(AnimatedRounded, target, radius, textHeight);
            forall p: Offset :: y <= p.y <= y + textHeight as real ==>
              Sq(p.x - Center(target).x) + Sq(p.y - Center(target).y) >= Sq(radius)
  {
    var c := Center(target);
    var y := CaptionTop(AnimatedRounded, target, radius, textHeight);
    forall p: Offset | y <= p.y <= y + textHeight as real
      ensures Sq(p.x - c.x) + Sq(p.y - c.y) >= Sq(radius)
    {
      assert c.y - p.y >= radius;
      SqMonotone(radius, c.y - p.y);
      assert Sq(c.y - p.y) == Sq(p.y - c.y);
      assert Sq(p.x - c.x) >= 0.0;
    }
  }

  /** Horizontal offset of the caption: a target whose left edge, in pixels,
      is at least half the screen width in dp puts the caption `radius` right of
      that half width; any other target aligns the caption with its own left
      edge. */
  function CaptionLeft(target: Rect, radius: real, screenWidthDp: int): (x: real)
    ensures target.left >= screenWidthDp as real / 2.0 ==> x == screenWidthDp as real / 2.0 + radius
    ensures target.left < screenWidthDp as real / 2.0 ==> x == target.left
    ensures radius >= 0.0 ==> (x >= screenWidthDp as real / 2.0 <==> target.left >= screenWidthDp as real / 2.0)
  {
    var half := screenWidthDp as real / 2.0;
    if target.left >= half then half + radius else target.left
  }

  /** Width of the subtitle. It reads the caption's right edge, pushed out by
      the spotlight radius, as stored by the previous layout pass (0 before the
      first pass): when that reach runs past the screen width the subtitle is
      half the screen plus `NarrowExtra`, otherwise the whole screen. */
  function SubtitleWidth(previous: Option<Rect>, radius: real, screenWidthDp: int): (w: real)
    ensures previous.Some? && previous.value.right + radius > screenWidthDp as real ==>
              w == screenWidthDp as real / 2.0 + NarrowExtra
    ensures previous.Some? && previous.value.right + radius <= screenWidthDp as real ==>
              w == screenWidthDp as real
    ensures previous.None? && screenWidthDp >= 0 ==> w == screenWidthDp as real
    ensures screenWidthDp >= 80 ==> w <= screenWidthDp as real
    ensures screenWidthDp >= 0 ==> w >= screenWidthDp as real / 2.0
  {
    var reach := match previous
      case None => 0.0
      case Some(bounds) => bounds.right + radius;
    if reach > screenWidthDp as real then screenWidthDp as real / 2.0 + NarrowExtra
    else screenWidthDp as real
  }

  /** Once a caption of width `captionWidth` has been placed by `CaptionLeft`,
      the next pass narrows the subtitle exactly when the caption plus the
      spotlight radius overruns the screen: for a target in the right half when
      the caption is wider than half the screen less twice the radius, for any
      other target when its left edge plus the caption and the radius pass the
      screen width. Taking pixels and dp as equal, the caption's left edge plus
      the narrowed subtitle width under a right-half caption lies
      `radius + NarrowExtra` past the screen's right edge. */
  lemma SubtitleNarrowing(target: Rect, radius: real, screenWidthDp: int,
                          top: real, captionWidth: real, captionHeight: real)
    ensures var half := screenWidthDp as real / 2.0;
            var x := CaptionLeft(target, radius, screenWidthDp);
            var w := SubtitleWidth(Some(Rect(x, top, x + captionWidth, top + captionHeight)), radius, screenWidthDp);
            (target.left >= half && captionWidth + 2.0 * radius > half ==> w == half + NarrowExtra) &&
            (target.left >= half && captionWidth + 2.0 * radius <= half ==> w == screenWidthDp as real) &&
            (target.left < half && target.left + captionWidth + radius > screenWidthDp as real ==>
               w == half + NarrowExtra) &&
            (target.left < half && target.left + captionWidth + radius <= screenWidthDp as real ==>
               w == screenWidthDp as real) &&
            (target.left >= half && w == half + NarrowExtra ==>
               x + w == screenWidthDp as real + radius + NarrowExtra)
  {
  }
}
