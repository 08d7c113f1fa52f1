# SSComposeShowCaseView in Dafny

A model of the decision logic of the SSComposeShowCaseView onboarding overlay. The overlay
spotlights the screen's registered targets one at a time, in ascending `index` order. A tap
inside the current target moves on to the next, and a completion callback fires after the
last one.

The model covers four things:

- the immutable `ShowcaseProperty` record, its defaults, and the key-to-record registry that
  elements fill in as they are laid out (`property.dfy`);
- the walk order: a stable sort by `index` (`ordering.dfy`);
- the walk itself: a cursor over the sorted targets, the hit test on taps, and when the
  completion callback fires (`sequencer.dfy`);
- the geometry: the spotlight radius and circular cut-out, the gutter test, and the centre and
  radius of the backdrop circle (`spotlight.dfy`), plus the caption placement rules
  (`caption.dfy`).

The toolkit's `Rect` and `Offset` are replaced by plain records of reals (`geometry.dfy`).
`Rect.contains` keeps the toolkit's half-open convention: the left and top edges are inside,
the right and bottom edges are not. `maxDimension` is the larger absolute side length. The
file declaring `ShowcaseType` is not part of this model. Its four variants are taken from the
`when` over it in `ShowcaseView.kt`.

The main results:

- The walk is a stable sort of the registered values by `index`.
- When an index names one record, the walk does not depend on the order in which the map
  hands over its values.
- The target shown at cursor `k` is the one with rank `k` among the registered values. The
  converse, that the value of rank `k` is the one shown at cursor `k`, is proved when distinct
  records carry distinct indices.
- A tap outside the current target changes nothing.
- Over any tap sequence on a fixed set of targets, the callback fires at most once: exactly
  when the walk reaches its end. A target registered after completion resumes the walk, and
  the tap that finishes it fires the callback again (see "Left out").
- Tapping the centre of each target once completes a non-empty walk, provided every target
  has a positive width and height. A target without area rejects every tap, so the walk stops
  there.
- The circular cut-out clears the whole target exactly when the target's diagonal is at most
  the cut-out's diameter.
- A disc whose radius is the outer radius (half the diagonal of the caption-and-target box)
  covers both the caption and the target when it is centred on that box.
- The backdrop the animated rounded variant draws is centred elsewhere
  (`getOuterCircleCenter`), with the outer radius plus the spotlight radius. It covers the
  whole spotlight disc when the target's centre lies within the outer radius of the backdrop's
  centre, and always for a target in the gutter. Otherwise it can miss the target entirely
  (see "Findings").

## Model

| member | source | states |
|---|---|---|
| `Property.NewProperty` | sscomposeshowcaseview/src/main/java/com/example/sscomposeshowcaseview/ShowcaseProperty.kt:6-16 | a record built from the required arguments keeps them; title and subtitle colours default to white, the type to simple rounded, blur opacity to 0.8 and the delay to 2000 |
| `Property.Register` | app/src/main/java/com/example/sscomposeshowcaseview/MainActivity.kt:107-113 | storing a record under a key makes that key map to the new record and leaves every other key and record as it was |
| `Ordering.Insert` | sscomposeshowcaseview/src/main/java/com/example/sscomposeshowcaseview/ShowcaseView.kt:58 | inserting into a sequence sorted by index gives a sorted sequence holding exactly the old elements plus the new one |
| `Ordering.SortByIndex` | sscomposeshowcaseview/src/main/java/com/example/sscomposeshowcaseview/ShowcaseView.kt:58 | the walk order is ascending by index and is a permutation of the registered values |
| `Ordering.SortIsStable` | sscomposeshowcaseview/src/main/java/com/example/sscomposeshowcaseview/ShowcaseView.kt:58 | for every index, the records sharing it keep their input order, as a stable sort guarantees |
| `Ordering.SortedPermutationsAgree` | sscomposeshowcaseview/src/main/java/com/example/sscomposeshowcaseview/ShowcaseView.kt:58 | two index-sorted permutations of the same records are equal when an index names one record |
| `Ordering.SortIgnoresInputOrder` | sscomposeshowcaseview/src/main/java/com/example/sscomposeshowcaseview/ShowcaseView.kt:58 | when an index names one record, permuting the input does not change the walk order |
| `Ordering.ValuesOf` | sscomposeshowcaseview/src/main/java/com/example/sscomposeshowcaseview/ShowcaseView.kt:55-58 | the registry's values listed along a key enumeration: one entry per key, each being that key's record |
| `Ordering.RegisterUpdatesValues` | app/src/main/java/com/example/sscomposeshowcaseview/MainActivity.kt:105-113 | a layout callback changes the walk's input by exactly its record: re-registering a key swaps the old record for the new one and keeps the count, and a new key adds one record |
| `Ordering.WalkOrderIgnoresMapOrder` | sscomposeshowcaseview/src/main/java/com/example/sscomposeshowcaseview/ShowcaseView.kt:55-58 | any two enumerations of the registry give the same walk, provided distinct records carry distinct indices |
| `Sequencer.Start` | sscomposeshowcaseview/src/main/java/com/example/sscomposeshowcaseview/ShowcaseView.kt:58-59 | a walk starts at cursor 0 over a sorted permutation of the registered values |
| `Sequencer.Current` | sscomposeshowcaseview/src/main/java/com/example/sscomposeshowcaseview/ShowcaseView.kt:60-63 | a target is shown exactly when the cursor is before the end, and it is the one under the cursor; nothing is shown for an empty walk |
| `Sequencer.Step` | sscomposeshowcaseview/src/main/java/com/example/sscomposeshowcaseview/ShowcaseView.kt:65-70 | an accepted tap raises the cursor by exactly one and fires the callback iff the new cursor reaches the size; any other tap changes nothing and fires nothing |
| `Sequencer.OnlyHitsAdvance` | sscomposeshowcaseview/src/main/java/com/example/sscomposeshowcaseview/ShowcaseView.kt:141-146 | the hit test `Accepts` (the target rectangle's half-open `contains`) holds iff a target is on screen and the tap lands inside its bounds, and a tap changes the walk exactly then; a tap that fires the callback always advances the walk |
| `Sequencer.Run` | sscomposeshowcaseview/src/main/java/com/example/sscomposeshowcaseview/ShowcaseView.kt:65-70 | over a tap sequence the cursor advances by the number of accepted taps, never passes the end, and the callback fires once if the walk was taken to its end and never otherwise |
| `Sequencer.CompletesAtMostOnce` | sscomposeshowcaseview/src/main/java/com/example/sscomposeshowcaseview/ShowcaseView.kt:67-69 | from the start of a walk the callback fires at most once, and it fires iff the walk is non-empty and has reached its end |
| `Sequencer.FullWalkCompletesOnce` | sscomposeshowcaseview/src/main/java/com/example/sscomposeshowcaseview/ShowcaseView.kt:60-69 | when every target has positive width and height, tapping each target's centre in turn accepts every tap, reaches the end, and fires the callback once (never, for an empty walk) |
| `Sequencer.ShownInIndexOrder` | sscomposeshowcaseview/src/main/java/com/example/sscomposeshowcaseview/ShowcaseView.kt:58-63 | a target shown later never has a smaller index than one shown earlier |
| `Sequencer.ShownTargetHasRank` | sscomposeshowcaseview/src/main/java/com/example/sscomposeshowcaseview/ShowcaseView.kt:58-61 | the target shown at cursor k is a registered value; at most k values have a smaller index, and more than k have an index no larger |
| `Sequencer.RankDeterminesShownTarget` | sscomposeshowcaseview/src/main/java/com/example/sscomposeshowcaseview/ShowcaseView.kt:58-61 | when an index names one record, the value with exactly k smaller-indexed values is the one shown at cursor k |
| `Spotlight.TargetRadius` | sscomposeshowcaseview/src/main/java/com/example/sscomposeshowcaseview/ShowcaseView.kt:82 | the spotlight radius is at least 20 and exceeds half the larger side; it reaches exactly 20 past the midpoint of the farther pair of edges |
| `Spotlight.CutoutRadius` | sscomposeshowcaseview/src/main/java/com/example/sscomposeshowcaseview/ShowcaseView.kt:150-208 | only the two rounded variants cut a circle; simple rounded uses the spotlight radius minus 10, animated rounded the full radius, and both exceed half the larger side |
| `Spotlight.DefaultTargetGetsSimpleCutout` | sscomposeshowcaseview/src/main/java/com/example/sscomposeshowcaseview/ShowcaseProperty.kt:13 | a target given no type gets the simple circular cut-out, of radius half its larger side plus 10 |
| `Spotlight.CutoutCoversTargetIff` | sscomposeshowcaseview/src/main/java/com/example/sscomposeshowcaseview/ShowcaseView.kt:160-165 | the circular cut-out clears every point of the target iff the target's squared diagonal is at most the squared diameter |
| `Spotlight.SmallTargetsFullyCleared` | sscomposeshowcaseview/src/main/java/com/example/sscomposeshowcaseview/ShowcaseView.kt:160-165 | targets with no side longer than 40 are cleared entirely by either circular cut-out |
| `Spotlight.SquareClearedIff` | sscomposeshowcaseview/src/main/java/com/example/sscomposeshowcaseview/ShowcaseView.kt:160-165 | a square target of side m is cleared entirely by the simple cut-out iff m*m - 40*m - 400 <= 0, that is for sides up to about 48.3 |
| `Spotlight.InGutter` | sscomposeshowcaseview/src/main/java/com/example/sscomposeshowcaseview/ShowcaseView.kt:122-132 | a position is outside the gutter iff it lies in the band from 10 below the top to 10 above the screen height |
| `Spotlight.TargetInGutter` | sscomposeshowcaseview/src/main/java/com/example/sscomposeshowcaseview/ShowcaseView.kt:124-132 | after the pixel-to-dp conversion, a target is in the gutter iff its top is above 10 times the density or below (height - 10) times the density, in pixels |
| `Spotlight.OuterCircleCenter` | sscomposeshowcaseview/src/main/java/com/example/sscomposeshowcaseview/ShowcaseView.kt:329-356 | X is equidistant from both ends of the caption-and-reach span. In the gutter, Y is the target centre's Y. Otherwise Y is radius + text height from the centre: above it when that point is positive, below it otherwise |
| `Spotlight.OuterCircleCenterPlacement` | sscomposeshowcaseview/src/main/java/com/example/sscomposeshowcaseview/ShowcaseView.kt:339-353 | the span covers the caption and the whole spotlight disc and contains X; Y is never negative when the target's centre is on screen |
| `Spotlight.Union` | sscomposeshowcaseview/src/main/java/com/example/sscomposeshowcaseview/ShowcaseView.kt:315-321 | the bounding box encloses both the caption and the target, and every rectangle enclosing both encloses it |
| `Spotlight.OuterRadiusSquared` | sscomposeshowcaseview/src/main/java/com/example/sscomposeshowcaseview/ShowcaseView.kt:322-326 | the squared outer radius (a quarter of the box's squared diagonal) is non-negative |
| `Spotlight.OuterRadiusCoversBoth` | sscomposeshowcaseview/src/main/java/com/example/sscomposeshowcaseview/ShowcaseView.kt:315-327 | a disc of the outer radius around the box's centre covers every point of both the caption and the target |
| `Spotlight.OuterCircleRadius` | sscomposeshowcaseview/src/main/java/com/example/sscomposeshowcaseview/ShowcaseView.kt:135 | the backdrop radius is at least the spotlight radius and at least the outer radius |
| `Spotlight.BackdropCoversSpotlight` | sscomposeshowcaseview/src/main/java/com/example/sscomposeshowcaseview/ShowcaseView.kt:129-136 | the drawn backdrop covers the whole spotlight disc when the target's centre is within the outer radius of the backdrop's centre; in the gutter that always holds |
| `Spotlight.BackdropCanMissTarget` | sscomposeshowcaseview/src/main/java/com/example/sscomposeshowcaseview/ShowcaseView.kt:129-136 | on a 540 dp screen at density 1, for a 10 by 10 target at (100, 500) and a 300 high caption placed by the caption rules from x = 100 to the screen edge at 540, the drawn backdrop does not contain the target's centre |
| `Spotlight.CoveringBackdropCoversAll` | sscomposeshowcaseview/src/main/java/com/example/sscomposeshowcaseview/ShowcaseView.kt:315-327 | centred on the caption-and-target box, a disc of the drawn radius covers the caption, the target and the whole spotlight disc |
| `Caption.CaptionTop` | sscomposeshowcaseview/src/main/java/com/example/sscomposeshowcaseview/ShowcaseView.kt:270-282 | when the candidate top is positive, the animated rounded caption's bottom edge meets the top of the spotlight circle and other captions end 200 below the centre; otherwise the caption starts at centre + radius - 140 |
| `Caption.CaptionAboveClearsSpotlight` | sscomposeshowcaseview/src/main/java/com/example/sscomposeshowcaseview/ShowcaseView.kt:271-279 | a caption placed above the animated rounded spotlight has no point strictly inside the spotlight circle |
| `Caption.CaptionLeft` | sscomposeshowcaseview/src/main/java/com/example/sscomposeshowcaseview/ShowcaseView.kt:277-289 | a target whose left edge in pixels is at least half the screen width in dp puts the caption radius right of that half width; any other target aligns the caption with its own left edge. With a non-negative radius, the caption's left edge reaches half the width iff the target's does |
| `Caption.SubtitleWidth` | sscomposeshowcaseview/src/main/java/com/example/sscomposeshowcaseview/ShowcaseView.kt:283-310 | the subtitle is full width before the first layout pass and whenever the previous pass's caption right edge plus the radius stays within the screen width; otherwise it is half the width plus 40. It never exceeds a screen of at least 80 dp, nor falls below half the screen |
| `Caption.SubtitleNarrowing` | sscomposeshowcaseview/src/main/java/com/example/sscomposeshowcaseview/ShowcaseView.kt:283-310 | after a caption of a given width has been placed, the subtitle is narrowed iff the caption plus twice the radius passes half the screen (right-half target), or the target's left edge plus the caption and the radius passes the screen (other targets); with pixels and dp equal, the caption's left edge plus the narrowed subtitle width under a right-half caption lies radius + 40 past the screen edge |

## Left out

- The backdrop's radius grows from 0.6 to 1 times its value over the first half second
  (`ShowcaseView.kt:191`). The covering lemmas are about the full radius.

- The backdrop circle's centre and radius are only computed once the caption has been laid
  out (`ShowcaseView.kt:129-136`). The model computes them from a given caption rectangle and
  does not model the first frame, when no caption rectangle exists yet.
- The caption's 2 dp padding (`ShowcaseView.kt:292`): caption positions and widths are those
  of the padded column, so the subtitle itself starts 2 dp inside the caption's left edge.
- Drawing and animation: the canvas calls, blend modes, the rectangle cut-outs (sized by the
  element's bounds in its parent, placed at the top-left of its bounds in the root), the animatables, tweens and launched-effect delays. These
  are frame-driven rendering with no contract beyond pixels.
- The UI runtime: `remember`, state holders, recomposition, and the registry being filled
  asynchronously by layout callbacks. A walk runs over a fixed sequence of targets. A target
  registered after completion is not modelled. In the source it grows the walk past the
  cursor, so the walk resumes, and the tap that finishes it fires the callback a second time
  (the test at `ShowcaseView.kt:67-68` compares with the new size). "At most once" holds only
  for a fixed set of targets.
- Layout objects: `boundsInRoot`, `boundsInParent` and `positionInRoot` are framework calls. A
  target's `coordinates` is its bounds in the root, and its position in the root is taken to be
  that rectangle's top-left corner.
- Iteration order of the registry: the toolkit's map promises no order, so the order is a
  parameter (a key enumeration). `Ordering.WalkOrderIgnoresMapOrder` shows the walk does not
  depend on it when distinct records carry distinct indices.
- `Spotlight.OuterRadiusSquared`: `sqrt` is not computed. The outer radius is stated through its
  square, and members that need the root take it as a parameter constrained by
  `Spotlight.IsOuterRadius`.
- Floating point: all coordinates are unbounded reals, so single-precision rounding is ignored.
  Kotlin `Int` and `Long` values (`index`, the cursor, the delay) are unbounded integers. The
  cursor cannot overflow, because it stops at the size.
- Units: the model keeps the source's mix of pixel and dp values as written. Target bounds are
  in pixels. The screen width and height are in dp. The caption offsets are computed in pixels
  before their conversion to dp.
- `Caption.SubtitleWidth` takes the previous layout pass's caption bounds as an argument
  (none before the first pass). Which pass's bounds the toolkit hands over is left to the
  caller. The dead store to the caption's
  X offset at `ShowcaseView.kt:284` is not modelled, because it is overwritten at once.
- `ShowcaseUtils.kt` (`Preferences`): a thin wrapper over the platform's key/value store. It is
  pure I/O.
- `MainActivity.kt`: demo wiring. It only serves as the example of registration, with distinct
  indices 1 to 6.
- Colours are abstracted to a packed ARGB value. Only white, the default, is named.

## Findings

| source | as written | input that shows it | evidently intended | confidence | as-written member | corrected member |
|---|---|---|---|---|---|---|
| sscomposeshowcaseview/src/main/java/com/example/sscomposeshowcaseview/ShowcaseView.kt:129-136 | the backdrop is centred by `getOuterCircleCenter` (a point beside the spotlight, at caption height) but takes its radius from `getOuterRadius`, the half-diagonal of the caption-and-target box, plus the spotlight radius | screen 540 dp wide and 800 dp high (so the target is outside the gutter) at density 1; target (100, 500)-(110, 510), caption (100, 180)-(540, 480) placed above it and running to the screen edge, text height 300: backdrop centre (307.5, 180), radius 300, target centre (105, 505) about 383 away | the outer radius only reaches every corner of the caption-and-target box from that box's centre, so the backdrop was meant to enclose the caption and the target | low; not executed | `Spotlight.BackdropCanMissTarget` | `Spotlight.CoveringBackdropCoversAll` |
