/** The walk through the registered targets: a cursor over the targets sorted by
    `index`, advanced by one on each tap that lands on the target on screen, with
    the completion callback fired by the tap that moves the cursor to the end. */
module Sequencer {
  import opened Geometry
  import opened Options
  import opened Property
  import opened Ordering

  /** The targets in walk order and the position of the one on screen. */
  datatype Walk = Walk(targets: seq<ShowcaseProperty>, cursor: nat)

  /** The cursor never passes the end. */
  predicate Valid(w: Walk) {
    w.cursor <= |w.targets|
  }

  /** A walk over the registered values, starting at the first. */
  function Start(values: seq<ShowcaseProperty>): (w: Walk)
    ensures w.cursor == 0 && Valid(w)
    ensures SortedByIndex(w.targets) && multiset(w.targets) == multiset(values)
  {
    Walk(SortByIndex(values), 0)
  }

  /** The target on screen, if any: nothing is shown for an empty walk or once
      the cursor has reached the end. */
  function Current(w: Walk): (r: Option<ShowcaseProperty>)
    ensures r.Some? <==> w.cursor < |w.targets|
    ensures r.Some? ==> r.value == w.targets[w.cursor]
  {
    if |w.targets| > 0 && w.cursor < |w.targets| then Some(w.targets[w.cursor]) else None
  }

  /** A tap counts only when a target is on screen and the tap lands inside its
      bounds. */
  predicate Accepts(w: Walk, tap: Offset) {
    Current(w).Some? && Contains(Current(w).value.coordinates, tap)
  }

  /** The walk after one tap, and whether that tap fired the completion callback. */
  datatype Tapped = Tapped(walk: Walk, completed: bool)

  function Step(w: Walk, tap: Offset): (r: Tapped)
    ensures r.walk.targets == w.targets
    ensures Accepts(w, tap) ==> r.walk.cursor == w.cursor + 1
    ensures Accepts(w, tap) ==> (r.completed <==> r.walk.cursor >= |w.targets|)
    ensures !Accepts(w, tap) ==> r.walk == w && !r.completed
    ensures Valid(w) ==> Valid(r.walk)
  {
    match Current(w)
    case None => Tapped(w, false)
    case Some(t) =>
      if Contains(t.coordinates, tap) then
        var cursor := w.cursor + 1;
        Tapped(Walk(w.targets, cursor), cursor >= |w.targets|)
      else
        Tapped(w, false)
  }

  /** A tap moves the walk exactly when it lands inside the bounds of the target
      on screen; a tap anywhere else, or with nothing on screen, leaves the walk
      as it was and fires nothing. */
  lemma OnlyHitsAdvance(w: Walk, tap: Offset)
    ensures Step(w, tap).walk != w <==>
            w.cursor < |w.targets| && Contains(w.targets[w.cursor].coordinates, tap)
    ensures Accepts(w, tap) <==>
            w.cursor < |w.targets| && Contains(w.targets[w.cursor].coordinates, tap)
    ensures Step(w, tap).completed ==> Step(w, tap).walk != w
  {
  }

  /** The walk after a sequence of taps, how many taps were accepted, and how
      many times the completion callback fired. */
  datatype Trace = Trace(walk: Walk, accepted: nat, completions: nat)

  function Run(w: Walk, taps: seq<Offset>): (r: Trace)
    ensures r.walk.targets == w.targets
    ensures r.walk.cursor == w.cursor + r.accepted
    ensures Valid(w) ==> Valid(r.walk)
    ensures Valid(w) ==>
      r.completions == if w.cursor < |w.targets| && r.walk.cursor == |w.targets| then 1 else 0
    decreases |taps|
  {
    if taps == [] then Trace(w, 0, 0)
    else
      var s := Step(w, taps[0]);
      var rest := Run(s.walk, taps[1..]);
      Trace(rest.walk,
            rest.accepted + (if Accepts(w, taps[0]) then 1 else 0),
            rest.completions + (if s.completed then 1 else 0))
  }

  /** Over any sequence of taps the callback fires at most once, and it fires
      exactly when the walk has been taken to its end. An empty walk never
      fires it. */
  lemma CompletesAtMostOnce(values: seq<ShowcaseProperty>, taps: seq<Offset>)
    ensures Run(Start(values), taps).completions <= 1
    ensures Run(Start(values), taps).completions == 1 <==>
            |values| > 0 && Run(Start(values), taps).walk.cursor == |values|
  {
  }

  /** Taps on each target's centre, in walk order. */
  function CenterTaps(ts: seq<ShowcaseProperty>): (r: seq<Offset>)
    ensures |r| == |ts|
  {
    if ts == [] then [] else [Center(ts[0].coordinates)] + CenterTaps(ts[1..])
  }

  predicate HasArea(p: ShowcaseProperty) {
    Width(p.coordinates) > 0.0 && Height(p.coordinates) > 0.0
  }

  lemma {:induction false} TapCentersFrom(ts: seq<ShowcaseProperty>, c: nat)
    requires c <= |ts|
    requires forall p | p in ts :: HasArea(p)
    ensures Run(Walk(ts, c), CenterTaps(ts[c..])).walk.cursor == |ts|
    ensures Run(Walk(ts, c), CenterTaps(ts[c..])).accepted == |ts| - c
    decreases |ts| - c
  {
    if c < |ts| {
      var w := Walk(ts, c);
      var taps := CenterTaps(ts[c..]);
      assert ts[c] in ts;
      CenterIsHit(ts[c].coordinates);
      assert taps[0] == Center(ts[c].coordinates);
      assert Accepts(w, taps[0]);
      assert ts[c..][1..] == ts[c + 1..];
      TapCentersFrom(ts, c + 1);
    }
  }

  /** Tapping every target once, in walk order, visits the whole walk and fires
      the callback once, after the last target; for an empty walk it never fires. */
  lemma FullWalkCompletesOnce(values: seq<ShowcaseProperty>)
    requires forall p | p in values :: HasArea(p)
    ensures var w := Start(values);
            var r := Run(w, CenterTaps(w.targets));
            r.walk.cursor == |values| && r.accepted == |values| &&
            r.completions == (if |values| > 0 then 1 else 0)
  {
    var w := Start(values);
    forall p | p in w.targets ensures HasArea(p) {
      assert p in multiset(values);
    }
    assert w.targets[0..] == w.targets;
    TapCentersFrom(w.targets, 0);
  }

  /** Over time the targets appear in ascending `index` order. */
  lemma ShownInIndexOrder(values: seq<ShowcaseProperty>, before: seq<Offset>, after: seq<Offset>)
    requires Current(Run(Start(values), before).walk).Some?
    requires Current(Run(Run(Start(values), before).walk, after).walk).Some?
    ensures Current(Run(Start(values), before).walk).value.index <=
            Current(Run(Run(Start(values), before).walk, after).walk).value.index
  {
  }

  /** Number of records whose index satisfies `inRange`. */
  function Count(s: seq<ShowcaseProperty>, inRange: int -> bool): (n: nat)
    ensures n <= |s|
  {
    if s == [] then 0 else (if inRange(s[0].index) then 1 else 0) + Count(s[1..], inRange)
  }

  function Below(b: int): int -> bool { i => i < b }

  function AtMost(b: int): int -> bool { i => i <= b }

  lemma {:induction false} CountConcat(s: seq<ShowcaseProperty>, t: seq<ShowcaseProperty>, inRange: int -> bool)
    ensures Count(s + t, inRange) == Count(s, inRange) + Count(t, inRange)
    decreases |s|
  {
    if s != [] {
      var st := s + t;
      assert st != [] && st[0] == s[0];
      assert st[1..] == s[1..] + t;
      CountConcat(s[1..], t, inRange);
      assert Count(st, inRange) == (if inRange(s[0].index) then 1 else 0) + Count(s[1..] + t, inRange);
    } else {
      assert s + t == t;
    }
  }

  lemma {:induction false} CountInsert(p: ShowcaseProperty, s: seq<ShowcaseProperty>, inRange: int -> bool)
    ensures Count(Insert(p, s), inRange) == Count(s, inRange) + (if inRange(p.index) then 1 else 0)
    decreases |s|
  {
    if s == [] || p.index <= s[0].index {
      assert ([p] + s)[1..] == s;
    } else {
      assert ([s[0]] + Insert(p, s[1..]))[1..] == Insert(p, s[1..]);
      CountInsert(p, s[1..], inRange);
    }
  }

  /** Sorting does not change how many records fall in a range. */
  lemma {:induction false} CountSort(s: seq<ShowcaseProperty>, inRange: int -> bool)
    ensures Count(SortByIndex(s), inRange) == Count(s, inRange)
    decreases |s|
  {
    if s != [] {
      CountSort(s[1..], inRange);
      CountInsert(s[0], SortByIndex(s[1..]), inRange);
    }
  }

  lemma {:induction false} CountMonotone(s: seq<ShowcaseProperty>, narrow: int -> bool, wide: int -> bool)
    requires forall i :: narrow(i) ==> wide(i)
    ensures Count(s, narrow) <= Count(s, wide)
    decreases |s|
  {
    if s != [] {
      CountMonotone(s[1..], narrow, wide);
    }
  }

  /** A member outside `narrow` but inside `wide` makes the wider count strictly larger. */
  lemma {:induction false} CountMember(s: seq<ShowcaseProperty>, p: ShowcaseProperty, narrow: int -> bool, wide: int -> bool)
    requires p in s
    requires forall i :: narrow(i) ==> wide(i)
    requires !narrow(p.index) && wide(p.index)
    ensures Count(s, narrow) < Count(s, wide)
    decreases |s|
  {
    if s[0] == p {
      CountMonotone(s[1..], narrow, wide);
    } else {
      CountMember(s[1..], p, narrow, wide);
    }
  }

  /** The target shown at cursor `k` has rank `k` among the registered values:
      at most `k` of them have a smaller index, and more than `k` have an index
      no larger than its own. */
  lemma ShownTargetHasRank(values: seq<ShowcaseProperty>, k: nat)
    requires k < |values|
    ensures Current(Walk(SortByIndex(values), k)).Some?
    ensures var p := Current(Walk(SortByIndex(values), k)).value;
            p in values &&
            Count(values, Below(p.index)) <= k < Count(values, AtMost(p.index))
  {
    var x := SortByIndex(values);
    var p := x[k];
    assert p in multiset(values);
    CountSort(values, Below(p.index));
    CountSort(values, AtMost(p.index));
    RankInSorted(x, k);
  }

  lemma RankInSorted(x: seq<ShowcaseProperty>, k: nat)
    requires SortedByIndex(x) && k < |x|
    ensures Count(x, Below(x[k].index)) <= k < Count(x, AtMost(x[k].index))
  {
    FewBelowInSorted(x, k);
    ManyAtMostInSorted(x, k);
  }

  lemma FewBelowInSorted(x: seq<ShowcaseProperty>, k: nat)
    requires SortedByIndex(x) && k < |x|
    ensures Count(x, Below(x[k].index)) <= k
  {
    var b := x[k].index;
    assert x == x[..k] + x[k..];
    CountConcat(x[..k], x[k..], Below(b));
    NoneBelowHead(x[k..]);
  }

  lemma ManyAtMostInSorted(x: seq<ShowcaseProperty>, k: nat)
    requires SortedByIndex(x) && k < |x|
    ensures k < Count(x, AtMost(x[k].index))
  {
    var b := x[k].index;
    assert x == x[..k + 1] + x[k + 1..];
    CountConcat(x[..k + 1], x[k + 1..], AtMost(b));
    AllAtMostLast(x[..k + 1]);
  }

  lemma {:induction false} NoneBelowHead(s: seq<ShowcaseProperty>)
    requires SortedByIndex(s) && s != []
    ensures Count(s, Below(s[0].index)) == 0
  {
    NoneBelow(s, s[0].index);
  }

  lemma {:induction false} NoneBelow(s: seq<ShowcaseProperty>, b: int)
    requires forall i | 0 <= i < |s| :: b <= s[i].index
    ensures Count(s, Below(b)) == 0
    decreases |s|
  {
    if s != [] {
      NoneBelow(s[1..], b);
    }
  }

  lemma {:induction false} AllAtMostLast(s: seq<ShowcaseProperty>)
    requires SortedByIndex(s) && s != []
    ensures Count(s, AtMost(s[|s| - 1].index)) == |s|
  {
    AllAtMost(s, s[|s| - 1].index);
  }

  lemma {:induction false} AllAtMost(s: seq<ShowcaseProperty>, b: int)
    requires forall i | 0 <= i < |s| :: s[i].index <= b
    ensures Count(s, AtMost(b)) == |s|
    decreases |s|
  {
    if s != [] {
      AllAtMost(s[1..], b);
    }
  }

  /** Conversely, when an index names one record, the record with exactly `k`
      smaller-indexed values is the one shown at cursor `k`. */
  lemma RankDeterminesShownTarget(values: seq<ShowcaseProperty>, p: ShowcaseProperty, k: nat)
    requires IndexIdentifies(values)
    requires p in values
    requires Count(values, Below(p.index)) == k
    ensures Current(Walk(SortByIndex(values), k)) == Some(p)
  {
    CountMember(values, p, Below(p.index), AtMost(p.index));
    assert k < |values|;
    ShownTargetHasRank(values, k);
    var q := Current(Walk(SortByIndex(values), k)).value;
    if p.index < q.index {
      CountMonotone(values, AtMost(p.index), Below(q.index));
      assert false;
    } else if q.index < p.index {
      CountMonotone(values, AtMost(q.index), Below(p.index));
      assert false;
    }
  }
}
