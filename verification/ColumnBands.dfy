/** Finding the columns of a page: _column_bands, _merge_intervals,
    _overlapping_bands and _dominant_band of worker/app/pipeline/reading_order.py.
    Coordinates are reals. */
module ColumnBands {
  import opened MinMax
  import opened Sorting

  const FULL_WIDTH_FRACTION := 0.5
  const NARROW_FRACTION := 0.1
  const GUTTER_FRACTION := 0.02

  /** A bounding box of positive area. */
  type Box = b: (real, real, real, real) | b.0 < b.2 && b.1 < b.3 witness (0.0, 0.0, 1.0, 1.0)

  type Interval = (real, real)

  ghost predicate Covered(x: real, s: seq<Interval>) {
    exists i :: 0 <= i < |s| && s[i].0 <= x <= s[i].1
  }

  // ----- merging

  predicate StartsFirst(a: Interval, b: Interval) {
    a.0 < b.0 || (a.0 == b.0 && a.1 <= b.1)
  }

  lemma StartsFirstIsTotal()
    ensures TotalPreorder(StartsFirst)
  {
  }

  /** One more interval on top of those merged so far. */
  function Extend(merged: seq<Interval>, next: Interval): seq<Interval> {
    if merged != [] && next.0 <= merged[|merged| - 1].1 then
      var last := merged[|merged| - 1];
      merged[..|merged| - 1] + [(last.0, MaxReal(last.1, next.1))]
    else
      merged + [next]
  }

  function Merged(intervals: seq<Interval>): seq<Interval> {
    if intervals == [] then []
    else Extend(Merged(intervals[..|intervals| - 1]), intervals[|intervals| - 1])
  }

  /** Nonempty, in order and with room between them. */
  ghost predicate Separated(s: seq<Interval>) {
    && (forall i :: 0 <= i < |s| ==> s[i].0 < s[i].1)
    && (forall i, j :: 0 <= i < j < |s| ==> s[i].1 < s[j].0)
  }

  method MergeIntervals(intervals: seq<Interval>) returns (merged: seq<Interval>)
    ensures merged == Merged(intervals)
  {
    merged := [];
    for k := 0 to |intervals|
      invariant merged == Merged(intervals[..k])
    {
      assert intervals[..k + 1][..k] == intervals[..k];
      var (a, b) := intervals[k];
      if merged != [] && a <= merged[|merged| - 1].1 {
        var last := merged[|merged| - 1];
        merged := merged[|merged| - 1 := (last.0, MaxReal(last.1, b))];
      } else {
        merged := merged + [(a, b)];
      }
    }
    assert intervals[..|intervals|] == intervals;
  }

  lemma ExtendCovers(merged: seq<Interval>, next: Interval, x: real)
    requires merged != [] ==> merged[|merged| - 1].0 <= next.0
    ensures Covered(x, Extend(merged, next)) <==> Covered(x, merged) || next.0 <= x <= next.1
  {
    var r := Extend(merged, next);
    var n := |merged| - 1;
    if Covered(x, r) {
      var i :| 0 <= i < |r| && r[i].0 <= x <= r[i].1;
      if i < |r| - 1 {
        assert merged[i] == r[i];
      } else if |r| == |merged| {
        assert merged[n].0 <= x;
      }
    }
    if Covered(x, merged) {
      var i :| 0 <= i < |merged| && merged[i].0 <= x <= merged[i].1;
      assert r[i].0 <= x <= r[i].1;
    }
    if next.0 <= x <= next.1 {
      assert r[|r| - 1].0 <= x <= r[|r| - 1].1;
    }
  }

  lemma ExtendSeparated(merged: seq<Interval>, next: Interval)
    requires Separated(merged) && next.0 < next.1
    requires merged != [] ==> merged[|merged| - 1].0 <= next.0
    ensures Separated(Extend(merged, next)) && Extend(merged, next) != []
    ensures Extend(merged, next)[|Extend(merged, next)| - 1].0 <= next.0
    ensures Extend(merged, next)[0].0 == if merged == [] then next.0 else merged[0].0
  {
  }

  /** Merging sorted intervals gives separated intervals... */
  lemma {:induction false} MergedSeparated(intervals: seq<Interval>)
    requires SortedBy(intervals, StartsFirst)
    requires forall i :: 0 <= i < |intervals| ==> intervals[i].0 < intervals[i].1
    ensures Separated(Merged(intervals))
    ensures intervals != [] ==>
              && Merged(intervals) != []
              && Merged(intervals)[|Merged(intervals)| - 1].0 <= intervals[|intervals| - 1].0
              && Merged(intervals)[0].0 == intervals[0].0
  {
    if intervals != [] {
      var init := intervals[..|intervals| - 1];
      MergedSeparated(init);
      if init != [] {
        assert StartsFirst(init[|init| - 1], intervals[|intervals| - 1]);
      }
      hide Extend, Separated;
      ExtendSeparated(Merged(init), intervals[|intervals| - 1]);
    }
  }

  /** ... that cover exactly what the intervals covered. */
  lemma {:induction false} MergedCovers(intervals: seq<Interval>, x: real)
    requires SortedBy(intervals, StartsFirst)
    requires forall i :: 0 <= i < |intervals| ==> intervals[i].0 < intervals[i].1
    ensures Covered(x, Merged(intervals)) <==> Covered(x, intervals)
  {
    if intervals != [] {
      var init, last := intervals[..|intervals| - 1], intervals[|intervals| - 1];
      MergedCovers(init, x);
      MergedSeparated(init);
      hide Extend, Separated, Covered;
      if init != [] {
        assert StartsFirst(init[|init| - 1], last);
      }
      ExtendCovers(Merged(init), last, x);
      OneMoreCovers(intervals, x);
    }
  }

  lemma OneMoreCovers(intervals: seq<Interval>, x: real)
    requires intervals != []
    ensures var last := intervals[|intervals| - 1];
            Covered(x, intervals) <==> Covered(x, intervals[..|intervals| - 1]) || last.0 <= x <= last.1
  {
    var init, last := intervals[..|intervals| - 1], intervals[|intervals| - 1];
    if Covered(x, init) {
      var i :| 0 <= i < |init| && init[i].0 <= x <= init[i].1;
      assert intervals[i] == init[i];
    }
    if last.0 <= x <= last.1 {
      assert intervals[|intervals| - 1].0 <= x;
    }
    if Covered(x, intervals) {
      var i :| 0 <= i < |intervals| && intervals[i].0 <= x <= intervals[i].1;
      assert i < |init| ==> init[i] == intervals[i];
    }
  }

  ghost predicate Inside(a: Interval, s: seq<Interval>) {
    exists m :: 0 <= m < |s| && s[m].0 <= a.0 && a.1 <= s[m].1
  }

  lemma ExtendInside(merged: seq<Interval>, next: Interval, a: Interval)
    requires merged != [] ==> merged[|merged| - 1].0 <= next.0
    requires Inside(a, merged) || a == next
    ensures Inside(a, Extend(merged, next))
  {
    var r := Extend(merged, next);
    if a == next {
      assert r[|r| - 1].0 <= a.0;
    } else {
      var m :| 0 <= m < |merged| && merged[m].0 <= a.0 && a.1 <= merged[m].1;
      assert r[m].0 == merged[m].0;
    }
  }

  /** Every interval lies inside one of the merged ones. */
  lemma {:induction false} MergedContains(intervals: seq<Interval>, k: nat)
    requires SortedBy(intervals, StartsFirst) && k < |intervals|
    requires forall i :: 0 <= i < |intervals| ==> intervals[i].0 < intervals[i].1
    ensures Inside(intervals[k], Merged(intervals))
  {
    var init, last := intervals[..|intervals| - 1], intervals[|intervals| - 1];
    MergedSeparated(init);
    if init != [] {
      assert StartsFirst(init[|init| - 1], last);
    }
    hide Extend, Separated, Inside;
    if k < |init| {
      MergedContains(init, k);
    }
    ExtendInside(Merged(init), last, intervals[k]);
  }

  // ----- gutters and bands

  /** How far right the intervals reach from the left page edge. */
  function Reach(merged: seq<Interval>): real {
    if merged == [] then 0.0
    else MaxReal(Reach(merged[..|merged| - 1]), merged[|merged| - 1].1)
  }

  predicate IsGutter(x: real, a: real, width: real) {
    x > 0.0 && a < width && a - x > GUTTER_FRACTION * width
  }

  function Gutters(merged: seq<Interval>, width: real): seq<Interval> {
    if merged == [] then []
    else
      var init, a := merged[..|merged| - 1], merged[|merged| - 1].0;
      Gutters(init, width) + if IsGutter(Reach(init), a, width) then [(Reach(init), a)] else []
  }

  /** The columns are what the gutters leave of the page. */
  function Band(gutters: seq<Interval>, width: real, k: nat): Interval
    requires k <= |gutters|
  {
    (if k == 0 then 0.0 else gutters[k - 1].1, if k == |gutters| then width else gutters[k].0)
  }

  function Bands(gutters: seq<Interval>, width: real): (bands: seq<Interval>)
    ensures |bands| == |gutters| + 1
    ensures forall k :: 0 <= k <= |gutters| ==> bands[k] == Band(gutters, width, k)
  {
    seq(|gutters| + 1, k requires 0 <= k <= |gutters| => Band(gutters, width, k))
  }

  /** Whether a block counts as coverage when gutters are searched. */
  predicate Counts(box: Box, width: real) {
    !IsFullWidth(box, width) && box.2 - box.0 >= NARROW_FRACTION * width
  }

  predicate IsFullWidth(box: Box, width: real) {
    box.2 - box.0 > FULL_WIDTH_FRACTION * width
  }

  function Intervals(boxes: seq<Box>, width: real): seq<Interval> {
    if boxes == [] then []
    else (if Counts(boxes[0], width) then [(boxes[0].0, boxes[0].2)] else []) + Intervals(boxes[1..], width)
  }

  function PageGutters(boxes: seq<Box>, width: real): seq<Interval> {
    Gutters(Merged(Sort(Intervals(boxes, width), StartsFirst)), width)
  }

  function PageBands(boxes: seq<Box>, width: real): seq<Interval> {
    Bands(PageGutters(boxes, width), width)
  }

  /** Two neighbours among the merged intervals leave room for a gutter inside the page:
      more than a fiftieth of its width. */
  ghost predicate IsGap(merged: seq<Interval>, width: real, g: Interval) {
    && 0.0 < g.0 && g.1 < width && g.1 - g.0 > 0.02 * width
    && exists k :: 0 <= k < |merged| - 1 && EndsAt(merged, k, g)
  }

  predicate EndsAt(merged: seq<Interval>, k: int, g: Interval)
    requires 0 <= k < |merged| - 1
  {
    g == (merged[k].1, merged[k + 1].0)
  }

  method FindGutters(merged: seq<Interval>, width: real) returns (gutters: seq<Interval>)
    ensures gutters == Gutters(merged, width)
    ensures Separated(merged) ==> forall g :: g in gutters <==> IsGap(merged, width, g)
  {
    hide IsGap, Separated;
    gutters := [];
    var x := 0.0;
    for k := 0 to |merged|
      invariant gutters == Gutters(merged[..k], width) && x == Reach(merged[..k])
    {
      assert merged[..k + 1][..k] == merged[..k];
      var (a, b) := merged[k];
      if x > 0.0 && a < width && a - x > GUTTER_FRACTION * width {
        gutters := gutters + [(x, a)];
      }
      x := MaxReal(x, b);
    }
    assert merged[..|merged|] == merged;
    if Separated(merged) {
      forall g
        ensures g in gutters <==> IsGap(merged, width, g)
      {
        GuttersExactly(merged, width, g);
      }
    }
  }

  method ColumnBands(boxes: seq<Box>, width: real) returns (bands: seq<Interval>)
    ensures bands == PageBands(boxes, width)
  {
    var merged := MergeIntervals(Sort(Intervals(boxes, width), StartsFirst));
    var gutters := FindGutters(merged, width);
    hide Merged, Gutters, Intervals, Sort;
    bands := [];
    var start := 0.0;
    for k := 0 to |gutters|
      invariant bands == Bands(gutters, width)[..k]
      invariant start == if k == 0 then 0.0 else gutters[k - 1].1
    {
      var (left, right) := gutters[k];
      bands := bands + [(start, left)];
      start := right;
    }
    bands := bands + [(start, width)];
  }

  lemma {:induction false} ReachOfSeparated(merged: seq<Interval>)
    requires Separated(merged)
    ensures Reach(merged) == if merged == [] then 0.0 else MaxReal(0.0, merged[|merged| - 1].1)
  {
    if merged != [] {
      ReachOfSeparated(merged[..|merged| - 1]);
    }
  }

  /** The gutters found are all there are. */
  lemma {:induction false} GuttersExactly(merged: seq<Interval>, width: real, g: Interval)
    requires Separated(merged)
    ensures g in Gutters(merged, width) <==> IsGap(merged, width, g)
  {
    if merged != [] {
      var init, last := merged[..|merged| - 1], merged[|merged| - 1];
      GuttersExactly(init, width, g);
      ReachOfSeparated(init);
      GapOfLonger(init, last, width, g);
      assert merged == init + [last];
    }
  }

  lemma GapOfLonger(init: seq<Interval>, last: Interval, width: real, g: Interval)
    ensures IsGap(init + [last], width, g) <==>
              || IsGap(init, width, g)
              || (init != [] && g == (init[|init| - 1].1, last.0)
                  && 0.0 < g.0 && g.1 < width && g.1 - g.0 > 0.02 * width)
  {
    var merged := init + [last];
    if init != [] {
      assert EndsAt(merged, |init| - 1, g) <==> g == (init[|init| - 1].1, last.0);
    }
    assert forall k :: 0 <= k < |init| - 1 ==> EndsAt(merged, k, g) == EndsAt(init, k, g);
  }

  /** Gutters lie inside the page, in order, apart from each other. */
  ghost predicate Proper(gutters: seq<Interval>, width: real) {
    && (forall k :: 0 <= k < |gutters| ==> 0.0 < gutters[k].0 < gutters[k].1 < width)
    && (forall k, l :: 0 <= k < l < |gutters| ==> gutters[k].1 < gutters[l].0)
  }

  /** No interval reaches into a gutter. */
  ghost predicate Clear(gutters: seq<Interval>, merged: seq<Interval>) {
    forall k, m :: 0 <= k < |gutters| && 0 <= m < |merged| ==>
      merged[m].1 <= gutters[k].0 || gutters[k].1 <= merged[m].0
  }

  /** The gutters with the one before `last`, if there is one. */
  function WithNext(init: seq<Interval>, last: Interval, gutters: seq<Interval>, width: real): seq<Interval> {
    var x := if init == [] then 0.0 else MaxReal(0.0, init[|init| - 1].1);
    gutters + if IsGutter(x, last.0, width) then [(x, last.0)] else []
  }

  ghost predicate BeforeLast(gutters: seq<Interval>, init: seq<Interval>) {
    forall k :: 0 <= k < |gutters| ==> init != [] && gutters[k].1 <= init[|init| - 1].0
  }

  lemma LastOfSeparated(init: seq<Interval>, last: Interval)
    requires Separated(init + [last])
    ensures Separated(init) && last.0 < last.1
    ensures forall m :: 0 <= m < |init| ==> init[m].1 < last.0
    ensures init != [] ==> forall m :: 0 <= m < |init| ==> init[m].1 <= init[|init| - 1].1
  {
    var merged := init + [last];
    assert merged[|init|] == last;
    assert forall m :: 0 <= m < |init| ==> merged[m] == init[m];
  }

  lemma NextProper(init: seq<Interval>, last: Interval, gutters: seq<Interval>, width: real)
    requires Separated(init + [last]) && Proper(gutters, width) && BeforeLast(gutters, init)
    ensures Proper(WithNext(init, last, gutters, width), width)
    ensures BeforeLast(WithNext(init, last, gutters, width), init + [last])
  {
    LastOfSeparated(init, last);
  }

  lemma NextClear(init: seq<Interval>, last: Interval, gutters: seq<Interval>, width: real)
    requires Separated(init + [last]) && Clear(gutters, init) && BeforeLast(gutters, init)
    ensures Clear(WithNext(init, last, gutters, width), init + [last])
  {
    LastOfSeparated(init, last);
    hide Separated;
  }

  lemma {:induction false} GuttersProper(merged: seq<Interval>, width: real)
    requires Separated(merged) && width > 0.0
    ensures Proper(Gutters(merged, width), width) && Clear(Gutters(merged, width), merged)
    ensures BeforeLast(Gutters(merged, width), merged)
  {
    hide Separated, Proper, Clear, BeforeLast, IsGutter, Reach;
    if merged == [] {
      NoGutters(width);
    } else {
      var init, last := merged[..|merged| - 1], merged[|merged| - 1];
      var gutters := Gutters(init, width);
      assert merged == init + [last];
      LastOfSeparated(init, last);
      GuttersProper(init, width);
      ReachOfSeparated(init);
      NextProper(init, last, gutters, width);
      NextClear(init, last, gutters, width);
      assert Gutters(merged, width) == WithNext(init, last, gutters, width);
    }
  }

  lemma NoGutters(width: real)
    ensures Proper([], width) && Clear([], []) && BeforeLast([], [])
  {
  }

  lemma {:induction false} IntervalsNonempty(boxes: seq<Box>, width: real)
    ensures forall a :: a in Intervals(boxes, width) ==> a.0 < a.1
    ensures forall a :: a in Intervals(boxes, width) ==>
              exists i :: 0 <= i < |boxes| && Counts(boxes[i], width) && a == (boxes[i].0, boxes[i].2)
    ensures forall i :: 0 <= i < |boxes| && Counts(boxes[i], width) ==>
              (boxes[i].0, boxes[i].2) in Intervals(boxes, width)
  {
    if boxes != [] {
      IntervalsNonempty(boxes[1..], width);
      assert forall i :: 0 <= i < |boxes| - 1 ==> boxes[1..][i] == boxes[i + 1];
    }
  }

  /** What is known of the merged intervals of a page. */
  lemma PageMerged(boxes: seq<Box>, width: real) returns (sorted: seq<Interval>, merged: seq<Interval>)
    ensures sorted == Sort(Intervals(boxes, width), StartsFirst) && merged == Merged(sorted)
    ensures SortedBy(sorted, StartsFirst) && Separated(merged)
    ensures forall i :: 0 <= i < |sorted| ==> sorted[i].0 < sorted[i].1
    ensures forall i :: 0 <= i < |boxes| && Counts(boxes[i], width) ==> (boxes[i].0, boxes[i].2) in sorted
    ensures forall a :: a in sorted ==>
              exists i :: 0 <= i < |boxes| && Counts(boxes[i], width) && a == (boxes[i].0, boxes[i].2)
  {
    var intervals := Intervals(boxes, width);
    sorted := Sort(intervals, StartsFirst);
    merged := Merged(sorted);
    IntervalsNonempty(boxes, width);
    SortMembers(intervals, StartsFirst);
    StartsFirstIsTotal();
    SortSorts(intervals, StartsFirst);
    forall i | 0 <= i < |sorted|
      ensures sorted[i].0 < sorted[i].1
    {
      assert sorted[i] in intervals;
    }
    MergedSeparated(sorted);
  }

  // ----- the gutters of a page

  /** A block that counts: at least a tenth and at most half as wide as the page. */
  predicate IsCoverage(box: Box, width: real) {
    0.1 * width <= box.2 - box.0 <= 0.5 * width
  }

  /** Between the right edge of one such block and the left edge of another, inside the
      page and wider than a fiftieth of it, into which no such block reaches. */
  ghost predicate IsFree(boxes: seq<Box>, width: real, g: Interval) {
    && 0.0 < g.0 && g.1 < width && g.1 - g.0 > 0.02 * width
    && (exists i :: 0 <= i < |boxes| && IsCoverage(boxes[i], width) && boxes[i].2 == g.0)
    && (exists i :: 0 <= i < |boxes| && IsCoverage(boxes[i], width) && boxes[i].0 == g.1)
    && forall i :: 0 <= i < |boxes| && IsCoverage(boxes[i], width) ==> boxes[i].2 <= g.0 || g.1 <= boxes[i].0
  }

  /** The same of the intervals. */
  ghost predicate IsFreeOf(intervals: seq<Interval>, g: Interval) {
    && (exists a :: a in intervals && a.1 == g.0)
    && (exists a :: a in intervals && a.0 == g.1)
    && forall a :: a in intervals ==> a.1 <= g.0 || g.1 <= a.0
  }

  ghost predicate HasEnds(m: Interval, intervals: seq<Interval>) {
    (exists a :: a in intervals && a.0 == m.0) && exists a :: a in intervals && a.1 == m.1
  }

  /** A merged interval starts and ends where some interval does. */
  lemma {:induction false} MergedEnds(intervals: seq<Interval>, k: nat)
    requires k < |Merged(intervals)|
    ensures HasEnds(Merged(intervals)[k], intervals)
  {
    if intervals != [] {
      var init, last := intervals[..|intervals| - 1], intervals[|intervals| - 1];
      var before := Merged(init);
      assert last in intervals && forall a :: a in init ==> a in intervals;
      if k < |before| {
        MergedEnds(init, k);
      }
    }
  }

  /** No merged interval reaches into what no interval reaches into. */
  lemma {:induction false} MergedStaysOut(intervals: seq<Interval>, g: Interval, m: nat)
    requires SortedBy(intervals, StartsFirst) && g.0 < g.1
    requires forall i :: 0 <= i < |intervals| ==> intervals[i].0 < intervals[i].1
    requires (forall a :: a in intervals ==> a.1 <= g.0 || g.1 <= a.0) && m < |Merged(intervals)|
    ensures Merged(intervals)[m].1 <= g.0 || g.1 <= Merged(intervals)[m].0
  {
    MergedSeparated(intervals);
    var (a, b) := Merged(intervals)[m];
    var from, to := MaxReal(a, g.0), MinReal(b, g.1);
    if from < to {
      CoveredOutside(intervals, g, (from + to) / 2.0);
    }
  }

  lemma CoveredOutside(intervals: seq<Interval>, g: Interval, x: real)
    requires SortedBy(intervals, StartsFirst) && forall a :: a in intervals ==> a.1 <= g.0 || g.1 <= a.0
    requires forall i :: 0 <= i < |intervals| ==> intervals[i].0 < intervals[i].1
    requires Covered(x, Merged(intervals))
    ensures x <= g.0 || g.1 <= x
  {
    MergedCovers(intervals, x);
    var i :| 0 <= i < |intervals| && intervals[i].0 <= x <= intervals[i].1;
    assert intervals[i] in intervals;
  }

  lemma {:induction false} GapExactly(intervals: seq<Interval>, width: real, g: Interval)
    requires SortedBy(intervals, StartsFirst) && width > 0.0
    requires forall i :: 0 <= i < |intervals| ==> intervals[i].0 < intervals[i].1
    ensures IsGap(Merged(intervals), width, g) <==>
              0.0 < g.0 && g.1 < width && g.1 - g.0 > 0.02 * width && IsFreeOf(intervals, g)
  {
    var merged := Merged(intervals);
    MergedSeparated(intervals);
    hide SortedBy, StartsFirst;
    if IsGap(merged, width, g) {
      GapIsFree(intervals, merged, width, g);
    }
    if g.0 < g.1 && IsFreeOf(intervals, g) {
      FreeIsBetween(intervals, merged, g);
    }
  }

  lemma GapIsFree(intervals: seq<Interval>, merged: seq<Interval>, width: real, g: Interval)
    requires SortedBy(intervals, StartsFirst) && merged == Merged(intervals) && Separated(merged)
    requires forall i :: 0 <= i < |intervals| ==> intervals[i].0 < intervals[i].1
    requires IsGap(merged, width, g)
    ensures IsFreeOf(intervals, g)
  {
    hide Merged, SortedBy, StartsFirst;
    var k :| 0 <= k < |merged| - 1 && EndsAt(merged, k, g);
    MergedEnds(intervals, k);
    MergedEnds(intervals, k + 1);
    forall a | a in intervals
      ensures a.1 <= g.0 || g.1 <= a.0
    {
      var i :| 0 <= i < |intervals| && intervals[i] == a;
      MergedContains(intervals, i);
      var m :| 0 <= m < |merged| && merged[m].0 <= a.0 && a.1 <= merged[m].1;
      InOrder(merged, m, k);
    }
  }

  lemma InOrder(merged: seq<Interval>, m: nat, k: nat)
    requires Separated(merged) && m < |merged| && k + 1 < |merged|
    ensures if m <= k then merged[m].1 <= merged[k].1 else merged[k + 1].0 <= merged[m].0
  {
    assert m < k ==> merged[m].1 < merged[k].0;
    assert k + 1 < m ==> merged[k + 1].1 < merged[m].0;
  }

  lemma FreeIsBetween(intervals: seq<Interval>, merged: seq<Interval>, g: Interval)
    requires SortedBy(intervals, StartsFirst) && merged == Merged(intervals) && Separated(merged)
    requires forall i :: 0 <= i < |intervals| ==> intervals[i].0 < intervals[i].1
    requires IsFreeOf(intervals, g) && g.0 < g.1
    ensures exists k :: 0 <= k < |merged| - 1 && EndsAt(merged, k, g)
  {
    hide Merged, SortedBy, StartsFirst;
    forall m: nat | m < |merged|
      ensures merged[m].1 <= g.0 || g.1 <= merged[m].0
    {
      MergedStaysOut(intervals, g, m);
    }
    var a :| a in intervals && a.1 == g.0;
    var b :| b in intervals && b.0 == g.1;
    var p := PlaceOf(intervals, merged, a);
    var q := PlaceOf(intervals, merged, b);
    assert merged[p].1 == g.0 && merged[q].0 == g.1;
    assert p < q;
    Neighbours(merged, p, q, g);
    assert EndsAt(merged, p, g);
  }

  lemma Neighbours(merged: seq<Interval>, p: nat, q: nat, g: Interval)
    requires Separated(merged) && p < q < |merged| && merged[p].1 == g.0 && merged[q].0 == g.1
    requires forall m: nat :: m < |merged| ==> merged[m].1 <= g.0 || g.1 <= merged[m].0
    ensures q == p + 1
  {
    hide Separated;
    if p + 1 < q {
      StrictlyBefore(merged, p, p + 1);
      StrictlyBefore(merged, p + 1, q);
    }
  }

  lemma StrictlyBefore(merged: seq<Interval>, i: nat, j: nat)
    requires Separated(merged) && i < j < |merged|
    ensures merged[i].0 < merged[i].1 < merged[j].0
  {
  }

  lemma PlaceOf(intervals: seq<Interval>, merged: seq<Interval>, a: Interval) returns (p: nat)
    requires SortedBy(intervals, StartsFirst) && merged == Merged(intervals) && a in intervals
    requires forall i :: 0 <= i < |intervals| ==> intervals[i].0 < intervals[i].1
    ensures p < |merged| && merged[p].0 <= a.0 < a.1 <= merged[p].1
  {
    var i :| 0 <= i < |intervals| && intervals[i] == a;
    MergedContains(intervals, i);
    p :| p < |merged| && merged[p].0 <= a.0 && a.1 <= merged[p].1;
  }

  /** The gutters of a page are exactly the free strips between its blocks. */
  lemma {:induction false} PageGuttersExactly(boxes: seq<Box>, width: real, g: Interval)
    requires width > 0.0
    ensures g in PageGutters(boxes, width) <==> IsFree(boxes, width, g)
  {
    hide Merged, Gutters, Intervals, Sort, SortedBy, StartsFirst, IsGap, Separated;
    var sorted, merged := PageMerged(boxes, width);
    GuttersExactly(merged, width, g);
    GapExactly(sorted, width, g);
    assert forall box: Box :: Counts(box, width) <==> IsCoverage(box, width);
    forall i | 0 <= i < |boxes| && IsCoverage(boxes[i], width)
      ensures (boxes[i].0, boxes[i].2) in sorted
    {
    }
    assert IsFree(boxes, width, g) <==>
        0.0 < g.0 && g.1 < width && g.1 - g.0 > 0.02 * width && IsFreeOf(sorted, g);
  }

  /** A page has several columns exactly when there is such a strip. */
  lemma {:induction false} SeveralColumnsExactly(boxes: seq<Box>, width: real)
    requires width > 0.0
    ensures |PageBands(boxes, width)| > 1 <==> exists g :: IsFree(boxes, width, g)
  {
    hide PageGutters, IsFree;
    var gutters := PageGutters(boxes, width);
    if gutters != [] {
      assert gutters[0] in gutters;
      PageGuttersExactly(boxes, width, gutters[0]);
    }
    if g :| IsFree(boxes, width, g) {
      PageGuttersExactly(boxes, width, g);
    }
  }

  /** So two blocks on different sides of such a strip are in different columns. */
  lemma {:induction false} ApartAcrossGutter(boxes: seq<Box>, width: real, g: Interval, a: Box, b: Box, p: nat)
    requires width > 0.0 && IsFree(boxes, width, g) && a.2 <= g.0 && g.1 <= b.0
    requires p < |PageBands(boxes, width)| && Overlap(a, PageBands(boxes, width)[p]) > 0.0
    ensures Overlap(b, PageBands(boxes, width)[p]) <= 0.0
  {
    hide Merged, Gutters, Intervals, Sort, SortedBy, Separated, IsFree;
    PageGuttersExactly(boxes, width, g);
    var sorted, merged := PageMerged(boxes, width);
    var gutters := PageGutters(boxes, width);
    GuttersProper(merged, width);
    var k :| 0 <= k < |gutters| && gutters[k] == g;
    hide Proper;
    BandOfSide(gutters, width, k, p);
  }

  /** Columns up to the gutter end before it, and those after begin after it. */
  lemma BandOfSide(gutters: seq<Interval>, width: real, k: nat, p: nat)
    requires Proper(gutters, width) && k < |gutters| && p <= |gutters|
    ensures p <= k ==> Bands(gutters, width)[p].1 <= gutters[k].0
    ensures p > k ==> gutters[k].1 <= Bands(gutters, width)[p].0
  {
  }

  /** Bands have positive width, come left to right with a gutter between
      neighbours, and together run from page edge to page edge. */
  ghost predicate AreColumns(bands: seq<Interval>, width: real) {
    && bands != [] && bands[0].0 == 0.0 && bands[|bands| - 1].1 == width
    && (forall k :: 0 <= k < |bands| ==> 0.0 <= bands[k].0 < bands[k].1 <= width)
    && (forall k, l :: 0 <= k < l < |bands| ==> bands[k].1 < bands[l].0)
  }

  lemma {:induction false} BandsAreColumns(boxes: seq<Box>, width: real)
    requires width > 0.0
    ensures AreColumns(PageBands(boxes, width), width)
  {
    hide Merged, Gutters, Intervals, Sort;
    var sorted, merged := PageMerged(boxes, width);
    hide SortedBy, Separated;
    GuttersProper(merged, width);
  }

  // ----- which band a block is in

  function Overlap(box: Box, band: Interval): real {
    MinReal(box.2, band.1) - MaxReal(box.0, band.0)
  }

  predicate Within(x: real, a: Interval) {
    a.0 <= x <= a.1
  }

  /** It is the length of what the two have in common, and positive exactly when that is
      more than a point. */
  lemma {:induction false} OverlapIsCommon(box: Box, band: Interval)
    requires band.0 < band.1
    ensures Overlap(box, band) > 0.0 <==> box.0 < band.1 && band.0 < box.2
    ensures Overlap(box, band) >= 0.0 ==>
              exists common: Interval :: common.1 - common.0 == Overlap(box, band)
                && forall x: real :: Within(x, common) <==> Within(x, (box.0, box.2)) && Within(x, band)
  {
    var common := (MaxReal(box.0, band.0), MinReal(box.2, band.1));
    assert forall x: real :: Within(x, common) <==> Within(x, (box.0, box.2)) && Within(x, band);
  }

  function Overlaps(box: Box, bands: seq<Interval>): nat -> bool {
    (k: nat) => k < |bands| && Overlap(box, bands[k]) > 0.0
  }

  function OverlappingBands(box: Box, bands: seq<Interval>): seq<nat> {
    Filter(Upto(|bands|), Overlaps(box, bands))
  }

  predicate Spans(box: Box, bands: seq<Interval>) {
    |OverlappingBands(box, bands)| >= 2
  }

  lemma {:induction false} FilterIncreasing(s: seq<nat>, keep: nat -> bool)
    requires forall i, j :: 0 <= i < j < |s| ==> s[i] < s[j]
    ensures forall i, j :: 0 <= i < j < |Filter(s, keep)| ==> Filter(s, keep)[i] < Filter(s, keep)[j]
  {
    if s != [] {
      FilterIncreasing(s[1..], keep);
      var rest := Filter(s[1..], keep);
      forall j | 0 <= j < |rest|
        ensures s[0] < rest[j]
      {
        assert rest[j] in rest;
      }
    }
  }

  /** The box lies over two different columns. */
  ghost predicate OverTwo(box: Box, bands: seq<Interval>) {
    exists p, q :: 0 <= p < q < |bands| && Overlap(box, bands[p]) > 0.0 && Overlap(box, bands[q]) > 0.0
  }

  /** A block spans exactly when two different bands overlap it. */
  lemma {:induction false} SpansTwo(box: Box, bands: seq<Interval>)
    ensures Spans(box, bands) <==> OverTwo(box, bands)
  {
    var over := OverlappingBands(box, bands);
    FilterIncreasing(Upto(|bands|), Overlaps(box, bands));
    forall k: nat
      ensures k in over <==> k < |bands| && Overlap(box, bands[k]) > 0.0
    {
      if k < |bands| {
        assert Upto(|bands|)[k] == k;
      }
    }
    if |over| >= 2 {
      assert over[0] in over && over[1] in over;
    }
    if p, q :| 0 <= p < q < |bands| && Overlap(box, bands[p]) > 0.0 && Overlap(box, bands[q]) > 0.0 {
      assert p in over && q in over;
      var i :| 0 <= i < |over| && over[i] == p;
      var k :| 0 <= k < |over| && over[k] == q;
      assert i != k;
    }
  }

  /** An interval that no gutter cuts overlaps one band at most. */
  lemma UncutOverlapsOne(box: Box, gutters: seq<Interval>, width: real, p: nat, q: nat)
    requires Proper(gutters, width) && p < q <= |gutters|
    requires forall k :: 0 <= k < |gutters| ==> box.2 <= gutters[k].0 || gutters[k].1 <= box.0
    ensures Overlap(box, Bands(gutters, width)[p]) <= 0.0 || Overlap(box, Bands(gutters, width)[q]) <= 0.0
  {
    BandsInOrder(gutters, width, p, q);
  }

  /** A block that counts as coverage never spans: whatever spans the columns is
      wider than half the page or narrower than a tenth of it. */
  lemma {:induction false} CountedBlocksDoNotSpan(boxes: seq<Box>, width: real, i: nat)
    requires width > 0.0 && i < |boxes| && Counts(boxes[i], width)
    ensures !Spans(boxes[i], PageBands(boxes, width))
  {
    hide Merged, Gutters, Intervals, Sort, Bands, Overlap, Spans, Counts, SortedBy, Separated;
    var box, bands := boxes[i], PageBands(boxes, width);
    var sorted, merged := PageMerged(boxes, width);
    var gutters := Gutters(merged, width);
    GuttersProper(merged, width);
    var k :| 0 <= k < |sorted| && sorted[k] == (box.0, box.2);
    MergedContains(sorted, k);
    InsideIsUncut(box, merged, gutters);
    hide Proper;
    BandCount(gutters, width);
    SpansTwo(box, bands);
    forall p, q | 0 <= p < q < |bands|
      ensures Overlap(box, bands[p]) <= 0.0 || Overlap(box, bands[q]) <= 0.0
    {
      UncutOverlapsOne(box, gutters, width, p, q);
    }
  }

  lemma BandCount(gutters: seq<Interval>, width: real)
    ensures |Bands(gutters, width)| == |gutters| + 1
  {
  }

  /** What lies inside a merged interval is cut by no gutter. */
  lemma InsideIsUncut(box: Box, merged: seq<Interval>, gutters: seq<Interval>)
    requires Clear(gutters, merged) && Inside((box.0, box.2), merged)
    ensures forall k :: 0 <= k < |gutters| ==> box.2 <= gutters[k].0 || gutters[k].1 <= box.0
  {
  }

  lemma BandsInOrder(gutters: seq<Interval>, width: real, p: nat, q: nat)
    requires Proper(gutters, width) && p < q <= |gutters|
    ensures Bands(gutters, width)[p].1 == gutters[p].0 && gutters[p].1 <= Bands(gutters, width)[q].0
  {
    hide Bands;
    assert p < q - 1 ==> gutters[p].1 < gutters[q - 1].0;
  }

  /** The band that `_dominant_band` settles on among the first `n`, and its overlap. */
  function Best(box: Box, bands: seq<Interval>, n: nat): (nat, real)
    requires n <= |bands|
  {
    if n == 0 then (0, -1.0)
    else
      var (best, overlap) := Best(box, bands, n - 1);
      if Overlap(box, bands[n - 1]) > overlap then (n - 1, Overlap(box, bands[n - 1])) else (best, overlap)
  }

  function Dominant(box: Box, bands: seq<Interval>): nat {
    Best(box, bands, |bands|).0
  }

  method DominantBand(box: Box, bands: seq<Interval>) returns (best: nat)
    ensures best == Dominant(box, bands)
  {
    best := 0;
    var bestOverlap := -1.0;
    for position := 0 to |bands|
      invariant (best, bestOverlap) == Best(box, bands, position)
    {
      var overlap := Overlap(box, bands[position]);
      if overlap > bestOverlap {
        best, bestOverlap := position, overlap;
      }
    }
  }

  lemma {:induction false} BestIsFirstLargest(box: Box, bands: seq<Interval>, n: nat)
    requires n <= |bands|
    ensures var (best, overlap) := Best(box, bands, n);
            && (best < n || (best == 0 && overlap == -1.0))
            && overlap >= -1.0
            && (overlap > -1.0 ==> best < n && overlap == Overlap(box, bands[best]))
            && (forall k :: 0 <= k < n ==> Overlap(box, bands[k]) <= overlap)
            && (overlap > -1.0 ==> forall k :: 0 <= k < best ==> Overlap(box, bands[k]) < overlap)
  {
    if n > 0 {
      BestIsFirstLargest(box, bands, n - 1);
    }
  }

  /** A block that overlaps exactly one band is put in that band; one that spans
      is put in the first band it overlaps most. */
  lemma {:induction false} DominantOfOverlapping(box: Box, bands: seq<Interval>, p: nat)
    requires p < |bands| && Overlap(box, bands[p]) > 0.0
    ensures var d := Dominant(box, bands);
            && d < |bands| && Overlap(box, bands[d]) >= Overlap(box, bands[p]) > 0.0
            && (!Spans(box, bands) ==> d == p)
  {
    BestIsFirstLargest(box, bands, |bands|);
    SpansTwo(box, bands);
  }
}
