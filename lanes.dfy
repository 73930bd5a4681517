/** The lane layout of one week row in `draw_events`: select the events that
    touch the row, cut each to its visible range, sort the ranges stably by
    (start, end), and stack them first-fit into lanes. */
module Lanes {
  import opened Dates
  import opened Events
  import opened Counting

  /** The part `ds..de` of event `ev` visible in one row. `pos` is the index
      of the event in the event list handed to the row. */
  datatype Span = Span(ev: Event, pos: nat, ds: Date, de: Date)

  /** A span with the lane it was stacked in. */
  datatype Placement = Placement(lane: nat, span: Span)

  /** The selection test of a row wStart..wEnd. */
  predicate Touches(e: Event, wStart: Date, wEnd: Date) {
    !(e.end < wStart || e.start > wEnd)
  }

  /** The visible range of `e` in row wStart..wEnd. It is never empty, lies in
      the row, and for a well-formed event is exactly the part of the event's
      range inside the row. */
  function Visible(e: Event, pos: nat, wStart: Date, wEnd: Date): (s: Span)
    ensures s.ev == e && s.pos == pos
    ensures s.ds <= s.de
    ensures wStart <= wEnd && Touches(e, wStart, wEnd) ==> wStart <= s.ds && s.de <= wEnd
    ensures wStart <= wEnd && e.start <= e.end && Touches(e, wStart, wEnd) ==>
              forall t {:trigger Within(t, s.ds, s.de)} ::
                Within(t, s.ds, s.de) <==> Within(t, e.start, e.end) && Within(t, wStart, wEnd)
  {
    var ds := Max(e.start, wStart);
    Span(e, pos, ds, Max(ds, Min(e.end, wEnd)))
  }

  /** The spans of the events that touch the row, in event-list order. */
  function Selected(events: seq<Event>, wStart: Date, wEnd: Date): (spans: seq<Span>)
    ensures |spans| <= |events|
    ensures forall i :: 0 <= i < |spans| ==>
              spans[i].pos < |events| && Touches(events[spans[i].pos], wStart, wEnd)
              && spans[i] == Visible(events[spans[i].pos], spans[i].pos, wStart, wEnd)
    ensures forall i, j :: 0 <= i < j < |spans| ==> spans[i].pos < spans[j].pos
  {
    if events == [] then []
    else
      var n := |events| - 1;
      var prefix := Selected(events[..n], wStart, wEnd);
      if Touches(events[n], wStart, wEnd) then prefix + [Visible(events[n], n, wStart, wEnd)]
      else prefix
  }

  /** Every event that touches the row has its span among the selected ones. */
  lemma {:induction false} SelectedComplete(events: seq<Event>, wStart: Date, wEnd: Date, k: nat)
    requires k < |events| && Touches(events[k], wStart, wEnd)
    ensures exists i :: 0 <= i < |Selected(events, wStart, wEnd)| && Selected(events, wStart, wEnd)[i].pos == k
  {
    var n := |events| - 1;
    if k < n {
      assert events[..n][k] == events[k];
      SelectedComplete(events[..n], wStart, wEnd, k);
      var i :| 0 <= i < |Selected(events[..n], wStart, wEnd)| && Selected(events[..n], wStart, wEnd)[i].pos == k;
      assert Selected(events, wStart, wEnd)[i] == Selected(events[..n], wStart, wEnd)[i];
    } else {
      assert Selected(events, wStart, wEnd)[|Selected(events, wStart, wEnd)| - 1].pos == k;
    }
  }

  /** The selection loop of `draw_events` for one row. */
  method SelectSpans(events: seq<Event>, wStart: Date, wEnd: Date) returns (spans: seq<Span>)
    ensures spans == Selected(events, wStart, wEnd)
  {
    spans := [];
    for i := 0 to |events|
      invariant spans == Selected(events[..i], wStart, wEnd)
    {
      assert events[..i + 1][..i] == events[..i];
      var ev := events[i];
      if ev.end < wStart || ev.start > wEnd {
        continue;
      }
      var ds := Max(ev.start, wStart);
      var de := Max(ds, Min(ev.end, wEnd));
      spans := spans + [Span(ev, i, ds, de)];
    }
    assert events[..|events|] == events;
  }

  // ----- the stable sort by (ds, de) -----

  /** The sort key order: by `ds`, then by `de`. */
  predicate KeyLe(a: Span, b: Span) {
    a.ds < b.ds || (a.ds == b.ds && a.de <= b.de)
  }

  predicate SortedByKey(s: seq<Span>) {
    forall i, j :: 0 <= i < j < |s| ==> KeyLe(s[i], s[j])
  }

  /** Insert `x` after the leading elements whose key is not larger: the
      stable insertion step. */
  function Insert(s: seq<Span>, x: Span): (r: seq<Span>)
    ensures multiset(r) == multiset(s) + multiset{x}
    ensures |r| == |s| + 1
    ensures r[0] == x || (s != [] && r[0] == s[0])
  {
    if s == [] then [x]
    else if KeyLe(s[0], x) then
      assert s == [s[0]] + s[1..];
      [s[0]] + Insert(s[1..], x)
    else [x] + s
  }

  /** Inserting into a sorted sequence keeps it sorted. */
  lemma {:induction false} InsertSorted(s: seq<Span>, x: Span)
    requires SortedByKey(s)
    ensures SortedByKey(Insert(s, x))
  {
    var r := Insert(s, x);
    if s != [] && KeyLe(s[0], x) {
      var rest := Insert(s[1..], x);
      InsertSorted(s[1..], x);
      assert r == [s[0]] + rest;
      assert KeyLe(s[0], rest[0]);
      forall i, j | 0 <= i < j < |r|
        ensures KeyLe(r[i], r[j])
      {
        assert r[j] == rest[j - 1];
        if i == 0 {
          assert KeyLe(rest[0], rest[j - 1]) || j == 1;
        } else {
          assert r[i] == rest[i - 1];
        }
      }
    } else if s != [] {
      assert r == [x] + s;
      forall i, j | 0 <= i < j < |r|
        ensures KeyLe(r[i], r[j])
      {
        assert r[j] == s[j - 1];
        if i == 0 {
          assert KeyLe(s[0], s[j - 1]) || j == 1;
        } else {
          assert r[i] == s[i - 1];
        }
      }
    }
  }

  /** Python's `sorted(week_evs, key=lambda e: (e["ds"], e["de"]))`. */
  function SortSpans(s: seq<Span>): (r: seq<Span>)
    ensures multiset(r) == multiset(s)
    ensures |r| == |s|
    ensures SortedByKey(r)
  {
    if s == [] then []
    else
      assert s == s[..|s| - 1] + [s[|s| - 1]];
      var prefix := SortSpans(s[..|s| - 1]);
      InsertSorted(prefix, s[|s| - 1]);
      Insert(prefix, s[|s| - 1])
  }

  /** The key order with the input position as the final tie-break. */
  predicate Precedes(a: Span, b: Span) {
    a.ds < b.ds || (a.ds == b.ds && (a.de < b.de || (a.de == b.de && a.pos < b.pos)))
  }

  predicate StrictlyOrdered(s: seq<Span>) {
    forall i, j :: 0 <= i < j < |s| ==> Precedes(s[i], s[j])
  }

  predicate PositionsIncrease(s: seq<Span>) {
    forall i, j :: 0 <= i < j < |s| ==> s[i].pos < s[j].pos
  }

  lemma {:induction false} InsertStable(s: seq<Span>, x: Span)
    requires StrictlyOrdered(s)
    requires forall y :: y in s ==> y.pos < x.pos
    ensures StrictlyOrdered(Insert(s, x))
  {
    assert SortedByKey(s);
    if s != [] && KeyLe(s[0], x) {
      var rest := Insert(s[1..], x);
      assert forall y :: y in s[1..] ==> y in s;
      InsertStable(s[1..], x);
      assert Precedes(s[0], rest[0]);
      assert Insert(s, x) == [s[0]] + rest;
    }
  }

  /** The sort is stable: events with equal (ds, de) keep their input order,
      so the result is strictly ordered by (ds, de, position). */
  lemma {:induction false} SortIsStable(s: seq<Span>)
    requires PositionsIncrease(s)
    ensures StrictlyOrdered(SortSpans(s))
  {
    if s != [] {
      var n := |s| - 1;
      var prefix := SortSpans(s[..n]);
      SortIsStable(s[..n]);
      forall y | y in prefix
        ensures y.pos < s[n].pos
      {
        assert y in multiset(s[..n]);
        var k :| 0 <= k < n && s[..n][k] == y;
      }
      InsertStable(prefix, s[n]);
    }
  }

  // ----- first-fit lane assignment -----

  /** The first lane whose last event ends strictly before `ds`, or the
      number of lanes when there is none. */
  function FirstFit(ls: seq<Date>, ds: Date): (li: nat)
    ensures li <= |ls|
    ensures forall k :: 0 <= k < li ==> ls[k] >= ds
    ensures li < |ls| ==> ds > ls[li]
  {
    if ls == [] then 0
    else if ds > ls[0] then 0
    else 1 + FirstFit(ls[1..], ds)
  }

  /** The lane ends after stacking span `s`: the lane `FirstFit` picks now
      ends at `s.de`, or a new lane ending there is appended; no other lane
      changes and no lane end moves back. */
  function Place(ls: seq<Date>, s: Span): (r: seq<Date>)
    ensures |r| == if FirstFit(ls, s.ds) < |ls| then |ls| else |ls| + 1
    ensures r[FirstFit(ls, s.ds)] == s.de
    ensures forall k :: 0 <= k < |ls| && k != FirstFit(ls, s.ds) ==> r[k] == ls[k]
    ensures s.ds <= s.de ==> forall k :: 0 <= k < |ls| ==> ls[k] < r[k] || ls[k] == r[k]
  {
    var li := FirstFit(ls, s.ds);
    if li < |ls| then ls[li := s.de] else ls + [s.de]
  }

  /** The lane ends after stacking `spans` in order. */
  function LanesAfter(spans: seq<Span>): (ls: seq<Date>) {
    if spans == [] then []
    else Place(LanesAfter(spans[..|spans| - 1]), spans[|spans| - 1])
  }

  /** The lane span `i` is stacked in. */
  function LaneOf(spans: seq<Span>, i: int): (l: nat)
    requires 0 <= i < |spans|
  {
    FirstFit(LanesAfter(spans[..i]), spans[i].ds)
  }

  lemma LanesAfterStep(spans: seq<Span>, n: int)
    requires 0 <= n < |spans|
    ensures LanesAfter(spans[..n + 1]) == Place(LanesAfter(spans[..n]), spans[n])
  {
    assert spans[..n + 1][..n] == spans[..n];
  }

  /** The inner loop of the lane step: scan the lanes in order, and the
      first one that ends strictly before `ev.ds` now ends at `ev.de`; when
      none does, a lane ending at `ev.de` is appended. */
  method StackOne(lanes: seq<Date>, ev: Span) returns (lanes': seq<Date>, lane: nat)
    ensures lane == FirstFit(lanes, ev.ds)
    ensures lanes' == Place(lanes, ev)
  {
    var li := 0;
    while li < |lanes|
      invariant 0 <= li <= |lanes|
      invariant forall k :: 0 <= k < li ==> lanes[k] >= ev.ds
    {
      if ev.ds > lanes[li] {
        return lanes[li := ev.de], li;
      }
      li := li + 1;
    }
    lanes' := lanes + [ev.de];
    lane := |lanes'| - 1;
  }

  /** The lane-assignment loop of `draw_events`: the spans, in sorted order,
      each go to the first lane whose end is strictly before their start, or
      to a new lane. */
  method AssignLanes(spans: seq<Span>) returns (lanes: seq<Date>, placed: seq<Placement>)
    ensures lanes == LanesAfter(spans)
    ensures |placed| == |spans|
    ensures forall i :: 0 <= i < |spans| ==> placed[i] == Placement(LaneOf(spans, i), spans[i])
  {
    lanes, placed := [], [];
    for i := 0 to |spans|
      invariant lanes == LanesAfter(spans[..i])
      invariant |placed| == i
      invariant forall k :: 0 <= k < i ==> placed[k] == Placement(LaneOf(spans, k), spans[k])
    {
      LanesAfterStep(spans, i);
      var lane;
      lanes, lane := StackOne(lanes, spans[i]);
      AppendPlacement(placed, Placement(lane, spans[i]), spans, i);
      placed := placed + [Placement(lane, spans[i])];
    }
    assert spans[..|spans|] == spans;
  }

  /** One step of the lane loop keeps the placements made so far. */
  lemma AppendPlacement(placed: seq<Placement>, p: Placement, spans: seq<Span>, i: int)
    requires 0 <= i < |spans| && |placed| == i
    requires forall k :: 0 <= k < i ==> placed[k] == Placement(LaneOf(spans, k), spans[k])
    requires p == Placement(LaneOf(spans, i), spans[i])
    ensures forall k :: 0 <= k <= i ==> (placed + [p])[k] == Placement(LaneOf(spans, k), spans[k])
  {
    forall k | 0 <= k <= i
      ensures (placed + [p])[k] == Placement(LaneOf(spans, k), spans[k])
    {
      if k < i {
        assert (placed + [p])[k] == placed[k];
      } else {
        assert (placed + [p])[k] == p;
      }
    }
  }

  // ----- what the layout guarantees -----

  /** Every visible range is well formed: `ds <= de`. */
  predicate WellFormed(spans: seq<Span>) {
    forall i :: 0 <= i < |spans| ==> spans[i].ds <= spans[i].de
  }

  predicate SortedByStart(spans: seq<Span>) {
    forall i, j :: 0 <= i < j < |spans| ==> spans[i].ds <= spans[j].ds
  }

  /** The last span before index `n` stacked in lane `l`, or -1 if none. */
  function LastOn(spans: seq<Span>, n: nat, l: nat): (i: int)
    ensures -1 <= i < n && i < |spans|
    ensures i >= 0 ==> LaneOf(spans, i) == l
    ensures forall j :: i < j < n && j < |spans| ==> LaneOf(spans, j) != l
  {
    if n == 0 then -1
    else if n - 1 < |spans| && LaneOf(spans, n - 1) == l then n - 1
    else LastOn(spans, n - 1, l)
  }

  /** The first span before index `n` stacked in lane `l`, or -1 if none. */
  function FirstOn(spans: seq<Span>, n: nat, l: nat): (i: int)
    ensures -1 <= i < n && i < |spans|
    ensures i >= 0 ==> LaneOf(spans, i) == l
    ensures forall j :: 0 <= j < n && j < |spans| && (i < 0 || j < i) ==> LaneOf(spans, j) != l
  {
    if n == 0 then -1
    else
      var p := FirstOn(spans, n - 1, l);
      if p >= 0 then p
      else if n - 1 < |spans| && LaneOf(spans, n - 1) == l then n - 1
      else -1
  }

  lemma PlaceKeepsCover(ls: seq<Date>, s: Span, l: nat, d: Date)
    requires s.ds <= s.de && l < |ls| && d <= ls[l]
    ensures l < |Place(ls, s)| && d <= Place(ls, s)[l]
  {
  }

  lemma PlaceCoversSpan(ls: seq<Date>, s: Span)
    ensures FirstFit(ls, s.ds) < |Place(ls, s)| && Place(ls, s)[FirstFit(ls, s.ds)] == s.de
  {
  }

  /** After stacking the first `n` spans, each lies in a lane that exists
      and that ends no earlier than the span does. */
  lemma {:induction false} LanesCoverSpans(spans: seq<Span>, n: nat)
    requires WellFormed(spans) && n <= |spans|
    ensures forall i :: 0 <= i < n ==>
              LaneOf(spans, i) < |LanesAfter(spans[..n])| && spans[i].de <= LanesAfter(spans[..n])[LaneOf(spans, i)]
  {
    if n > 0 {
      var m := n - 1;
      LanesCoverSpans(spans, m);
      LanesAfterStep(spans, m);
      var ls, ls' := LanesAfter(spans[..m]), LanesAfter(spans[..n]);
      forall i | 0 <= i < n
        ensures LaneOf(spans, i) < |ls'| && spans[i].de <= ls'[LaneOf(spans, i)]
      {
        if i < m {
          PlaceKeepsCover(ls, spans[m], LaneOf(spans, i), spans[i].de);
        } else {
          assert i == m;
          PlaceCoversSpan(ls, spans[m]);
          assert LaneOf(spans, m) == FirstFit(ls, spans[m].ds);
          assert ls' == Place(ls, spans[m]);
        }
      }
    }
  }

  /** After stacking the first `n` spans, each lane ends where the last span
      stacked in it ends. */
  lemma {:induction false} LanesEndAtLastSpan(spans: seq<Span>, n: nat)
    requires n <= |spans|
    ensures forall l :: 0 <= l < |LanesAfter(spans[..n])| ==>
              0 <= LastOn(spans, n, l) && spans[LastOn(spans, n, l)].de == LanesAfter(spans[..n])[l]
  {
    if n > 0 {
      var m := n - 1;
      LanesEndAtLastSpan(spans, m);
      LanesAfterStep(spans, m);
      var ls, ls' := LanesAfter(spans[..m]), LanesAfter(spans[..n]);
      forall l | 0 <= l < |ls'|
        ensures 0 <= LastOn(spans, n, l) && spans[LastOn(spans, n, l)].de == ls'[l]
      {
        if l != LaneOf(spans, m) {
          assert LastOn(spans, n, l) == LastOn(spans, m, l);
        }
      }
    }
  }

  /** Lane `l` was opened by the first span stacked in it, which found
      exactly `l` lanes. */
  lemma {:induction false} LanesOpenedInOrder(spans: seq<Span>, n: nat)
    requires WellFormed(spans) && n <= |spans|
    ensures forall l :: 0 <= l < |LanesAfter(spans[..n])| ==>
              0 <= FirstOn(spans, n, l) && |LanesAfter(spans[..FirstOn(spans, n, l)])| == l
  {
    if n > 0 {
      var m := n - 1;
      LanesOpenedInOrder(spans, m);
      LanesCoverSpans(spans, m);
      LanesAfterStep(spans, m);
      var ls, ls' := LanesAfter(spans[..m]), LanesAfter(spans[..n]);
      forall l | 0 <= l < |ls'|
        ensures 0 <= FirstOn(spans, n, l) && |LanesAfter(spans[..FirstOn(spans, n, l)])| == l
      {
        if l == |ls| {
          assert FirstOn(spans, m, l) == -1;
          assert FirstOn(spans, n, l) == m;
        } else {
          assert FirstOn(spans, n, l) == FirstOn(spans, m, l);
        }
      }
    }
  }

  /** Two spans stacked in the same lane neither overlap nor touch: the later
      one starts strictly after the earlier one ends. */
  lemma SameLaneNeverTouches(spans: seq<Span>, i: int, j: int)
    requires WellFormed(spans) && 0 <= i < j < |spans|
    requires LaneOf(spans, i) == LaneOf(spans, j)
    ensures spans[i].de < spans[j].ds
  {
    LanesCoverSpans(spans, j);
  }

  /** Every span gets a lane among the final lanes, and each final lane ends
      where the last span stacked in it ends. */
  lemma LaneEnds(spans: seq<Span>)
    requires WellFormed(spans)
    ensures forall i :: 0 <= i < |spans| ==> LaneOf(spans, i) < |LanesAfter(spans)|
    ensures forall l :: 0 <= l < |LanesAfter(spans)| ==>
              var i := LastOn(spans, |spans|, l);
              0 <= i && spans[i].de == LanesAfter(spans)[l]
              && forall j :: i < j < |spans| ==> LaneOf(spans, j) != l
  {
    LanesCoverSpans(spans, |spans|);
    LanesEndAtLastSpan(spans, |spans|);
    assert spans[..|spans|] == spans;
  }

  /** The lane end of every lane never decreases as spans are stacked. */
  lemma LaneEndsNeverDecrease(spans: seq<Span>, n: int, l: int)
    requires WellFormed(spans) && 0 <= n < |spans| && 0 <= l < |LanesAfter(spans[..n])|
    ensures l < |LanesAfter(spans[..n + 1])|
    ensures LanesAfter(spans[..n])[l] <= LanesAfter(spans[..n + 1])[l]
  {
    LanesAfterStep(spans, n);
  }

  /** The number of visible ranges that contain date `t`. */
  function Depth(spans: seq<Span>, t: Date): (n: nat) {
    |Containing(spans, t)|
  }

  function Containing(spans: seq<Span>, t: Date): (c: set<nat>)
    ensures forall i: int :: i in c <==> 0 <= i < |spans| && Within(t, spans[i].ds, spans[i].de)
  {
    if spans == [] then {}
    else
      var n := |spans| - 1;
      Containing(spans[..n], t) + (if Within(t, spans[n].ds, spans[n].de) then {n} else {})
  }

  function LaneAt(spans: seq<Span>, i: nat): (l: nat) {
    if i < |spans| then LaneOf(spans, i) else 0
  }

  /** No date lies in more visible ranges than there are lanes. */
  lemma DepthAtMostLanes(spans: seq<Span>, t: Date)
    requires WellFormed(spans)
    ensures Depth(spans, t) <= |LanesAfter(spans)|
  {
    var A := Containing(spans, t);
    var K := |LanesAfter(spans)|;
    LaneEnds(spans);
    forall i, j | i in A && j in A && LaneAt(spans, i) == LaneAt(spans, j)
      ensures i == j
    {
      if i < j {
        SameLaneNeverTouches(spans, i, j);
      } else if j < i {
        SameLaneNeverTouches(spans, j, i);
      }
    }
    InjectionBound(A, Below(K), i => LaneAt(spans, i));
  }

  /** A span `j` that found no lane free opens a new one: the last span of
      every older lane ends at or after `spans[j].ds` and, by the sort,
      starts at or before it. */
  lemma OlderLaneContains(spans: seq<Span>, j: int, k: nat)
    requires WellFormed(spans) && SortedByStart(spans) && 0 <= j < |spans|
    requires LaneOf(spans, j) == |LanesAfter(spans[..j])| && k < LaneOf(spans, j)
    ensures var i := LastOn(spans, j, k);
      0 <= i < j && LaneOf(spans, i) == k && Within(spans[j].ds, spans[i].ds, spans[i].de)
  {
    LanesEndAtLastSpan(spans, j);
    assert LanesAfter(spans[..j])[k] >= spans[j].ds;
  }

  /** The last span of lane `k` before the opener `j` of lane `top`, or `j`
      itself for `top`. */
  function LastOrOpener(spans: seq<Span>, j: nat, top: int, k: nat): (i: nat) {
    var i := LastOn(spans, j, k);
    if k < top && i >= 0 then i else j
  }

  /** When lane `K-1` is opened by span `j`, the last spans of the `K-1`
      older lanes and span `j` itself all contain `spans[j].ds`. */
  lemma DepthReachesLanes(spans: seq<Span>)
    requires WellFormed(spans) && SortedByStart(spans) && spans != []
    ensures exists t :: Depth(spans, t) >= |LanesAfter(spans)|
  {
    var K := |LanesAfter(spans)|;
    LaneEnds(spans);
    assert LaneOf(spans, 0) < K;
    LanesOpenedInOrder(spans, |spans|);
    assert spans[..|spans|] == spans;
    var j := FirstOn(spans, |spans|, K - 1);
    assert LaneOf(spans, j) == K - 1 && |LanesAfter(spans[..j])| == K - 1;
    var t := spans[j].ds;
    var opener: nat := j;
    var f: nat -> nat := k => LastOrOpener(spans, opener, K - 1, k);
    forall k | k in Below(K)
      ensures f(k) in Containing(spans, t) && LaneAt(spans, f(k)) == k
    {
      if k < K - 1 {
        OlderLaneContains(spans, j, k);
      }
    }
    InjectionBound(Below(K), Containing(spans, t), f);
    assert Depth(spans, t) >= K;
  }

  /** The number of lanes a row needs is the largest number of its visible
      ranges that share one date: first-fit on ranges sorted by start is
      optimal. */
  lemma LaneCountIsMaxOverlap(spans: seq<Span>)
    requires WellFormed(spans) && SortedByStart(spans)
    ensures forall t :: Depth(spans, t) <= |LanesAfter(spans)|
    ensures spans != [] ==> exists t :: Depth(spans, t) == |LanesAfter(spans)|
    ensures spans == [] <==> LanesAfter(spans) == []
  {
    forall t
      ensures Depth(spans, t) <= |LanesAfter(spans)|
    {
      DepthAtMostLanes(spans, t);
    }
    if spans != [] {
      DepthReachesLanes(spans);
      LaneEnds(spans);
      assert LaneOf(spans, 0) < |LanesAfter(spans)|;
    }
  }

  /** First-fit is optimal: any assignment of the ranges to `L` lanes in
      which two ranges sharing a lane do not overlap needs at least as many
      lanes as first-fit opens. */
  lemma NoFewerLanes(spans: seq<Span>, g: nat -> nat, L: nat)
    requires WellFormed(spans) && SortedByStart(spans)
    requires forall i :: 0 <= i < |spans| ==> g(i) < L
    requires forall i, j :: 0 <= i < j < |spans| && g(i) == g(j) ==>
               spans[i].de < spans[j].ds || spans[j].de < spans[i].ds
    ensures |LanesAfter(spans)| <= L
  {
    LaneCountIsMaxOverlap(spans);
    if spans != [] {
      var t :| Depth(spans, t) == |LanesAfter(spans)|;
      InjectionBound(Containing(spans, t), Below(L), g);
    }
  }
}
