/**
 The timeline of one turn: `trajectoryGroup`, `trajectorySegments` and the totals drawn
 from them in `main.jsx`.

 Times are seconds as real numbers.  A call whose time cannot be parsed has no end; the
 code's arithmetic treats a missing number as zero, and so does `Num`.
 */
module Timelines {
  import opened Wrappers

  /** One model request: when its response arrived, its round, how long it took, how many tools it called. */
  datatype Call = Call(createdAt: Option<real>, round: real, durationMs: real, actions: nat)

  datatype Step = Step(start: Option<real>, end: Option<real>, durationMs: real, records: nat)

  datatype Group = Group(steps: seq<Step>, start: real, span: real)

  datatype Kind = Model | Tool | Wait | Unknown

  datatype Segment = Segment(kind: Kind, from: real, to: Option<real>)

  function Num(x: Option<real>): real {
    if x.Some? then x.value else 0.0
  }

  function Max(a: real, b: real): real {
    if a < b then b else a
  }

  function Min(a: real, b: real): real {
    if a < b then a else b
  }

  // ---- the group ----

  /** The comparator: by time, then by round. */
  predicate InOrder(a: Call, b: Call) {
    Num(a.createdAt) < Num(b.createdAt) || (Num(a.createdAt) == Num(b.createdAt) && a.round <= b.round)
  }

  function Insert(c: Call, sorted: seq<Call>): seq<Call> {
    if sorted == [] || InOrder(c, sorted[0]) then [c] + sorted else [sorted[0]] + Insert(c, sorted[1..])
  }

  /** A stable sort. */
  function Sort(calls: seq<Call>): seq<Call> {
    if calls == [] then [] else Insert(calls[0], Sort(calls[1..]))
  }

  predicate Sorted(calls: seq<Call>) {
    forall i, j :: 0 <= i < j < |calls| ==> InOrder(calls[i], calls[j])
  }

  lemma {:induction false} InsertKeeps(c: Call, sorted: seq<Call>)
    ensures multiset(Insert(c, sorted)) == multiset{c} + multiset(sorted)
  {
    if sorted != [] && !InOrder(c, sorted[0]) {
      InsertKeeps(c, sorted[1..]);
      assert sorted == [sorted[0]] + sorted[1..];
    }
  }

  lemma {:induction false} InsertSorts(c: Call, sorted: seq<Call>)
    requires Sorted(sorted)
    ensures Sorted(Insert(c, sorted))
  {
    if sorted != [] && !InOrder(c, sorted[0]) {
      var rest := Insert(c, sorted[1..]);
      InsertSorts(c, sorted[1..]);
      InsertKeeps(c, sorted[1..]);
      forall i | 0 <= i < |rest| ensures InOrder(sorted[0], rest[i]) {
        assert rest[i] in multiset(rest);
        assert rest[i] == c || rest[i] in sorted[1..];
      }
    }
  }

  lemma {:induction false} SortSorts(calls: seq<Call>)
    ensures Sorted(Sort(calls)) && multiset(Sort(calls)) == multiset(calls)
  {
    if calls != [] {
      SortSorts(calls[1..]);
      InsertSorts(calls[0], Sort(calls[1..]));
      InsertKeeps(calls[0], Sort(calls[1..]));
      assert calls == [calls[0]] + calls[1..];
    }
  }

  /** `created_at` marks the end of the request. */
  function StepOf(c: Call): Step {
    Step(if c.createdAt.Some? then Some(c.createdAt.value - c.durationMs / 1000.0) else None, c.createdAt, c.durationMs, c.actions)
  }

  function StepsOf(calls: seq<Call>): (steps: seq<Step>)
    ensures |steps| == |calls|
  {
    seq(|calls|, i requires 0 <= i < |calls| => StepOf(calls[i]))
  }

  /** The times that are there. */
  function Known(times: seq<Option<real>>): seq<real> {
    if times == [] then [] else (if times[0].Some? then [times[0].value] else []) + Known(times[1..])
  }

  function Least(xs: seq<real>): real
    requires xs != []
  {
    if |xs| == 1 then xs[0] else Min(xs[0], Least(xs[1..]))
  }

  function StartsOf(steps: seq<Step>): (times: seq<Option<real>>)
    ensures |times| == |steps|
  {
    seq(|steps|, i requires 0 <= i < |steps| => steps[i].start)
  }

  /** The latest end, counting a missing one as the start. */
  function LastEnd(steps: seq<Step>, start: real): real {
    if steps == [] then start
    else Max(LastEnd(steps[..|steps| - 1], start), if steps[|steps| - 1].end.Some? then steps[|steps| - 1].end.value else start)
  }

  function TrajectoryGroup(calls: seq<Call>, inputs: seq<Option<real>>): Group {
    var steps := StepsOf(Sort(calls));
    var starts := Known(inputs + StartsOf(steps));
    var start := if starts != [] then Least(starts) else 0.0;
    Group(steps, start, Max(LastEnd(steps, start) - start, 1.0))
  }

  // ---- the segments ----

  function GapKind(previous: Option<Step>): Kind {
    if previous.Some? && previous.value.records > 0 then Tool else Wait
  }

  /** The segments one step adds at the cursor. */
  function Added(previous: Option<Step>, s: Step, cursor: real): seq<Segment> {
    if s.durationMs != 0.0 then
      var from := Max(cursor, Num(s.end) - s.durationMs / 1000.0);
      (if from > cursor then [Segment(GapKind(previous), cursor, Some(from))] else []) + [Segment(Model, from, s.end)]
    else if Num(s.end) > cursor then [Segment(Unknown, cursor, s.end)]
    else []
  }

  function Before(steps: seq<Step>, i: nat): Option<Step>
    requires i <= |steps|
  {
    if i == 0 then None else Some(steps[i - 1])
  }

  /** The cursor after the first i steps. */
  function Cursor(steps: seq<Step>, start: real, i: nat): real
    requires i <= |steps|
  {
    if i == 0 then start else Max(Cursor(steps, start, i - 1), Num(steps[i - 1].end))
  }

  /** The segments of the ith step. */
  function Drawn(steps: seq<Step>, start: real, i: nat): seq<Segment>
    requires i < |steps|
  {
    Added(Before(steps, i), steps[i], Cursor(steps, start, i))
  }

  /** The segments of the first i steps. */
  function Segments(steps: seq<Step>, start: real, i: nat): seq<Segment>
    requires i <= |steps|
  {
    if i == 0 then []
    else Segments(steps, start, i - 1) + Drawn(steps, start, i - 1)
  }

  /** Every segment is one that some step drew. */
  lemma {:induction false} SegmentIsDrawn(steps: seq<Step>, start: real, i: nat, s: Segment) returns (j: nat)
    requires i <= |steps| && s in Segments(steps, start, i)
    ensures j < i && s in Drawn(steps, start, j)
  {
    if s in Drawn(steps, start, i - 1) {
      j := i - 1;
    } else {
      j := SegmentIsDrawn(steps, start, i - 1, s);
    }
  }

  lemma {:induction false} DrawnIsSegment(steps: seq<Step>, start: real, i: nat, j: nat, s: Segment)
    requires j < i <= |steps| && s in Drawn(steps, start, j)
    ensures s in Segments(steps, start, i)
  {
    if j < i - 1 { DrawnIsSegment(steps, start, i - 1, j, s); }
  }

  /** What a segment of this kind says about the jth step. */
  predicate Tells(steps: seq<Step>, j: nat, s: Segment)
    requires j < |steps|
  {
    var requested := Num(steps[j].end) - steps[j].durationMs / 1000.0;
    match s.kind
    case Model => steps[j].durationMs != 0.0 && s.to == steps[j].end && s.from >= requested
    case Tool => steps[j].durationMs != 0.0 && s.to == Some(requested) && s.from < requested && j > 0 && steps[j - 1].records > 0
    case Wait => steps[j].durationMs != 0.0 && s.to == Some(requested) && s.from < requested && (j > 0 ==> steps[j - 1].records == 0)
    case Unknown => steps[j].durationMs == 0.0 && s.to == steps[j].end && s.from < Num(steps[j].end)
  }

  lemma AddedTells(steps: seq<Step>, j: nat, cursor: real, s: Segment)
    requires j < |steps| && s in Added(Before(steps, j), steps[j], cursor)
    ensures Tells(steps, j, s)
  {
  }

  /**
   Each segment tells of some step: time up to its end as the model's, from the request on; the time before
   the request as its predecessor's tools or else as waiting; or its whole time as unknown.
   */
  lemma EachSegmentTells(steps: seq<Step>, start: real, i: nat, s: Segment)
    requires i <= |steps| && s in Segments(steps, start, i)
    ensures exists j :: 0 <= j < i && Tells(steps, j, s)
  {
    var j := SegmentIsDrawn(steps, start, i, s);
    AddedTells(steps, j, Cursor(steps, start, j), s);
  }

  method TrajectorySegments(steps: seq<Step>, start: real) returns (segments: seq<Segment>)
    ensures segments == Segments(steps, start, |steps|)
  {
    segments := [];
    var cursor := start;
    for index := 0 to |steps|
      invariant segments == Segments(steps, start, index) && cursor == Cursor(steps, start, index)
    {
      var step := steps[index];
      ghost var drawn := segments;
      var gapKind := if index == 0 then Wait else if steps[index - 1].records > 0 then Tool else Wait;
      if step.durationMs != 0.0 {
        var modelStart := Max(cursor, Num(step.end) - step.durationMs / 1000.0);
        if modelStart > cursor { segments := segments + [Segment(gapKind, cursor, Some(modelStart))]; }
        segments := segments + [Segment(Model, modelStart, step.end)];
      } else if Num(step.end) > cursor {
        segments := segments + [Segment(Unknown, cursor, step.end)];
      }
      assert segments == drawn + Added(Before(steps, index), step, cursor);
      cursor := Max(cursor, Num(step.end));
    }
  }

  /** Consecutive, without gap or overlap, from `from` to `to`. */
  predicate Tiles(segments: seq<Segment>, from: real, to: real) {
    if segments == [] then from == to
    else
      var last := segments[|segments| - 1];
      last.to == Some(to) && last.from <= to && Tiles(segments[..|segments| - 1], from, last.from)
  }

  lemma TilesOneMore(segments: seq<Segment>, s: Segment, from: real, to: real)
    ensures Tiles(segments + [s], from, to) <==> s.to == Some(to) && s.from <= to && Tiles(segments, from, s.from)
  {
    assert (segments + [s])[..|segments|] == segments;
  }

  /** A step without an end that would be drawn all the same. */
  predicate Broken(steps: seq<Step>, start: real, i: nat)
    requires i < |steps|
  {
    steps[i].end.None? && Drawn(steps, start, i) != []
  }

  /** After the start of the epoch, such a step is drawn exactly when it took time. */
  lemma BrokenIffItTookTime(steps: seq<Step>, start: real, i: nat)
    requires i < |steps| && start >= 0.0
    ensures Broken(steps, start, i) <==> steps[i].end.None? && steps[i].durationMs != 0.0
  {
    CursorIsAbove(steps, start, i);
  }

  /** What a group's steps satisfy: ends in order, durations not negative, none starting before the group. */
  predicate Ordered(steps: seq<Step>, start: real) {
    && (forall i, j :: 0 <= i < j < |steps| ==> Num(steps[i].end) <= Num(steps[j].end))
    && (forall i :: 0 <= i < |steps| ==> steps[i].durationMs >= 0.0)
    && (forall i :: 0 <= i < |steps| && steps[i].end.Some? ==> start <= steps[i].end.value - steps[i].durationMs / 1000.0)
  }

  lemma CursorIsBelow(steps: seq<Step>, start: real, i: nat, k: nat)
    requires Ordered(steps, start) && i <= k < |steps| && steps[k].end.Some?
    ensures start <= Cursor(steps, start, i) <= Num(steps[k].end)
  {
    assert start <= Num(steps[k].end);
    if i > 0 { CursorIsBelow(steps, start, i - 1, k); }
  }

  lemma CursorIsAbove(steps: seq<Step>, start: real, i: nat)
    requires i <= |steps|
    ensures start <= Cursor(steps, start, i)
  {
  }

  /** One step extends a tiling exactly when it is not broken. */
  lemma StepTiles(segments: seq<Segment>, previous: Option<Step>, s: Step, start: real, cursor: real)
    requires s.durationMs >= 0.0 && (s.end.Some? ==> cursor <= s.end.value)
    ensures Tiles(segments + Added(previous, s, cursor), start, Max(cursor, Num(s.end))) <==>
            Tiles(segments, start, cursor) && !(s.end.None? && Added(previous, s, cursor) != [])
  {
    var added := Added(previous, s, cursor);
    if added == [] {
      assert segments + added == segments;
    } else {
      var last := added[|added| - 1];
      assert segments + added == (segments + added[..|added| - 1]) + [last];
      TilesOneMore(segments + added[..|added| - 1], last, start, Max(cursor, Num(s.end)));
      if |added| == 2 {
        assert segments + added[..1] == segments + [added[0]];
        TilesOneMore(segments, added[0], start, last.from);
      } else {
        assert segments + added[..0] == segments;
      }
    }
  }

  lemma OneStepTiles(steps: seq<Step>, start: real, i: nat)
    requires Ordered(steps, start) && 0 < i <= |steps|
    ensures Tiles(Segments(steps, start, i), start, Cursor(steps, start, i)) <==>
            Tiles(Segments(steps, start, i - 1), start, Cursor(steps, start, i - 1)) && !Broken(steps, start, i - 1)
  {
    if steps[i - 1].end.Some? { CursorIsBelow(steps, start, i - 1, i - 1); }
    StepTiles(Segments(steps, start, i - 1), Before(steps, i - 1), steps[i - 1], start, Cursor(steps, start, i - 1));
  }

  ghost predicate Unbroken(steps: seq<Step>, start: real, i: nat)
    requires i <= |steps|
  {
    forall j :: 0 <= j < i ==> !Broken(steps, start, j)
  }

  /** The segments tile the time up to the cursor if and only if no step without an end was drawn. */
  lemma {:induction false} SegmentsTile(steps: seq<Step>, start: real, i: nat)
    requires Ordered(steps, start) && i <= |steps|
    ensures Tiles(Segments(steps, start, i), start, Cursor(steps, start, i)) <==> Unbroken(steps, start, i)
  {
    if i > 0 {
      SegmentsTile(steps, start, i - 1);
      OneStepTiles(steps, start, i);
      OneStepBreaks(steps, start, i);
    }
  }

  lemma OneStepBreaks(steps: seq<Step>, start: real, i: nat)
    requires 0 < i <= |steps|
    ensures Unbroken(steps, start, i) <==> Unbroken(steps, start, i - 1) && !Broken(steps, start, i - 1)
  {
  }

  /** Unbroken, the cursor is the latest end. */
  lemma {:induction false} CursorIsLastEnd(steps: seq<Step>, start: real, i: nat)
    requires i <= |steps| && forall j :: 0 <= j < i ==> !Broken(steps, start, j)
    ensures Cursor(steps, start, i) == LastEnd(steps[..i], start)
  {
    CursorIsAbove(steps, start, i);
    if i > 0 {
      CursorIsLastEnd(steps, start, i - 1);
      CursorIsAbove(steps, start, i - 1);
      assert !Broken(steps, start, i - 1);
      assert steps[..i][..i - 1] == steps[..i - 1];
    }
  }

  // ---- the totals ----

  /** The reduce: seconds per kind. */
  function Total(segments: seq<Segment>, kind: Kind): real {
    if segments == [] then 0.0
    else
      var last := segments[|segments| - 1];
      Total(segments[..|segments| - 1], kind) + if last.kind == kind then Num(last.to) - last.from else 0.0
  }

  /** A tiling's totals add up to the time it covers. */
  lemma {:induction false} TotalsAddUp(segments: seq<Segment>, from: real, to: real)
    requires Tiles(segments, from, to)
    ensures Total(segments, Model) + Total(segments, Tool) + Total(segments, Wait) + Total(segments, Unknown) == to - from
  {
    if segments != [] {
      TotalsAddUp(segments[..|segments| - 1], from, segments[|segments| - 1].from);
    }
  }

  lemma {:induction false} TotalOfSum(a: seq<Segment>, b: seq<Segment>, kind: Kind)
    ensures Total(a + b, kind) == Total(a, kind) + Total(b, kind)
  {
    if b == [] {
      assert a + b == a;
    } else {
      assert (a + b)[..|a + b| - 1] == a + b[..|b| - 1];
      TotalOfSum(a, b[..|b| - 1], kind);
    }
  }

  function Requested(steps: seq<Step>): real {
    if steps == [] then 0.0 else Requested(steps[..|steps| - 1]) + steps[|steps| - 1].durationMs / 1000.0
  }

  /** Overlapping requests are clipped: the time shown as the model's never exceeds the time requested. */
  lemma {:induction false} ModelTimeIsClipped(steps: seq<Step>, start: real, i: nat)
    requires Ordered(steps, start) && i <= |steps| && forall j :: 0 <= j < i ==> steps[j].end.Some?
    ensures 0.0 <= Total(Segments(steps, start, i), Model) <= Requested(steps[..i])
  {
    if i > 0 {
      ModelTimeIsClipped(steps, start, i - 1);
      CursorIsBelow(steps, start, i - 1, i - 1);
      var before, cursor := Segments(steps, start, i - 1), Cursor(steps, start, i - 1);
      OneMoreIsClipped(before, Before(steps, i - 1), steps[i - 1], cursor, Requested(steps[..i - 1]));
      RequestedOneMore(steps, i);
    }
  }

  lemma RequestedOneMore(steps: seq<Step>, i: nat)
    requires 0 < i <= |steps|
    ensures Requested(steps[..i]) == Requested(steps[..i - 1]) + steps[i - 1].durationMs / 1000.0
  {
    assert steps[..i][..i - 1] == steps[..i - 1];
  }

  lemma OneMoreIsClipped(before: seq<Segment>, previous: Option<Step>, s: Step, cursor: real, limit: real)
    requires 0.0 <= Total(before, Model) <= limit
    requires s.durationMs >= 0.0 && s.end.Some? && cursor <= s.end.value
    ensures 0.0 <= Total(before + Added(previous, s, cursor), Model) <= limit + s.durationMs / 1000.0
  {
    TotalOfSum(before, Added(previous, s, cursor), Model);
    AddedModelTime(previous, s, cursor);
  }

  lemma AddedModelTime(previous: Option<Step>, s: Step, cursor: real)
    requires s.durationMs >= 0.0 && s.end.Some? && cursor <= s.end.value
    ensures 0.0 <= Total(Added(previous, s, cursor), Model) <= s.durationMs / 1000.0
  {
    var from := Max(cursor, Num(s.end) - s.durationMs / 1000.0);
    var gap, request := Segment(GapKind(previous), cursor, Some(from)), Segment(Model, from, s.end);
    TotalOfOne(gap, Model);
    TotalOfOne(request, Model);
    TotalOfOne(Segment(Unknown, cursor, s.end), Model);
    if s.durationMs != 0.0 {
      TotalOfSum([gap], [request], Model);
      assert [] + [request] == [request];
    }
  }

  lemma TotalOfOne(s: Segment, kind: Kind)
    ensures Total([s], kind) == if s.kind == kind then Num(s.to) - s.from else 0.0
  {
    assert [s][..0] == [];
  }

  // ---- the whole ----

  lemma {:induction false} LeastIsLeast(xs: seq<real>)
    requires xs != []
    ensures forall x :: x in xs ==> Least(xs) <= x
  {
    if |xs| > 1 {
      LeastIsLeast(xs[1..]);
      assert xs == [xs[0]] + xs[1..];
    }
  }

  lemma {:induction false} LeastIsThere(xs: seq<real>)
    requires xs != []
    ensures Least(xs) in xs
  {
    if |xs| > 1 { LeastIsThere(xs[1..]); }
  }

  lemma {:induction false} KnownIsThere(times: seq<Option<real>>, t: real)
    requires t in Known(times)
    ensures Some(t) in times
  {
    if !(times[0] == Some(t)) { KnownIsThere(times[1..], t); }
  }

  /** The group starts with the first of its inputs and requests whose time is known, or at zero. */
  lemma GroupStartsFirst(calls: seq<Call>, inputs: seq<Option<real>>)
    ensures var g := TrajectoryGroup(calls, inputs);
      var times := inputs + StartsOf(g.steps);
      && (forall t :: Some(t) in times ==> g.start <= t)
      && (Some(g.start) in times || (g.start == 0.0 && forall t :: t in times ==> t.None?))
  {
    var g := TrajectoryGroup(calls, inputs);
    var times := inputs + StartsOf(g.steps);
    forall i | 0 <= i < |times| && times[i].Some? ensures times[i].value in Known(times) { KnownHas(times, i); }
    if Known(times) != [] {
      LeastIsLeast(Known(times));
      LeastIsThere(Known(times));
      KnownIsThere(times, g.start);
    }
  }

  lemma {:induction false} KnownHas(times: seq<Option<real>>, i: nat)
    requires i < |times| && times[i].Some?
    ensures times[i].value in Known(times)
  {
    if i > 0 { KnownHas(times[1..], i - 1); }
  }

  /** What `trajectoryGroup` produces satisfies everything the segments need. */
  lemma GroupIsOrdered(calls: seq<Call>, inputs: seq<Option<real>>)
    requires forall c :: c in calls ==> c.durationMs >= 0.0
    ensures var g := TrajectoryGroup(calls, inputs); Ordered(g.steps, g.start) && |g.steps| == |calls|
  {
    var sorted := Sort(calls);
    var g := TrajectoryGroup(calls, inputs);
    SortSorts(calls);
    assert |sorted| == |multiset(sorted)| == |multiset(calls)| == |calls|;
    forall c | c in sorted ensures c in calls { assert c in multiset(sorted); }
    forall i | 0 <= i < |g.steps| && g.steps[i].end.Some?
      ensures g.start <= g.steps[i].end.value - g.steps[i].durationMs / 1000.0
    {
      var times := inputs + StartsOf(g.steps);
      assert times[|inputs| + i] == g.steps[i].start;
      KnownHas(times, |inputs| + i);
      LeastIsLeast(Known(times));
    }
  }

  lemma {:induction false} TilesHaveEnds(segments: seq<Segment>, from: real, to: real)
    requires Tiles(segments, from, to)
    ensures forall s :: s in segments ==> s.to.Some?
  {
    if segments != [] {
      var n := |segments| - 1;
      TilesHaveEnds(segments[..n], from, segments[n].from);
      assert segments == segments[..n] + [segments[n]];
    }
  }

  /** A broken step leaves a segment without an end. */
  lemma BrokenHasNoEnd(steps: seq<Step>, start: real, i: nat, j: nat)
    requires j < i <= |steps| && Broken(steps, start, j)
    ensures exists s :: s in Segments(steps, start, i) && s.to.None?
  {
    var drawn := Drawn(steps, start, j);
    DrawnIsSegment(steps, start, i, j, drawn[|drawn| - 1]);
  }

  /** Some call has no readable time and yet took time. */
  predicate Undated(calls: seq<Call>) {
    exists c :: c in calls && c.createdAt.None? && c.durationMs != 0.0
  }

  /** After the start of the epoch a step is drawn without an end exactly when such a call exists. */
  lemma BrokenIffUndated(calls: seq<Call>, inputs: seq<Option<real>>)
    requires TrajectoryGroup(calls, inputs).start >= 0.0
    ensures var g := TrajectoryGroup(calls, inputs);
      HasBroken(g) <==> Undated(calls)
  {
    var sorted, g := Sort(calls), TrajectoryGroup(calls, inputs);
    SortSorts(calls);
    forall i | 0 <= i < |g.steps|
      ensures Broken(g.steps, g.start, i) <==> sorted[i].createdAt.None? && sorted[i].durationMs != 0.0
    {
      BrokenIffItTookTime(g.steps, g.start, i);
    }
    if Undated(calls) {
      var c :| c in calls && c.createdAt.None? && c.durationMs != 0.0;
      assert c in multiset(sorted);
      var i :| 0 <= i < |sorted| && sorted[i] == c;
      assert Broken(g.steps, g.start, i);
    }
    if i :| 0 <= i < |g.steps| && Broken(g.steps, g.start, i) {
      assert sorted[i] in multiset(sorted) && sorted[i] in calls;
    }
  }

  function SegmentsOf(g: Group): seq<Segment> {
    Segments(g.steps, g.start, |g.steps|)
  }

  predicate HasBroken(g: Group) {
    exists i :: 0 <= i < |g.steps| && Broken(g.steps, g.start, i)
  }

  /** The segments tile some stretch of time from the group's start on. */
  ghost predicate Continuous(segments: seq<Segment>, from: real) {
    exists to :: Tiles(segments, from, to)
  }

  lemma ContinuousIff(g: Group)
    requires Ordered(g.steps, g.start)
    ensures Continuous(SegmentsOf(g), g.start) <==> !HasBroken(g)
  {
    var n := |g.steps|;
    SegmentsTile(g.steps, g.start, n);
    if HasBroken(g) {
      var j :| 0 <= j < n && Broken(g.steps, g.start, j);
      BrokenHasNoEnd(g.steps, g.start, n, j);
      forall to ensures !Tiles(SegmentsOf(g), g.start, to) { EndlessDoesNotTile(SegmentsOf(g), g.start, to); }
    } else {
      assert Tiles(SegmentsOf(g), g.start, Cursor(g.steps, g.start, n));
    }
  }

  lemma EndlessDoesNotTile(segments: seq<Segment>, from: real, to: real)
    ensures (exists s :: s in segments && s.to.None?) ==> !Tiles(segments, from, to)
  {
    if Tiles(segments, from, to) { TilesHaveEnds(segments, from, to); }
  }

  /** Unbroken, the segments reach exactly to the last end. */
  lemma UnbrokenReachesTheEnd(g: Group)
    requires Ordered(g.steps, g.start) && !HasBroken(g)
    ensures Tiles(SegmentsOf(g), g.start, LastEnd(g.steps, g.start))
  {
    var n := |g.steps|;
    SegmentsTile(g.steps, g.start, n);
    CursorIsLastEnd(g.steps, g.start, n);
    assert g.steps[..n] == g.steps;
  }

  /** The totals of the four kinds add up to the time from `from` to `to`. */
  predicate Accounts(segments: seq<Segment>, from: real, to: real) {
    Total(segments, Model) + Total(segments, Tool) + Total(segments, Wait) + Total(segments, Unknown) == to - from
  }

  /**
   The timeline of a group is without gap or overlap if and only if no call without a readable time took
   time; then it reaches from the group's start to its last end, and so do its totals.  Before the start of
   the epoch a call without a time may be drawn for a missing duration too; `ContinuousIff` covers that.
   */
  lemma TimelineTiles(calls: seq<Call>, inputs: seq<Option<real>>)
    requires forall c :: c in calls ==> c.durationMs >= 0.0
    ensures var g := TrajectoryGroup(calls, inputs);
      g.start >= 0.0 ==> (Continuous(SegmentsOf(g), g.start) <==> !Undated(calls))
    ensures var g := TrajectoryGroup(calls, inputs);
      var end := LastEnd(g.steps, g.start);
      Continuous(SegmentsOf(g), g.start) ==>
        Tiles(SegmentsOf(g), g.start, end) && Accounts(SegmentsOf(g), g.start, end) && end - g.start <= g.span
  {
    var g := TrajectoryGroup(calls, inputs);
    GroupIsOrdered(calls, inputs);
    ContinuousIff(g);
    if g.start >= 0.0 { BrokenIffUndated(calls, inputs); }
    if !HasBroken(g) {
      UnbrokenReachesTheEnd(g);
      TotalsAddUp(SegmentsOf(g), g.start, LastEnd(g.steps, g.start));
    }
  }
}
