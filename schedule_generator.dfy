/** The realtime-filtered combination search of ScheduleGenerator.Generate.

    For each index tuple, in odometer order, the generator builds the schedule
    from an empty occupancy set: course i is offered to every realtime filter
    together with the cells of courses 0..i-1; the first filter that rejects
    abandons the tuple, otherwise the course is added and its cells marked.
    Tuples whose every course passes are yielded. */
module Generator {
  import opened Util
  import opened Catalog
  import opened Odometer

  /** A realtime filter: does it accept the course, given the occupied cells?
      The concrete filters are not part of this model; any pure predicate may
      stand for one. */
  type RealtimeFilter = (Course, set<Cell>) -> bool

  /** Every filter accepts the course against the occupied cells. */
  predicate AcceptsAll(filters: seq<RealtimeFilter>, c: Course, occupied: set<Cell>) {
    forall j :: 0 <= j < |filters| ==> filters[j](c, occupied)
  }

  /** Every course passes every filter against the cells of the courses before it. */
  predicate RealtimeOk(filters: seq<RealtimeFilter>, s: seq<Course>) {
    forall i :: 0 <= i < |s| ==> AcceptsAll(filters, s[i], ScheduleCells(s[..i]))
  }

  function RealtimeKeep(filters: seq<RealtimeFilter>): seq<Course> -> bool {
    s => RealtimeOk(filters, s)
  }

  /** What Generate yields: the accepted picks of the Cartesian product in
      odometer order, and nothing at all for zero groups. */
  function Generated(groups: seq<seq<Course>>, filters: seq<RealtimeFilter>): seq<seq<Course>>
    requires Positive(Sizes(groups))
  {
    if |groups| == 0 then []
    else KeptPicks(groups, RealtimeKeep(filters), Product(Sizes(groups)))
  }

  /** Pruning is sound and complete: a schedule extended by one course passes
      exactly when the schedule passes and the new course passes every filter
      against the cells of the schedule (and not its own). */
  lemma RealtimeOkSnoc(filters: seq<RealtimeFilter>, s: seq<Course>, c: Course)
    ensures RealtimeOk(filters, s + [c]) <==>
      RealtimeOk(filters, s) && AcceptsAll(filters, c, ScheduleCells(s))
  {
    var s' := s + [c];
    assert s'[..|s|] == s;
    forall i | 0 <= i < |s| ensures s'[..i] == s[..i] && s'[i] == s[i] { }
    if RealtimeOk(filters, s) && AcceptsAll(filters, c, ScheduleCells(s)) {
      forall i | 0 <= i < |s'| ensures AcceptsAll(filters, s'[i], ScheduleCells(s'[..i])) {
        if i < |s| {
          assert AcceptsAll(filters, s[i], ScheduleCells(s[..i]));
        }
      }
    }
  }

  /** Passing the filters is prefix-closed. */
  lemma RealtimeOkPrefix(filters: seq<RealtimeFilter>, s: seq<Course>, k: nat)
    requires k <= |s|
    ensures RealtimeOk(filters, s) ==> RealtimeOk(filters, s[..k])
  {
    if RealtimeOk(filters, s) {
      forall i | 0 <= i < k ensures AcceptsAll(filters, s[..k][i], ScheduleCells(s[..k][..i])) {
        assert s[..k][..i] == s[..i];
        assert AcceptsAll(filters, s[i], ScheduleCells(s[..i]));
      }
    }
  }

  /** With no filters, every tuple of the product is yielded. */
  lemma NoFiltersYieldProduct(groups: seq<seq<Course>>)
    requires |groups| > 0 && Positive(Sizes(groups))
    ensures |Generated(groups, [])| == Product(Sizes(groups))
  {
    KeptPicksAreKeptTuples(groups, RealtimeKeep([]), Product(Sizes(groups)));
    KeptTuplesAll(groups, RealtimeKeep([]), Product(Sizes(groups)));
    PicksLength(groups, KeptTuples(groups, RealtimeKeep([]), Product(Sizes(groups))));
  }

  /** The yielded schedules are the picks of the kept index tuples; a tuple is
      kept exactly when its pick passes the filters, and the kept tuples come
      in strictly increasing lexicographic order. */
  lemma GeneratedIsFilteredProduct(groups: seq<seq<Course>>, filters: seq<RealtimeFilter>)
    requires |groups| > 0 && Positive(Sizes(groups))
    ensures Generated(groups, filters) ==
      Picks(groups, KeptTuples(groups, RealtimeKeep(filters), Product(Sizes(groups))))
    ensures forall t :: IsTuple(t, Sizes(groups)) ==>
      (t in KeptTuples(groups, RealtimeKeep(filters), Product(Sizes(groups))) <==>
       RealtimeOk(filters, Pick(groups, t)))
    ensures forall i, j :: 0 <= i < j < |KeptTuples(groups, RealtimeKeep(filters), Product(Sizes(groups)))| ==>
      LexLess(KeptTuples(groups, RealtimeKeep(filters), Product(Sizes(groups)))[i],
              KeptTuples(groups, RealtimeKeep(filters), Product(Sizes(groups)))[j])
  {
    var p := Product(Sizes(groups));
    var kt := KeptTuples(groups, RealtimeKeep(filters), p);
    KeptPicksAreKeptTuples(groups, RealtimeKeep(filters), p);
    forall t | IsTuple(t, Sizes(groups))
      ensures t in kt <==> RealtimeOk(filters, Pick(groups, t))
    {
      KeptTuplesComplete(groups, RealtimeKeep(filters), p, t);
    }
    forall i, j | 0 <= i < j < |kt| ensures LexLess(kt[i], kt[j]) {
      KeptTuplesSorted(groups, RealtimeKeep(filters), p, i, j);
    }
  }

  /** A schedule is yielded exactly when it is the pick of some index tuple and
      passes the filters. */
  lemma GeneratedMembers(groups: seq<seq<Course>>, filters: seq<RealtimeFilter>, s: seq<Course>)
    requires |groups| > 0 && Positive(Sizes(groups))
    ensures s in Generated(groups, filters) <==>
      (exists t :: IsTuple(t, Sizes(groups)) && s == Pick(groups, t)) && RealtimeOk(filters, s)
  {
    GeneratedIsFilteredProduct(groups, filters);
    KeptPicksMembers(groups, RealtimeKeep(filters), s);
  }

  /** Every yielded schedule has one course per group, the i-th taken from group i. */
  lemma GeneratedShape(groups: seq<seq<Course>>, filters: seq<RealtimeFilter>, k: nat)
    requires Positive(Sizes(groups)) && k < |Generated(groups, filters)|
    ensures |Generated(groups, filters)[k]| == |groups|
    ensures forall i :: 0 <= i < |groups| ==> Generated(groups, filters)[k][i] in groups[i]
  {
    GeneratedMembers(groups, filters, Generated(groups, filters)[k]);
  }

  /** Runs the filters in order and stops at the first that rejects. The ghost
      result `stop` is the number of filters that accepted before it. */
  method PassesFilters(filters: seq<RealtimeFilter>, course: Course, occupied: set<Cell>)
    returns (pass: bool, ghost stop: nat)
    ensures pass <==> AcceptsAll(filters, course, occupied)
    ensures stop <= |filters| && (pass <==> stop == |filters|)
    ensures forall j :: 0 <= j < stop ==> filters[j](course, occupied)
    ensures stop < |filters| ==> !filters[stop](course, occupied)
  {
    pass := true;
    stop := 0;
    for j := 0 to |filters|
      invariant stop == j
      invariant forall j' :: 0 <= j' < j ==> filters[j'](course, occupied)
    {
      if !filters[j](course, occupied) {
        pass := false;
        return;
      }
      stop := j + 1;
    }
  }

  /** Marks the cells (day, h), start <= h <= end, of every slot of the course. */
  method Occupy(occupied: set<Cell>, course: Course) returns (result: set<Cell>)
    ensures result == occupied + CourseCells(course)
  {
    result := occupied;
    for j := 0 to |course.times|
      invariant result == occupied + Elems(TimesCellList(course.times[..j]))
    {
      var t := course.times[j];
      var h := t.start;
      while h <= t.end
        invariant t.start <= h && (h <= t.end + 1 || h == t.start)
        invariant result == occupied + Elems(TimesCellList(course.times[..j])) + Elems(HourCells(t.day, t.start, h))
        decreases t.end - h
      {
        ElemsAppend(HourCells(t.day, t.start, h), [(t.day, h)]);
        result := result + {(t.day, h)};
        h := h + 1;
      }
      assert HourCells(t.day, t.start, h) == SlotCellList(t);
      assert course.times[..j + 1][..j] == course.times[..j];
      ElemsAppend(TimesCellList(course.times[..j]), SlotCellList(t));
    }
    assert course.times[..|course.times|] == course.times;
  }

  /** One attempt: builds the schedule of the current index tuple left to
      right, starting from no occupied cells. When some course is rejected the
      attempt stops there, and `schedule` holds the courses before it. */
  method Attempt(groups: seq<seq<Course>>, filters: seq<RealtimeFilter>, idx: array<nat>)
    returns (valid: bool, schedule: seq<Course>)
    requires IsTuple(idx[..], Sizes(groups))
    ensures valid == RealtimeOk(filters, Pick(groups, idx[..]))
    ensures valid ==> schedule == Pick(groups, idx[..])
    ensures !valid ==>
      schedule < Pick(groups, idx[..]) && RealtimeOk(filters, schedule) &&
      !AcceptsAll(filters, Pick(groups, idx[..])[|schedule|], ScheduleCells(schedule))
  {
    ghost var picked := Pick(groups, idx[..]);
    var n := |groups|;
    schedule := [];
    var occupied: set<Cell> := {};
    valid := true;
    var i := 0;
    while i < n
      invariant 0 <= i <= n
      invariant schedule == picked[..i]
      invariant occupied == ScheduleCells(schedule)
      invariant RealtimeOk(filters, schedule)
    {
      var course := groups[i][idx[i]];
      assert course == picked[i];
      var pass;
      ghost var stop;
      pass, stop := PassesFilters(filters, course, occupied);
      if !pass {
        valid := false;
        RejectedPrefix(filters, picked, i);
        break;
      }
      AcceptedPrefix(filters, picked, i);
      schedule := schedule + [course];
      occupied := Occupy(occupied, course);
      i := i + 1;
    }
    if valid {
      assert picked[..n] == picked;
    }
  }

  /** A pick rejected after an accepted prefix makes the whole tuple rejected. */
  lemma RejectedPrefix(filters: seq<RealtimeFilter>, picked: seq<Course>, i: nat)
    requires i < |picked| && RealtimeOk(filters, picked[..i])
    requires !AcceptsAll(filters, picked[i], ScheduleCells(picked[..i]))
    ensures !RealtimeOk(filters, picked) && picked[..i] < picked
  {
    RealtimeOkSnoc(filters, picked[..i], picked[i]);
    assert picked[..i + 1] == picked[..i] + [picked[i]];
    RealtimeOkPrefix(filters, picked, i + 1);
  }

  /** An accepted pick extends the accepted prefix and its cells. */
  lemma AcceptedPrefix(filters: seq<RealtimeFilter>, picked: seq<Course>, i: nat)
    requires i < |picked| && RealtimeOk(filters, picked[..i])
    requires AcceptsAll(filters, picked[i], ScheduleCells(picked[..i]))
    ensures picked[..i + 1] == picked[..i] + [picked[i]] && RealtimeOk(filters, picked[..i + 1])
    ensures ScheduleCells(picked[..i + 1]) == ScheduleCells(picked[..i]) + CourseCells(picked[i])
  {
    assert picked[..i + 1] == picked[..i] + [picked[i]];
    RealtimeOkSnoc(filters, picked[..i], picked[i]);
    ScheduleCellsSnoc(picked[..i], picked[i]);
  }

  /** One round of Generate's loop: try the tuple in `idx` (of rank r), yield
      its schedule when it passes, and advance the odometer. */
  method SearchStep(groups: seq<seq<Course>>, filters: seq<RealtimeFilter>, idx: array<nat>,
                    schedules: seq<seq<Course>>, ghost r: nat)
    returns (schedules': seq<seq<Course>>, more: bool)
    requires Positive(Sizes(groups)) && r < Product(Sizes(groups))
    requires idx[..] == Unrank(r, Sizes(groups))
    requires schedules == KeptPicks(groups, RealtimeKeep(filters), r)
    modifies idx
    ensures schedules' == KeptPicks(groups, RealtimeKeep(filters), r + 1)
    ensures more <==> r + 1 < Product(Sizes(groups))
    ensures more ==> idx[..] == Unrank(r + 1, Sizes(groups))
  {
    var valid, schedule := Attempt(groups, filters, idx);
    schedules' := if valid then schedules + [schedule] else schedules;
    NextUnrank(r, Sizes(groups));
    more := Advance(idx, groups);
  }

  /** ScheduleGenerator.Generate. `attempts` counts the index tuples tried. */
  method Generate(groups: seq<seq<Course>>, filters: seq<RealtimeFilter>)
    returns (schedules: seq<seq<Course>>, ghost attempts: nat)
    requires Positive(Sizes(groups))
    ensures |groups| == 0 ==> schedules == []
    ensures schedules == Generated(groups, filters)
    ensures attempts == if |groups| == 0 then 0 else Product(Sizes(groups))
  {
    var n := |groups|;
    if n == 0 {
      return [], 0;
    }
    var idx := new nat[n](_ => 0);
    ZerosRank(Sizes(groups));
    assert idx[..] == Unrank(0, Sizes(groups));
    schedules := [];
    attempts := 0;
    var more := true;
    while more
      invariant idx.Length == n
      invariant attempts <= Product(Sizes(groups))
      invariant more ==> attempts < Product(Sizes(groups)) && idx[..] == Unrank(attempts, Sizes(groups))
      invariant !more ==> attempts == Product(Sizes(groups))
      invariant schedules == KeptPicks(groups, RealtimeKeep(filters), attempts)
      decreases Product(Sizes(groups)) - attempts
    {
      schedules, more := SearchStep(groups, filters, idx, schedules, attempts);
      attempts := attempts + 1;
    }
  }
}
