/** The console timetabler (ConTimeTabler/Program.cs): the conflict check
    IsValidSchedule, the filter-free combination search
    GenerateSchedulesIterative, and the day-code labels. Day codes here are
    월=0, 화=1, 수=2, 목=3, 금=4, 토=5, 일=6 and e러닝=-1. */
module ConProgram {
  import opened Util
  import opened Catalog
  import opened Odometer
  import opened Text
  import opened Format

  // ----- IsValidSchedule -----

  /** No cell is occupied twice, counting every slot of every course,
      including two slots of the same course. */
  predicate ConflictFree(s: seq<Course>) {
    NoDup(ScheduleCellList(s))
  }

  function ConflictKeep(): seq<Course> -> bool {
    s => ConflictFree(s)
  }

  /** The period loop over one slot: marks the cells (day, h), start <= h <= end,
      and answers false at the first cell already taken. `seen` lists the
      cells marked before, without repetition. */
  method MarkSlot(occupied: set<Cell>, t: TimeSlot, ghost seen: seq<Cell>)
    returns (ok: bool, occupied': set<Cell>)
    requires occupied == Elems(seen) && NoDup(seen)
    ensures ok == NoDup(seen + SlotCellList(t))
    ensures ok ==> occupied' == Elems(seen + SlotCellList(t))
  {
    occupied' := occupied;
    var h := t.start;
    while h <= t.end
      invariant t.start <= h && (h <= t.end + 1 || h == t.start)
      invariant occupied' == Elems(seen + HourCells(t.day, t.start, h))
      invariant NoDup(seen + HourCells(t.day, t.start, h))
      decreases t.end - h
    {
      var slot := (t.day, h);
      ghost var marked := seen + HourCells(t.day, t.start, h);
      assert marked + [slot] == seen + HourCells(t.day, t.start, h + 1);
      NoDupSnoc(marked, slot);
      HourCellsPrefix(t.day, t.start, h + 1, t.end + 1);
      PrefixConcat(seen, HourCells(t.day, t.start, h + 1), SlotCellList(t));
      NoDupPrefix(marked + [slot], seen + SlotCellList(t));
      if slot in occupied' {
        return false, occupied';
      }
      ElemsAppend(marked, [slot]);
      occupied' := occupied' + {slot};
      h := h + 1;
    }
    assert HourCells(t.day, t.start, h) == SlotCellList(t);
    ok := true;
  }

  /** The slot loop over one course. */
  method MarkCourse(occupied: set<Cell>, c: Course, ghost seen: seq<Cell>)
    returns (ok: bool, occupied': set<Cell>)
    requires occupied == Elems(seen) && NoDup(seen)
    ensures ok == NoDup(seen + CourseCellList(c))
    ensures ok ==> occupied' == Elems(seen + CourseCellList(c))
  {
    occupied' := occupied;
    for j := 0 to |c.times|
      invariant occupied' == Elems(seen + TimesCellList(c.times[..j]))
      invariant NoDup(seen + TimesCellList(c.times[..j]))
    {
      var t := c.times[j];
      ghost var marked := seen + TimesCellList(c.times[..j]);
      assert c.times[..j + 1][..j] == c.times[..j];
      assert marked + SlotCellList(t) == seen + TimesCellList(c.times[..j + 1]);
      var slotOk;
      slotOk, occupied' := MarkSlot(occupied', t, marked);
      TimesCellListPrefix(c.times, j + 1);
      assert c.times[..|c.times|] == c.times;
      PrefixConcat(seen, TimesCellList(c.times[..j + 1]), CourseCellList(c));
      NoDupPrefix(seen + TimesCellList(c.times[..j + 1]), seen + CourseCellList(c));
      if !slotOk {
        return false, occupied';
      }
    }
    assert c.times[..|c.times|] == c.times;
    ok := true;
  }

  /** Program.IsValidSchedule: fills the occupancy set cell by cell and
      answers false at the first cell already taken. */
  method IsValidSchedule(schedule: seq<Course>) returns (valid: bool)
    ensures valid == ConflictFree(schedule)
  {
    var occupied: set<Cell> := {};
    for i := 0 to |schedule|
      invariant occupied == Elems(ScheduleCellList(schedule[..i]))
      invariant NoDup(ScheduleCellList(schedule[..i]))
    {
      assert schedule[..i + 1][..i] == schedule[..i];
      var ok;
      ok, occupied := MarkCourse(occupied, schedule[i], ScheduleCellList(schedule[..i]));
      ScheduleCellListPrefix(schedule, i + 1);
      NoDupPrefix(ScheduleCellList(schedule[..i + 1]), ScheduleCellList(schedule));
      if !ok {
        return false;
      }
    }
    assert schedule[..|schedule|] == schedule;
    return true;
  }

  // ----- Properties of the conflict check -----

  /** Adding a course keeps the schedule conflict-free exactly when the course
      has no conflict of its own and shares no cell with the schedule. */
  lemma ConflictFreeSnoc(s: seq<Course>, c: Course)
    ensures ConflictFree(s + [c]) <==>
      ConflictFree(s) && NoDup(CourseCellList(c)) && ScheduleCells(s) * CourseCells(c) == {}
  {
    assert (s + [c])[..|s|] == s;
    NoDupConcat(ScheduleCellList(s), CourseCellList(c));
  }

  /** The empty schedule is valid, and a slot with start > end occupies no
      cell, so adding one to a course never changes validity. */
  lemma ConflictFreeInvertedSlot(a: seq<Course>, c: Course, b: seq<Course>, t: TimeSlot)
    requires t.start > t.end
    ensures ConflictFree([])
    ensures ConflictFree(a + [c.(times := c.times + [t])] + b) <==> ConflictFree(a + [c] + b)
  {
    var c' := c.(times := c.times + [t]);
    assert c'.times[..|c'.times| - 1] == c.times;
    InvertedSlotIsEmpty(t);
    assert CourseCellList(c') == CourseCellList(c);
    ScheduleCellListAppend(a + [c'], b);
    ScheduleCellListAppend(a + [c], b);
    assert (a + [c'])[..|a|] == a && (a + [c])[..|a|] == a;
  }

  /** Validity is prefix-closed. */
  lemma ConflictFreePrefix(s: seq<Course>, k: nat)
    requires k <= |s|
    ensures ConflictFree(s) ==> ConflictFree(s[..k])
  {
    ScheduleCellListPrefix(s, k);
    NoDupPrefix(ScheduleCellList(s[..k]), ScheduleCellList(s));
  }

  lemma RemoveAt(s: seq<Course>, k: nat)
    requires k < |s|
    ensures s == s[..k] + [s[k]] + s[k + 1..]
    ensures multiset(s[..k] + s[k + 1..]) == multiset(s) - multiset{s[k]}
  {
    assert s == s[..k] + [s[k]] + s[k + 1..];
  }

  /** The cells of a course inserted anywhere add that course's cells. */
  lemma CellsInsert(pre: seq<Course>, c: Course, post: seq<Course>)
    ensures multiset(ScheduleCellList(pre + [c] + post)) ==
      multiset(ScheduleCellList(pre + post)) + multiset(CourseCellList(c))
  {
    ScheduleCellListAppend(pre, post);
    ScheduleCellListAppend(pre + [c], post);
    assert (pre + [c])[..|pre|] == pre;
  }

  /** The multiset of cells depends only on the multiset of courses. */
  lemma {:induction false} CellsOfPermutation(s: seq<Course>, s': seq<Course>)
    requires multiset(s) == multiset(s')
    ensures multiset(ScheduleCellList(s)) == multiset(ScheduleCellList(s'))
    decreases |s|
  {
    if |s| > 0 {
      var init, c := s[..|s| - 1], s[|s| - 1];
      assert s == init + [c];
      assert multiset(init) == multiset(s) - multiset{c};
      assert c in multiset(s');
      var k :| 0 <= k < |s'| && s'[k] == c;
      RemoveAt(s', k);
      CellsOfPermutation(init, s'[..k] + s'[k + 1..]);
      CellsInsert(s'[..k], c, s'[k + 1..]);
    } else {
      assert |s'| == |multiset(s')|;
    }
  }

  /** Validity does not depend on the order of the courses. */
  lemma ConflictFreePermutation(s: seq<Course>, s': seq<Course>)
    requires multiset(s) == multiset(s')
    ensures ConflictFree(s) <==> ConflictFree(s')
  {
    CellsOfPermutation(s, s');
    NoDupCount(ScheduleCellList(s));
    NoDupCount(ScheduleCellList(s'));
  }

  // ----- GenerateSchedulesIterative -----

  /** What GenerateSchedulesIterative yields: the conflict-free combinations
      of the Cartesian product in odometer order, nothing for zero groups. */
  function IterativeGenerated(groups: seq<seq<Course>>): seq<seq<Course>>
    requires Positive(Sizes(groups))
  {
    if |groups| == 0 then [] else KeptPicks(groups, ConflictKeep(), Product(Sizes(groups)))
  }

  /** The combination of the current index tuple, built course by course. */
  method Combination(groups: seq<seq<Course>>, idx: array<nat>) returns (combination: seq<Course>)
    requires IsTuple(idx[..], Sizes(groups))
    ensures combination == Pick(groups, idx[..])
  {
    combination := [];
    for i := 0 to |groups|
      invariant combination == Pick(groups, idx[..])[..i]
    {
      combination := combination + [groups[i][idx[i]]];
    }
  }

  /** One round of the search loop: test the current combination, yield it
      when valid, advance the odometer. */
  method IterativeStep(groups: seq<seq<Course>>, idx: array<nat>, schedules: seq<seq<Course>>, ghost r: nat)
    returns (schedules': seq<seq<Course>>, more: bool)
    requires Positive(Sizes(groups)) && r < Product(Sizes(groups))
    requires idx[..] == Unrank(r, Sizes(groups))
    requires schedules == KeptPicks(groups, ConflictKeep(), r)
    modifies idx
    ensures schedules' == KeptPicks(groups, ConflictKeep(), r + 1)
    ensures more <==> r + 1 < Product(Sizes(groups))
    ensures more ==> idx[..] == Unrank(r + 1, Sizes(groups))
  {
    var combination := Combination(groups, idx);
    var valid := IsValidSchedule(combination);
    schedules' := if valid then schedules + [combination] else schedules;
    NextUnrank(r, Sizes(groups));
    more := Advance(idx, groups);
  }

  /** Program.GenerateSchedulesIterative. */
  method GenerateSchedulesIterative(groups: seq<seq<Course>>) returns (schedules: seq<seq<Course>>)
    requires Positive(Sizes(groups))
    ensures |groups| == 0 ==> schedules == []
    ensures schedules == IterativeGenerated(groups)
  {
    var n := |groups|;
    if n == 0 {
      return [];
    }
    var idx := new nat[n](_ => 0);
    ZerosRank(Sizes(groups));
    assert idx[..] == Unrank(0, Sizes(groups));
    schedules := [];
    ghost var attempts := 0;
    var more := true;
    while more
      invariant idx.Length == n
      invariant attempts <= Product(Sizes(groups))
      invariant more ==> attempts < Product(Sizes(groups)) && idx[..] == Unrank(attempts, Sizes(groups))
      invariant !more ==> attempts == Product(Sizes(groups))
      invariant schedules == KeptPicks(groups, ConflictKeep(), attempts)
      decreases Product(Sizes(groups)) - attempts
    {
      schedules, more := IterativeStep(groups, idx, schedules, attempts);
      attempts := attempts + 1;
    }
  }

  /** A combination is yielded exactly when it is the pick of some index
      tuple and conflict-free; the kept tuples come in increasing
      lexicographic order. */
  lemma IterativeIsValidProduct(groups: seq<seq<Course>>, s: seq<Course>)
    requires |groups| > 0 && Positive(Sizes(groups))
    ensures IterativeGenerated(groups) ==
      Picks(groups, KeptTuples(groups, ConflictKeep(), Product(Sizes(groups))))
    ensures s in IterativeGenerated(groups) <==>
      (exists t :: IsTuple(t, Sizes(groups)) && s == Pick(groups, t)) && ConflictFree(s)
    ensures forall i, j :: 0 <= i < j < |KeptTuples(groups, ConflictKeep(), Product(Sizes(groups)))| ==>
      LexLess(KeptTuples(groups, ConflictKeep(), Product(Sizes(groups)))[i],
              KeptTuples(groups, ConflictKeep(), Product(Sizes(groups)))[j])
  {
    var p := Product(Sizes(groups));
    var kt := KeptTuples(groups, ConflictKeep(), p);
    KeptPicksAreKeptTuples(groups, ConflictKeep(), p);
    KeptPicksMembers(groups, ConflictKeep(), s);
    forall i, j | 0 <= i < j < |kt| ensures LexLess(kt[i], kt[j]) {
      KeptTuplesSorted(groups, ConflictKeep(), p, i, j);
    }
  }

  /** When no combination of the product has a conflict, every combination
      is yielded. */
  lemma IterativeAllValid(groups: seq<seq<Course>>)
    requires |groups| > 0 && Positive(Sizes(groups))
    requires forall t :: IsTuple(t, Sizes(groups)) ==> ConflictFree(Pick(groups, t))
    ensures |IterativeGenerated(groups)| == Product(Sizes(groups))
  {
    var p := Product(Sizes(groups));
    KeptPicksAreKeptTuples(groups, ConflictKeep(), p);
    KeptTuplesAll(groups, ConflictKeep(), p);
    PicksLength(groups, KeptTuples(groups, ConflictKeep(), p));
  }

  // ----- Day labels -----

  /** The enum name of a day code, for the codes the enum defines. */
  function ConDayName(d: int): Option<string>
  {
    match d
    case 0 => Some("월")
    case 1 => Some("화")
    case 2 => Some("수")
    case 3 => Some("목")
    case 4 => Some("금")
    case 5 => Some("토")
    case 6 => Some("일")
    case -1 => Some("e러닝")
    case _ => None
  }

  /** Program.DayToString: the enum name, "?" for any other code. */
  function DayToString(d: int): string
  {
    match ConDayName(d)
    case Some(name) => name
    case None => "?"
  }

  /** Course.DayToString: like Program.DayToString except that it has no case
      for e-learning, which therefore also renders as "?". */
  function CourseDayToString(d: int): string
  {
    if d == -1 then "?" else DayToString(d)
  }

  /** The enum covers exactly -1..6, and distinct codes have distinct names. */
  lemma ConDayNames(d: int, d': int)
    ensures ConDayName(d).Some? <==> -1 <= d <= 6
    ensures ConDayName(d).Some? && ConDayName(d) == ConDayName(d') ==> d == d'
    ensures DayToString(d) == "?" <==> ConDayName(d).None?
    ensures CourseDayToString(d) != DayToString(d) <==> d == -1
  {
  }

  /** Course.ToString's rendering of one slot: "(label, Room, start-end)". */
  function SlotToString(t: TimeSlot): string
  {
    SlotLine(CourseDayToString(t.day), t)
  }

  /** Course.ToString: "Name(CourseID | ClassNumber) - Professor [slot, slot, ...]". */
  function CourseToString(c: Course): string
  {
    BracketedCourse(c, SlotToString)
  }

  /** A slot on a weekday 0..6 shows that day's label, so slots on different
      weekdays render differently; an e-learning slot renders exactly like a
      slot with an undefined code (both as "?"). */
  lemma SlotToStringDays(t: TimeSlot, t': TimeSlot)
    ensures 0 <= t.day <= 6 ==> SlotToString(t)[1] == "월화수목금토일"[t.day]
    ensures 0 <= t.day <= 6 && 0 <= t'.day <= 6 && t.day != t'.day ==> SlotToString(t) != SlotToString(t')
    ensures SlotToString(t.(day := -1)) == SlotToString(t.(day := 7)) == SlotLine("?", t)
  {
    SlotLineLabel(CourseDayToString(t.day), t, CourseDayToString(t'.day), t');
  }

  /** Course.ToString lists the times in order inside the brackets. */
  lemma CourseToStringTimes(c: Course, t: TimeSlot)
    ensures CourseToString(c.(times := [])) ==
      c.name + "(" + c.courseId + " | " + c.classNumber + ") - " + c.professor + " []"
    ensures var line := CourseToString(c);
      CourseToString(c.(times := c.times + [t])) ==
        line[..|line| - 1] + (if |c.times| == 0 then "" else ", ") + SlotToString(t) + "]"
  {
    BracketedCourseAppend(c, t, SlotToString);
  }
}
