/** The schedule filters of ConTimeTabler/Filter.cs, with the console day
    codes (금 = 4). */
module Filters {
  import opened Catalog

  /** Some slot of some course satisfies p (schedule.Any(c => c.Times.Any(p))). */
  predicate AnySlot(s: seq<Course>, p: TimeSlot -> bool) {
    exists i, j :: 0 <= i < |s| && 0 <= j < |s[i].times| && p(s[i].times[j])
  }

  /** A slot that starts before period 13 and ends after period 12. */
  predicate OverLunch(t: TimeSlot) { t.start < 13 && t.end > 12 }

  predicate OnFriday(t: TimeSlot) { t.day == 4 }

  /** LunchBreakFilter.Apply. */
  predicate LunchBreakApply(s: seq<Course>) {
    !AnySlot(s, OverLunch)
  }

  /** NoFridayFilter.Apply. */
  predicate NoFridayApply(s: seq<Course>) {
    !AnySlot(s, OnFriday)
  }

  /** Any distributes over concatenation. */
  lemma AnySlotAppend(a: seq<Course>, b: seq<Course>, p: TimeSlot -> bool)
    ensures AnySlot(a + b, p) <==> AnySlot(a, p) || AnySlot(b, p)
  {
    if AnySlot(a + b, p) {
      var i, j :| 0 <= i < |a + b| && 0 <= j < |(a + b)[i].times| && p((a + b)[i].times[j]);
      if i < |a| {
        assert a[i] == (a + b)[i];
      } else {
        assert b[i - |a|] == (a + b)[i];
      }
    }
    if AnySlot(a, p) {
      var i, j :| 0 <= i < |a| && 0 <= j < |a[i].times| && p(a[i].times[j]);
      assert (a + b)[i] == a[i];
    }
    if AnySlot(b, p) {
      var i, j :| 0 <= i < |b| && 0 <= j < |b[i].times| && p(b[i].times[j]);
      assert (a + b)[|a| + i] == b[i];
    }
  }

  /** Both filters accept the empty schedule and distribute over
      concatenation, so they do not depend on the order of the courses and
      keep accepting when courses are removed. */
  lemma FiltersDistribute(a: seq<Course>, b: seq<Course>)
    ensures LunchBreakApply([]) && NoFridayApply([])
    ensures LunchBreakApply(a + b) <==> LunchBreakApply(a) && LunchBreakApply(b)
    ensures NoFridayApply(a + b) <==> NoFridayApply(a) && NoFridayApply(b)
  {
    AnySlotAppend(a, b, OverLunch);
    AnySlotAppend(a, b, OnFriday);
  }

  /** In terms of cells: a slot over lunch is one that occupies both periods
      12 and 13 of its day. */
  lemma OverLunchCells(t: TimeSlot)
    ensures OverLunch(t) <==> Covers(t, (t.day, 12)) && Covers(t, (t.day, 13))
  {
  }

  /** A schedule the Friday filter accepts occupies no Friday cell. The
      converse fails: a Friday slot with start > end occupies no cell and is
      still rejected. */
  lemma NoFridayCells(s: seq<Course>, h: int)
    ensures NoFridayApply(s) ==> (4, h) !in ScheduleCells(s)
    ensures NoFridayApply([Course(0, 0, "", "", "", "", [TimeSlot(4, "", 1, 0)], "", "", "")]) == false
    ensures (4, h) !in ScheduleCells([Course(0, 0, "", "", "", "", [TimeSlot(4, "", 1, 0)], "", "", "")])
  {
    ScheduleCellsCover(s, (4, h));
    if (4, h) in ScheduleCells(s) {
      var i, j :| 0 <= i < |s| && 0 <= j < |s[i].times| && Covers(s[i].times[j], (4, h));
      assert OnFriday(s[i].times[j]);
    }
    var c := Course(0, 0, "", "", "", "", [TimeSlot(4, "", 1, 0)], "", "", "");
    assert OnFriday(c.times[0]);
    ScheduleCellsCover([c], (4, h));
  }
}
