/** Course sections and the timetable cells they occupy.

    A section meets at a list of time slots; a slot on day `day` covering
    periods `start..end` (both inclusive) occupies the cells (day, h) for every
    h with start <= h <= end. E-learning sections carry the day code -1 with
    start = end = 0 and therefore occupy the cell (-1, 0) like any other slot. */
module Catalog {
  import opened Util

  /** One meeting: day code, room, first and last period. */
  datatype TimeSlot = TimeSlot(day: int, room: string, start: int, end: int)

  /** One course section, with the fields the catalogue records. */
  datatype Course = Course(
    grade: int,
    credit: int,
    courseId: string,
    courseNumber: string,
    division: string,
    classNumber: string,
    times: seq<TimeSlot>,
    name: string,
    professor: string,
    time: string)

  /** A timetable cell: (day code, period). */
  type Cell = (int, int)

  /** The slot covers the cell. */
  predicate Covers(t: TimeSlot, x: Cell) {
    x.0 == t.day && t.start <= x.1 <= t.end
  }

  /** The cells (day, h) for lo <= h < hi, in increasing period order. */
  function HourCells(day: int, lo: int, hi: int): (r: seq<Cell>)
    ensures |r| == if hi <= lo then 0 else hi - lo
    ensures forall k :: 0 <= k < |r| ==> r[k] == (day, lo + k)
    decreases hi - lo
  {
    if hi <= lo then [] else HourCells(day, lo, hi - 1) + [(day, hi - 1)]
  }

  /** The cells a slot occupies, in the order the source's period loop visits them. */
  function SlotCellList(t: TimeSlot): seq<Cell> {
    HourCells(t.day, t.start, t.end + 1)
  }

  /** The cells of a list of slots, slot by slot. */
  function TimesCellList(ts: seq<TimeSlot>): seq<Cell> {
    if |ts| == 0 then [] else TimesCellList(ts[..|ts| - 1]) + SlotCellList(ts[|ts| - 1])
  }

  function CourseCellList(c: Course): seq<Cell> {
    TimesCellList(c.times)
  }

  /** The cells of a schedule, course by course, repetitions kept. */
  function ScheduleCellList(s: seq<Course>): seq<Cell> {
    if |s| == 0 then [] else ScheduleCellList(s[..|s| - 1]) + CourseCellList(s[|s| - 1])
  }

  function CourseCells(c: Course): set<Cell> {
    Elems(CourseCellList(c))
  }

  /** The occupancy set of a schedule. */
  function ScheduleCells(s: seq<Course>): set<Cell> {
    Elems(ScheduleCellList(s))
  }

  lemma {:induction false} SlotCellsCovers(t: TimeSlot, x: Cell)
    ensures x in SlotCellList(t) <==> Covers(t, x)
  {
    var r := SlotCellList(t);
    if Covers(t, x) {
      assert r[x.1 - t.start] == x;
    }
  }

  /** A slot whose start lies after its end occupies nothing. */
  lemma InvertedSlotIsEmpty(t: TimeSlot)
    requires t.start > t.end
    ensures SlotCellList(t) == []
  {
  }

  lemma {:induction false} TimesCellsCover(ts: seq<TimeSlot>, x: Cell)
    ensures x in TimesCellList(ts) <==> exists j :: 0 <= j < |ts| && Covers(ts[j], x)
    decreases |ts|
  {
    if |ts| > 0 {
      var n := |ts| - 1;
      TimesCellsCover(ts[..n], x);
      SlotCellsCovers(ts[n], x);
      if x in TimesCellList(ts[..n]) {
        var j :| 0 <= j < n && Covers(ts[..n][j], x);
        assert ts[j] == ts[..n][j];
      }
      if exists j :: 0 <= j < |ts| && Covers(ts[j], x) {
        var j :| 0 <= j < |ts| && Covers(ts[j], x);
        if j < n { assert ts[..n][j] == ts[j]; }
      }
    }
  }

  /** A cell is occupied by a schedule exactly when some slot of some course covers it. */
  lemma {:induction false} ScheduleCellsCover(s: seq<Course>, x: Cell)
    ensures x in ScheduleCells(s) <==>
      exists i, j :: 0 <= i < |s| && 0 <= j < |s[i].times| && Covers(s[i].times[j], x)
    decreases |s|
  {
    if |s| > 0 {
      var n := |s| - 1;
      ScheduleCellsCover(s[..n], x);
      TimesCellsCover(s[n].times, x);
      ElemsAppend(ScheduleCellList(s[..n]), CourseCellList(s[n]));
      if x in ScheduleCells(s[..n]) {
        var i, j :| 0 <= i < n && 0 <= j < |s[..n][i].times| && Covers(s[..n][i].times[j], x);
        assert s[i] == s[..n][i];
      }
      if exists i, j :: 0 <= i < |s| && 0 <= j < |s[i].times| && Covers(s[i].times[j], x) {
        var i, j :| 0 <= i < |s| && 0 <= j < |s[i].times| && Covers(s[i].times[j], x);
        if i < n { assert s[..n][i] == s[i]; }
      }
    }
  }

  /** The cell list of a concatenation is the concatenation of the cell lists. */
  lemma {:induction false} ScheduleCellListAppend(a: seq<Course>, b: seq<Course>)
    ensures ScheduleCellList(a + b) == ScheduleCellList(a) + ScheduleCellList(b)
    decreases |b|
  {
    if |b| == 0 {
      assert a + b == a;
    } else {
      var n := |b| - 1;
      var ab := a + b;
      assert ab[..|ab| - 1] == a + b[..n];
      assert ab[|ab| - 1] == b[n];
      ScheduleCellListAppend(a, b[..n]);
      calc {
        ScheduleCellList(ab);
        ScheduleCellList(a + b[..n]) + CourseCellList(b[n]);
        ScheduleCellList(a) + ScheduleCellList(b[..n]) + CourseCellList(b[n]);
        ScheduleCellList(a) + (ScheduleCellList(b[..n]) + CourseCellList(b[n]));
      }
    }
  }

  /** Adding a course to a schedule adds exactly that course's cells. */
  lemma ScheduleCellsSnoc(s: seq<Course>, c: Course)
    ensures ScheduleCells(s + [c]) == ScheduleCells(s) + CourseCells(c)
  {
    assert (s + [c])[..|s|] == s;
    ElemsAppend(ScheduleCellList(s), CourseCellList(c));
  }

  lemma {:induction false} HourCellsPrefix(day: int, lo: int, a: int, b: int)
    requires a <= b
    ensures HourCells(day, lo, a) <= HourCells(day, lo, b)
    decreases b - a
  {
    if a < b {
      HourCellsPrefix(day, lo, a, b - 1);
    }
  }

  lemma {:induction false} TimesCellListPrefix(ts: seq<TimeSlot>, k: nat)
    requires k <= |ts|
    ensures TimesCellList(ts[..k]) <= TimesCellList(ts)
    decreases |ts| - k
  {
    if k < |ts| {
      TimesCellListPrefix(ts, k + 1);
      assert ts[..k + 1][..k] == ts[..k];
    } else {
      assert ts[..k] == ts;
    }
  }

  lemma {:induction false} ScheduleCellListPrefix(s: seq<Course>, k: nat)
    requires k <= |s|
    ensures ScheduleCellList(s[..k]) <= ScheduleCellList(s)
    decreases |s| - k
  {
    if k < |s| {
      ScheduleCellListPrefix(s, k + 1);
      assert s[..k + 1][..k] == s[..k];
    } else {
      assert s[..k] == s;
    }
  }
}
