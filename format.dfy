/** The text shapes the formatters of both programs share: one meeting time
    as "(label, Room, start-end)" and a course as a header followed by its
    times, in list order, joined by ", ". */
module Format {
  import opened Catalog
  import opened Text

  /** $"({label}, {Room}, {start}-{end})". */
  function SlotLine(name: string, t: TimeSlot): string
  {
    "(" + name + ", " + t.room + ", " + IntToString(t.start) + "-" + IntToString(t.end) + ")"
  }

  /** The rendered times of a course, in list order. */
  function TimesLines(ts: seq<TimeSlot>, slotText: TimeSlot -> string): seq<string>
  {
    seq(|ts|, k requires 0 <= k < |ts| => slotText(ts[k]))
  }

  /** $"{Name}({CourseID} | {ClassNumber}) - {Professor} [{times}]". */
  function BracketedCourse(c: Course, slotText: TimeSlot -> string): string
  {
    c.name + "(" + c.courseId + " | " + c.classNumber + ") - " + c.professor + " [" +
      Join(", ", TimesLines(c.times, slotText)) + "]"
  }

  /** $"{CourseID} {Name} ({Credit}학점) - {Professor} {times}". */
  function CreditCourse(c: Course, slotText: TimeSlot -> string): string
  {
    c.courseId + " " + c.name + " (" + IntToString(c.credit) + "학점) - " + c.professor + " " +
      Join(", ", TimesLines(c.times, slotText))
  }

  /** The label sits right after the opening parenthesis, so labels that
      differ in their first character give different lines. */
  lemma SlotLineLabel(name: string, t: TimeSlot, name': string, t': TimeSlot)
    ensures SlotLine(name, t)[0] == '(' && SlotLine(name, t)[1..1 + |name|] == name
    ensures SlotLine(name, t)[|SlotLine(name, t)| - 1] == ')'
    ensures |name| > 0 && |name'| > 0 && name[0] != name'[0] ==> SlotLine(name, t) != SlotLine(name', t')
  {
    var s := SlotLine(name, t);
    assert s == "(" + name + (", " + t.room + ", " + IntToString(t.start) + "-" + IntToString(t.end) + ")");
    if |name| > 0 && |name'| > 0 {
      assert s[1] == name[0];
      assert SlotLine(name', t')[1] == name'[0];
    }
  }

  /** Appending a time to a course appends its text to the joined times:
      the times appear in list order, separated by ", ". */
  lemma TimesLinesAppend(ts: seq<TimeSlot>, t: TimeSlot, slotText: TimeSlot -> string)
    ensures Join(", ", TimesLines(ts + [t], slotText)) ==
      if |ts| == 0 then slotText(t) else Join(", ", TimesLines(ts, slotText)) + ", " + slotText(t)
  {
    assert TimesLines(ts + [t], slotText) == TimesLines(ts, slotText) + [slotText(t)];
    JoinSnoc(", ", TimesLines(ts, slotText), slotText(t));
  }

  /** A bracketed course line is its header and "[]" when the course has no
      times, and each further time goes before the closing bracket, after a
      ", " unless it is the first. */
  lemma BracketedCourseAppend(c: Course, t: TimeSlot, slotText: TimeSlot -> string)
    ensures BracketedCourse(c.(times := []), slotText) ==
      c.name + "(" + c.courseId + " | " + c.classNumber + ") - " + c.professor + " []"
    ensures var line := BracketedCourse(c, slotText);
      BracketedCourse(c.(times := c.times + [t]), slotText) ==
        line[..|line| - 1] + (if |c.times| == 0 then "" else ", ") + slotText(t) + "]"
  {
    TimesLinesAppend(c.times, t, slotText);
    var head := c.name + "(" + c.courseId + " | " + c.classNumber + ") - " + c.professor + " [";
    var line := BracketedCourse(c, slotText);
    assert line == head + Join(", ", TimesLines(c.times, slotText)) + "]";
    assert line[..|line| - 1] == head + Join(", ", TimesLines(c.times, slotText));
  }

  /** A credit course line is its header when the course has no times, and
      each further time is appended after a ", " unless it is the first. */
  lemma CreditCourseAppend(c: Course, t: TimeSlot, slotText: TimeSlot -> string)
    ensures CreditCourse(c.(times := []), slotText) ==
      c.courseId + " " + c.name + " (" + IntToString(c.credit) + "학점) - " + c.professor + " "
    ensures CreditCourse(c.(times := c.times + [t]), slotText) ==
      CreditCourse(c, slotText) + (if |c.times| == 0 then "" else ", ") + slotText(t)
  {
    TimesLinesAppend(c.times, t, slotText);
  }

  /** Both course lines depend only on the fields they print: the grade, the
      division, the course number and the raw time string are not shown. */
  lemma CourseLinesFields(c: Course, c': Course, slotText: TimeSlot -> string)
    requires c.name == c'.name && c.courseId == c'.courseId && c.professor == c'.professor && c.times == c'.times
    ensures c.classNumber == c'.classNumber ==> BracketedCourse(c, slotText) == BracketedCourse(c', slotText)
    ensures c.credit == c'.credit ==> CreditCourse(c, slotText) == CreditCourse(c', slotText)
  {
  }
}
