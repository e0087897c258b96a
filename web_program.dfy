/** The formatters of WebASMTimeTabler/Core/Program.cs. Its DayOfWeek enum
    has the codes of WebASMTimeTabler/Core/Course.cs; its ScheduleGenerator
    is the one modelled in the Generator module. */
module WebProgram {
  import opened Util
  import opened Catalog
  import opened Text
  import opened Format
  import opened WebCourse

  /** Course.DayToString and Program.DayToString: the enum name, "?" for any
      other code. */
  function DayToString(d: int): string
  {
    match WebDayName(d)
    case Some(name) => name
    case None => "?"
  }

  /** How string interpolation prints an enum value: the member name, or the
      number for a code without a member. */
  function EnumName(d: int): string
  {
    match WebDayName(d)
    case Some(name) => name
    case None => IntToString(d)
  }

  /** CourseTime.ToString: $"({day}, {Room}, {start}-{end})". */
  function TimeToString(t: TimeSlot): string
  {
    SlotLine(EnumName(t.day), t)
  }

  /** The slot text inside Course.ToString. */
  function SlotToString(t: TimeSlot): string
  {
    SlotLine(DayToString(t.day), t)
  }

  /** Course.ToString: "Name(CourseID | ClassNumber) - Professor [slot, slot, ...]". */
  function CourseToString(c: Course): string
  {
    BracketedCourse(c, SlotToString)
  }

  /** Interpolating the enum loses nothing: distinct codes print differently,
      member names never look like numbers. */
  lemma EnumNameInjective(d: int, d': int)
    ensures EnumName(d) == EnumName(d') <==> d == d'
  {
    if WebDayName(d).None? && WebDayName(d').None? {
      IntToStringInjective(d, d');
    } else if WebDayName(d).None? || WebDayName(d').None? {
      IntToStringHead(d);
      IntToStringHead(d');
      assert EnumName(d)[0] != EnumName(d')[0];
    }
  }

  /** DayToString agrees with the enum name exactly on the defined codes
      and prints "?" for the others. */
  lemma DayToStringCodes(d: int)
    ensures DayToString(d) == EnumName(d) <==> -1 <= d <= 6
    ensures DayToString(d) == "?" <==> WebDayName(d).None?
  {
    if WebDayName(d).None? {
      IntToStringHead(d);
    }
  }

  /** Slots on different defined codes render differently; every undefined
      code renders as "?". */
  lemma SlotToStringDays(t: TimeSlot, t': TimeSlot)
    ensures WebDayName(t.day).Some? && WebDayName(t'.day).Some? && t.day != t'.day ==>
      SlotToString(t) != SlotToString(t')
    ensures WebDayName(t.day).None? ==> SlotToString(t) == SlotLine("?", t)
  {
    SlotLineLabel(DayToString(t.day), t, DayToString(t'.day), t');
  }

  /** Course.ToString lists the times in order inside the brackets. */
  lemma CourseToStringTimes(c: Course, t: TimeSlot)
    ensures CourseToString(c.(times := [])) ==
      c.name + "(" + c.courseId + " | " + c.classNumber + ") - " + c.professor + " []"
    ensures var line := CourseToString(c);
      CourseToString(c.(times := c.times + [t])) ==
        line[..|line| - 1] + (if |c.times| == 0 then "" else ", ") + SlotToString(t) + "]"
  {
    BracketedCourseAppend(c, t, SlotToString);
  }
}
