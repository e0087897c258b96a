/** WebASMTimeTabler/Core/Course.cs: the web DayOfWeek codes (일 = 0,
    월 = 1, ..., 토 = 6, e러닝 = -1), CourseTime.ToString, Course.ToString and
    CourseComparer, which identifies courses by ClassNumber. */
module WebCourse {
  import opened Util
  import opened Catalog
  import opened Text
  import opened Format
  import ConProgram

  /** The name of the DayOfWeek member with code d, if there is one. */
  function WebDayName(d: int): Option<string>
  {
    match d
    case 1 => Some("월")
    case 2 => Some("화")
    case 3 => Some("수")
    case 4 => Some("목")
    case 5 => Some("금")
    case 6 => Some("토")
    case 0 => Some("일")
    case -1 => Some("e러닝")
    case _ => None
  }

  /** The label of CourseTime.ToString's switch, "알수없음" for undefined codes. */
  function DayLabel(d: int): string
  {
    match WebDayName(d)
    case Some(name) => name
    case None => "알수없음"
  }

  /** CourseTime.ToString: "(label, Room, start-end)". */
  function TimeToString(t: TimeSlot): string
  {
    SlotLine(DayLabel(t.day), t)
  }

  /** Course.ToString: "CourseID Name (Credit학점) - Professor " and the times. */
  function CourseToString(c: Course): string
  {
    CreditCourse(c, TimeToString)
  }

  /** CourseComparer.Equals; None stands for a null reference. */
  function CourseEquals(x: Option<Course>, y: Option<Course>): bool
  {
    if x.None? || y.None? then false else x.value.classNumber == y.value.classNumber
  }

  /** CourseComparer.GetHashCode, with the runtime's string hash as a parameter. */
  function CourseHash(c: Course, hash: string -> int): int
  {
    hash(c.classNumber)
  }

  /** The enum covers exactly -1..6 and distinct codes have distinct names. */
  lemma WebDayNames(d: int, d': int)
    ensures WebDayName(d).Some? <==> -1 <= d <= 6
    ensures WebDayName(d).Some? && WebDayName(d) == WebDayName(d') ==> d == d'
    ensures DayLabel(d) == "알수없음" <==> WebDayName(d).None?
  {
  }

  /** The web and console enums name the same days, the web codes shifted by
      one so that the week starts on Sunday: web code w is console code
      (w + 6) % 7, and e-learning is -1 in both. */
  lemma WebAndConsoleCodes(w: int)
    ensures 0 <= w <= 6 ==> WebDayName(w) == ConProgram.ConDayName((w + 6) % 7)
    ensures WebDayName(-1) == ConProgram.ConDayName(-1)
  {
  }

  /** Times on different defined codes render differently, and all undefined
      codes render alike. */
  lemma TimeToStringDays(t: TimeSlot, t': TimeSlot)
    ensures WebDayName(t.day).Some? && WebDayName(t'.day).Some? && t.day != t'.day ==>
      TimeToString(t) != TimeToString(t')
    ensures WebDayName(t.day).None? ==> TimeToString(t) == SlotLine("알수없음", t)
  {
    SlotLineLabel(DayLabel(t.day), t, DayLabel(t'.day), t');
  }

  /** Course.ToString appends the times in list order, separated by ", ". */
  lemma CourseToStringTimes(c: Course, t: TimeSlot)
    ensures CourseToString(c.(times := [])) ==
      c.courseId + " " + c.name + " (" + IntToString(c.credit) + "학점) - " + c.professor + " "
    ensures CourseToString(c.(times := c.times + [t])) ==
      CourseToString(c) + (if |c.times| == 0 then "" else ", ") + TimeToString(t)
  {
    CreditCourseAppend(c, t, TimeToString);
  }

  /** The comparer is false whenever either side is null (so it is not
      reflexive on null), is ClassNumber equality otherwise, and is therefore
      symmetric and transitive; equal courses hash equally. */
  lemma ComparerLaws(x: Option<Course>, y: Option<Course>, z: Option<Course>, hash: string -> int)
    ensures x.None? || y.None? ==> !CourseEquals(x, y)
    ensures x.Some? && y.Some? ==> (CourseEquals(x, y) <==> x.value.classNumber == y.value.classNumber)
    ensures CourseEquals(x, y) == CourseEquals(y, x)
    ensures CourseEquals(x, y) && CourseEquals(y, z) ==> CourseEquals(x, z)
    ensures CourseEquals(x, y) ==> CourseHash(x.value, hash) == CourseHash(y.value, hash)
  {
  }
}
