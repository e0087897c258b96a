/** WebASMTimeTabler/Models/Course.cs: CourseTime.ToString reads the day code
    through a seven-entry table that starts on Monday, prints e-learning as
    the bare "(e러닝)", and shares Course.ToString's format and the comparer
    with WebASMTimeTabler/Core/Course.cs. */
module WebModels {
  import opened Util
  import opened Catalog
  import opened Text
  import opened Format
  import ConProgram
  import WebCourse
  import DataReader

  /** The koreanDays table: index 0 is 월. */
  const KoreanDays: seq<string> := ["월", "화", "수", "목", "금", "토", "일"]

  /** The label of a code other than -1. */
  function DayLabel(d: int): string
  {
    if 0 <= d <= 6 then KoreanDays[d] else "알수없음"
  }

  /** CourseTime.ToString. */
  function TimeToString(t: TimeSlot): string
  {
    if t.day == -1 then "(e러닝)" else SlotLine(DayLabel(t.day), t)
  }

  /** Course.ToString: "CourseID Name (Credit학점) - Professor " and the times. */
  function CourseToString(c: Course): string
  {
    CreditCourse(c, TimeToString)
  }

  /** Exactly the code -1 renders as "(e러닝)", whatever the room and hours;
      codes 0..6 show koreanDays[code] and others "알수없음". */
  lemma TimeToStringCases(t: TimeSlot)
    ensures TimeToString(t) == "(e러닝)" <==> t.day == -1
    ensures 0 <= t.day <= 6 ==> TimeToString(t) == SlotLine(KoreanDays[t.day], t)
    ensures t.day != -1 && !(0 <= t.day <= 6) ==> TimeToString(t) == SlotLine("알수없음", t)
  {
    if t.day != -1 {
      IntToStringHead(t.start);
      IntToStringHead(t.end);
      assert |TimeToString(t)| >= 10;
    }
  }

  /** The table follows the console numbering (0 = 월), while the web enum
      and Core's CourseTime.ToString put 월 at 1: the same code names
      different days in the two web renderings. */
  lemma ModelsUseConsoleNumbering(d: int)
    ensures 0 <= d <= 6 ==> DayLabel(d) == ConProgram.DayToString(d)
    ensures 0 <= d <= 6 ==> DayLabel(d) == WebCourse.DayLabel((d + 1) % 7)
    ensures 1 <= d <= 6 ==> DayLabel(d) != WebCourse.DayLabel(d)
  {
  }

  /** The entry the time-string parser makes of "(e러닝)" renders back as
      that very input. */
  lemma ELearningRoundTrip()
    ensures DataReader.TimesValue(DataReader.ELearningInput).Success?
    ensures |DataReader.TimesValue(DataReader.ELearningInput).value| == 1
    ensures TimeToString(DataReader.TimesValue(DataReader.ELearningInput).value[0]) == DataReader.ELearningInput
  {
  }

  /** Course.ToString appends the times in list order, separated by ", ". */
  lemma CourseToStringTimes(c: Course, t: TimeSlot)
    ensures CourseToString(c.(times := [])) ==
      c.courseId + " " + c.name + " (" + IntToString(c.credit) + "학점) - " + c.professor + " "
    ensures CourseToString(c.(times := c.times + [t])) ==
      CourseToString(c) + (if |c.times| == 0 then "" else ", ") + TimeToString(t)
  {
    CreditCourseAppend(c, t, TimeToString);
  }
}
