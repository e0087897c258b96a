# AutoTimeTableMaker timetable search, modelled in Dafny

AutoTimeTableMaker builds university timetables. A student picks course
sections. The sections are grouped by course name, and the program walks
the Cartesian product of the groups in mixed-radix ("odometer") order. It
keeps the combinations that pass its filters.

The search exists in three copies, and all three are modelled here:

- `ScheduleGenerator.Generate` in `WebASMTimeTabler/Core/ScheduleService.cs`.
  It runs realtime filters course by course, against the cells the
  earlier picks occupy. Its duplicate in `WebASMTimeTabler/Core/Program.cs`
  is the same code, so one model serves both.
- `ScheduleService.GenerateSchedules`. It groups the input by name, applies
  final filters and caps the number of results.
- The console program's filter-free `GenerateSchedulesIterative`. It keeps
  the combinations that `IsValidSchedule` finds free of time conflicts.

Around the search the model covers the schedule filters and the
time-string parser `GetTimesValue`. It also covers the day-code tables and
`ToString` formatters of both programs, the ClassNumber comparer, and the
toggle set of selected courses.

Modules, one per source file, plus shared ones:

- `Util`: Option, Result, duplicate-freedom.
- `Catalog`: courses, slots and the cells `(day, period)` they occupy.
- `Odometer`: ranks and unranks index tuples, the carry step, and the
  reference definition of a filtered product (`KeptTuples`).
- `Generator` and `Service`: WebASMTimeTabler/Core/ScheduleService.cs.
- `ConProgram`: ConTimeTabler/Program.cs.
- `Filters`: ConTimeTabler/Filter.cs.
- `DataReader`: ConTimeTabler/DataReader.cs.
- `Text`: the .NET string operations used (`Join`, `Split`, int rendering).
- `Format`: the text shapes the formatters share.
- `WebCourse`: WebASMTimeTabler/Core/Course.cs.
- `WebModels`: WebASMTimeTabler/Models/Course.cs.
- `WebProgram`: the formatters of WebASMTimeTabler/Core/Program.cs.
- `ScheduleState`: WebASMTimeTabler/Core/ScheduleStateService.cs.

Where the code works step by step, the model is imperative too:

- `Generate`, `GenerateSchedulesIterative`, `IsValidSchedule`, the odometer
  advance, `GetTimesValue` and the capped result loop are methods with
  loops.
- The `idx` array is an `array<nat>`.
- Each method is proved equal to a specification function.
- The state service is a class whose method updates a `set<Course>` field.

Day codes are plain ints, in three numberings:

- Console (`ConTimeTabler`): 월 = 0 … 일 = 6, e러닝 = -1.
- Web enum (`WebASMTimeTabler`): 일 = 0, 월 = 1 … 토 = 6, e러닝 = -1.
- `Models/Course.cs` reads the code through a seven-entry table that starts
  at 월, i.e. in the console numbering, although its field is typed by a
  DayOfWeek enum that puts 월 at 1. `WebModels.ModelsUseConsoleNumbering`
  states the consequence: codes 1..6 get a different label there than in
  `Core/Course.cs`.

Remarks on the source:

- `WebASMTimeTabler/Core/Program.cs:74-139` is a verbatim copy of
  `ScheduleService.cs:20-85`. `Generator.Generate` models both, and
  `Generator.SearchStep` is cited at the copy.
- `WebASMTimeTabler/Models/Course.cs:49-60` is textually the same comparer
  as `Core/Course.cs:56-68`. `WebCourse.CourseEquals` and
  `WebCourse.CourseHash` model both.
- The copy of the carry loop in `Program.cs:115-131` has the same
  bookkeeping as the other copy. `Odometer.Advance` models that loop.
- The course line is written twice in each program: the credit line in
  `Core/Course.cs:50-53` and `Models/Course.cs:43-46`, the bracketed line
  in `ConTimeTabler/Program.cs:46-49` and `Core/Program.cs:58-61`. The
  shapes are defined once in `Format`, and each formatter's
  `CourseToStringTimes` lemma repeats the shared statement for its own
  day labels.

## Model

| member | source | states |
|---|---|---|
| Catalog.HourCells | ConTimeTabler/Program.cs:165-172 | the period loop visits exactly hi - lo cells, (day, lo + k) at step k, and none when hi <= lo |
| Catalog.SlotCellsCovers | ConTimeTabler/Program.cs:163-173 | a cell is in a slot's list iff it is on the slot's day with start <= h <= end |
| Catalog.InvertedSlotIsEmpty | ConTimeTabler/Program.cs:165 | a slot with start > end contributes no cell |
| Catalog.TimesCellsCover | WebASMTimeTabler/Core/ScheduleService.cs:52-54 | a cell is marked by a course iff one of its slots covers it |
| Catalog.ScheduleCellsCover | WebASMTimeTabler/Core/ScheduleService.cs:35-55 | a cell is occupied by a schedule iff some slot of some course covers it |
| Catalog.ScheduleCellListAppend | ConTimeTabler/Program.cs:161-175 | the cells of a concatenation are the cells of the parts, in order |
| Catalog.ScheduleCellsSnoc | WebASMTimeTabler/Core/ScheduleService.cs:51-54 | adding a course adds exactly its cells to the occupancy set |
| Odometer.Rank | WebASMTimeTabler/Core/ScheduleService.cs:60-77 | every index tuple has a position below the product of the group sizes |
| Odometer.ZerosRank | WebASMTimeTabler/Core/ScheduleService.cs:25 | the all-zero start tuple is valid and is visited first |
| Odometer.NextRank | WebASMTimeTabler/Core/Program.cs:115-131 | the carry step moves to the tuple of the next rank, and ends iff the tuple was the last |
| Odometer.NextRankLast | WebASMTimeTabler/Core/Program.cs:118-119 | incrementing a last digit that does not overflow moves to the next rank, which is not the last |
| Odometer.NextRankCarry | WebASMTimeTabler/Core/Program.cs:118-131 | an overflowing last digit passes the step on to the digits before it, and the step ends iff the tuple was the last |
| Odometer.CarryNext | WebASMTimeTabler/Core/Program.cs:118-129 | an overflow resets the last digit to 0 and steps the digits before it |
| Odometer.CarryAppend | WebASMTimeTabler/Core/Program.cs:116-129 | a carry confined to the first digits leaves the digits after them untouched |
| Odometer.Unrank | ConTimeTabler/Program.cs:143-152 | stepping r times from zero gives the tuple of rank r |
| Odometer.NextUnrank | ConTimeTabler/Program.cs:144-152 | stepping the tuple of rank r gives the tuple of rank r + 1, or stops after the last |
| Odometer.LexTrichotomy | WebASMTimeTabler/Core/ScheduleService.cs:60-77 | two distinct tuples of one length are ordered one way or the other |
| Odometer.LexRank | WebASMTimeTabler/Core/ScheduleService.cs:61-75 | a lexicographically smaller tuple is visited earlier |
| Odometer.RankIsLex | WebASMTimeTabler/Core/ScheduleService.cs:61-75 | visiting order is strictly increasing lexicographic order, last index fastest |
| Odometer.RankInjective | WebASMTimeTabler/Core/ScheduleService.cs:60-77 | no tuple is visited twice |
| Odometer.UnrankRank | WebASMTimeTabler/Core/ScheduleService.cs:60-77 | every tuple of the product is visited |
| Odometer.Pick | WebASMTimeTabler/Core/ScheduleService.cs:35-37 | a tuple picks one course per group |
| Odometer.PicksAt | WebASMTimeTabler/Core/ScheduleService.cs:57-58 | the k-th yielded schedule is the pick of the k-th kept tuple |
| Odometer.KeptTuples | WebASMTimeTabler/Core/ScheduleService.cs:28-84 | reference definition of the filtered product: valid tuples, no more than the tuples tried |
| Odometer.KeptPicksAreKeptTuples | WebASMTimeTabler/Core/ScheduleService.cs:57-58 | the schedules built while searching are the picks of the kept tuples |
| Odometer.KeptTuplesSound | WebASMTimeTabler/Core/ScheduleService.cs:57-58 | a kept tuple was tried and its pick is accepted |
| Odometer.PicksKeptStep | WebASMTimeTabler/Core/ScheduleService.cs:57-58 | one more attempt appends the current pick exactly when it is accepted |
| Odometer.KeptTuplesComplete | WebASMTimeTabler/Core/ScheduleService.cs:28-84 | a tuple is kept iff it was tried and its pick is accepted |
| Odometer.KeptTuplesSorted | WebASMTimeTabler/Core/ScheduleService.cs:60-77 | kept tuples come in strictly increasing lexicographic order |
| Odometer.KeptTuplesAll | WebASMTimeTabler/Core/ScheduleService.cs:57-58 | when every pick is accepted, every tuple tried is kept |
| Odometer.KeptPicksMembers | WebASMTimeTabler/Core/ScheduleService.cs:28-84 | a schedule is among the kept picks iff it is the pick of some valid tuple and is accepted |
| Odometer.KeptPicksSound | WebASMTimeTabler/Core/ScheduleService.cs:57-58 | every kept pick is the pick of a valid tuple and is accepted |
| Odometer.KeptPicksComplete | WebASMTimeTabler/Core/ScheduleService.cs:28-84 | the pick of every valid accepted tuple is kept |
| Odometer.Advance | WebASMTimeTabler/Core/Program.cs:115-131 | the carry loop on idx: increments, resets overflowed digits to 0, and reports the end exactly when the carry passes index 0, leaving every digit 0 |
| Generator.RealtimeOkSnoc | WebASMTimeTabler/Core/ScheduleService.cs:35-55 | a schedule extended by a course passes iff the prefix passes and every filter accepts the course against the prefix's cells only |
| Generator.RealtimeOkPrefix | WebASMTimeTabler/Core/ScheduleService.cs:49 | passing the realtime filters is prefix-closed |
| Generator.RejectedPrefix | WebASMTimeTabler/Core/ScheduleService.cs:40-49 | a course rejected after an accepted prefix rejects the whole pick |
| Generator.AcceptedPrefix | WebASMTimeTabler/Core/ScheduleService.cs:51-54 | an accepted course extends the accepted prefix and adds exactly its cells |
| Generator.NoFiltersYieldProduct | WebASMTimeTabler/Core/ScheduleService.cs:40-58 | with no filters the output length equals the product of the group sizes |
| Generator.GeneratedIsFilteredProduct | WebASMTimeTabler/Core/ScheduleService.cs:28-84 | the output is the picks of the kept tuples; a tuple is kept iff its pick passes; kept tuples are lexicographically increasing |
| Generator.GeneratedMembers | WebASMTimeTabler/Core/ScheduleService.cs:31-58 | a schedule is yielded iff it picks one course per group and passes the realtime filters |
| Generator.GeneratedShape | WebASMTimeTabler/Core/ScheduleService.cs:35-58 | every yielded schedule has n courses, the i-th from group i |
| Generator.PassesFilters | WebASMTimeTabler/Core/ScheduleService.cs:40-47 | the filters run in order and stop at the first rejection; the result says whether all accept |
| Generator.Occupy | WebASMTimeTabler/Core/ScheduleService.cs:52-54 | marking a course adds exactly its cells (day, h), start <= h <= end |
| Generator.Attempt | WebASMTimeTabler/Core/ScheduleService.cs:30-55 | one attempt is valid iff the pick passes the filters, and then yields exactly the pick |
| Generator.SearchStep | WebASMTimeTabler/Core/Program.cs:84-131 | one round yields the current pick when accepted and moves idx to the next rank, or ends after the last |
| Generator.Generate | WebASMTimeTabler/Core/ScheduleService.cs:20-85 | nothing for zero groups; otherwise exactly the accepted picks of the product in odometer order, after product-many attempts |
| Service.GroupByName | WebASMTimeTabler/Core/ScheduleService.cs:111-113 | definition: one group per distinct name, in order of first appearance, holding that name's courses in input order (properties in the Names*, WithName* and Groups* lemmas) |
| Service.NamesComplete | WebASMTimeTabler/Core/ScheduleService.cs:111 | every name that occurs in the input gets a group, and only those |
| Service.NamesDistinct | WebASMTimeTabler/Core/ScheduleService.cs:111 | no name gets two groups |
| Service.NamesFirstSeen | WebASMTimeTabler/Core/ScheduleService.cs:111-113 | groups appear in order of first appearance of their name |
| Service.WithNameCount | WebASMTimeTabler/Core/ScheduleService.cs:111-112 | a group holds exactly the input courses of its name, with their multiplicity |
| Service.WithNameNonEmpty | WebASMTimeTabler/Core/ScheduleService.cs:111-112 | the group of an occurring name is non-empty |
| Service.GroupsWellFormed | WebASMTimeTabler/Core/ScheduleService.cs:111-113 | one group per name, each non-empty and of a single name |
| Service.GroupsPositive | WebASMTimeTabler/Core/ScheduleService.cs:126 | the groups are a valid input for the generator |
| Service.FlattenCount | WebASMTimeTabler/Core/ScheduleService.cs:111-113 | in groups of distinct names, a course occurs as often as in the group of its name |
| Service.GroupsPartition | WebASMTimeTabler/Core/ScheduleService.cs:111-113 | every input course lands in exactly one group, as often as it occurs |
| Service.FinalAcceptedSound | WebASMTimeTabler/Core/ScheduleService.cs:132-133 | a schedule survives final filtering iff it was generated and every final filter accepts it |
| Service.FinalAcceptedPrefix | WebASMTimeTabler/Core/ScheduleService.cs:130-135 | filtering keeps generator order |
| Service.NoFinalsAcceptAll | WebASMTimeTabler/Core/ScheduleService.cs:132 | with no final filters nothing is skipped |
| Service.CappedBounds | WebASMTimeTabler/Core/ScheduleService.cs:137-138 | the result is a prefix of the accepted schedules; all of them when fewer than the cap; at most maxPages when maxPages >= 1 |
| Service.DefaultCapBounds | WebASMTimeTabler/Core/ScheduleService.cs:92-95 | under the default cap of 50, min(50, number of finally accepted schedules) come back |
| Service.ScheduledSound | WebASMTimeTabler/Core/ScheduleService.cs:111-140 | each returned schedule passes both filter stages and takes one input section per course name, in name order |
| Service.TakeAccepted | WebASMTimeTabler/Core/ScheduleService.cs:130-139 | the loop returns the longest prefix of accepted schedules that stops at the cap-th one |
| Service.GenerateSchedules | WebASMTimeTabler/Core/ScheduleService.cs:96-141 | null or empty input gives an empty list; a negative cap is an error; otherwise the capped, final-filtered output of the generator over the name groups |
| ConProgram.MarkSlot | ConTimeTabler/Program.cs:165-173 | the period loop succeeds iff no cell of the slot is already marked or repeated, and then marks exactly those cells |
| ConProgram.MarkCourse | ConTimeTabler/Program.cs:163-174 | the slot loop succeeds iff the course's cells are new and distinct, and then marks them |
| ConProgram.IsValidSchedule | ConTimeTabler/Program.cs:157-177 | true iff no cell occurs twice across all slots of all courses, a course's own slots included |
| ConProgram.ConflictFreeSnoc | ConTimeTabler/Program.cs:161-176 | a schedule plus a course is valid iff both are valid and they share no cell |
| ConProgram.ConflictFreeInvertedSlot | ConTimeTabler/Program.cs:159-165 | the empty schedule is valid, and a slot with start > end never matters |
| ConProgram.ConflictFreePrefix | ConTimeTabler/Program.cs:161-176 | every prefix of a valid schedule is valid |
| ConProgram.CellsInsert | ConTimeTabler/Program.cs:161-175 | the cells of a schedule do not depend on where a course sits in it |
| ConProgram.CellsOfPermutation | ConTimeTabler/Program.cs:161-175 | reordered schedules occupy the same cells, with the same multiplicities |
| ConProgram.ConflictFreePermutation | ConTimeTabler/Program.cs:161-176 | validity does not depend on course order |
| ConProgram.Combination | ConTimeTabler/Program.cs:133-137 | the combination holds group i's idx[i]-th course at position i |
| ConProgram.IterativeStep | ConTimeTabler/Program.cs:139-152 | one round yields the combination when valid and advances idx, or ends after the last tuple |
| ConProgram.GenerateSchedulesIterative | ConTimeTabler/Program.cs:124-154 | nothing for zero groups; otherwise exactly the conflict-free combinations of the product in odometer order |
| ConProgram.IterativeIsValidProduct | ConTimeTabler/Program.cs:131-153 | a combination is yielded iff it is a pick of the product and conflict-free; yielded tuples are lexicographically increasing |
| ConProgram.IterativeAllValid | ConTimeTabler/Program.cs:140-141 | when no combination conflicts, all product-many are yielded |
| ConProgram.ConDayNames | ConTimeTabler/Program.cs:179-190 | the enum covers exactly -1..6 with distinct names; DayToString gives "?" exactly off it; Course.DayToString differs only at e러닝 |
| ConProgram.DayToString | ConTimeTabler/Program.cs:179-190 | definition: the console enum's name on -1..6, "?" elsewhere (properties in ConDayNames) |
| ConProgram.SlotToStringDays | ConTimeTabler/Program.cs:35-49 | slots on weekdays 0..6 show 월..일; different weekdays render differently; e-learning renders like an undefined code |
| ConProgram.CourseToString | ConTimeTabler/Program.cs:46-49 | definition: the bracketed course line over SlotToString (properties in CourseToStringTimes) |
| ConProgram.CourseToStringTimes | ConTimeTabler/Program.cs:46-49 | the header and "[]" without times; each further time goes before "]", after ", " unless first |
| Filters.LunchBreakApply | ConTimeTabler/Filter.cs:17-20 | definition: accepts a schedule iff no slot of any course starts before period 13 and ends after period 12 (properties in FiltersDistribute, OverLunchCells) |
| Filters.NoFridayApply | ConTimeTabler/Filter.cs:26-29 | definition: accepts a schedule iff no slot of any course is on day 4 (properties in FiltersDistribute, NoFridayCells) |
| Filters.AnySlotAppend | ConTimeTabler/Filter.cs:19 | the nested Any over a concatenation holds iff it holds on a part |
| Filters.FiltersDistribute | ConTimeTabler/Filter.cs:17-29 | both filters accept the empty schedule and accept a concatenation iff they accept both parts |
| Filters.OverLunchCells | ConTimeTabler/Filter.cs:19 | a slot is over lunch iff it covers both periods 12 and 13 of its day |
| Filters.NoFridayCells | ConTimeTabler/Filter.cs:28 | an accepted schedule occupies no Friday cell; an empty Friday slot is still rejected |
| DataReader.DayStringToInt | ConTimeTabler/DataReader.cs:82-90 | definition: 월..금 map to 0..4, anything else to -1 (properties in DayStringRoundTrip) |
| DataReader.DayStringRoundTrip | ConTimeTabler/DataReader.cs:82-90 | 월..금 parse to 0..4; every other console label parses to -1 |
| DataReader.DigitRun | ConTimeTabler/DataReader.cs:68 | the greedy \d+ takes the maximal run of digits |
| DataReader.CloseParen | ConTimeTabler/DataReader.cs:68 | the lazy (.+?)\) stops at the first ')' unless a line break comes first |
| DataReader.MatchAt | ConTimeTabler/DataReader.cs:68-70 | a match has a weekday character and two digit groups |
| DataReader.MatchAtShape | ConTimeTabler/DataReader.cs:68-70 | a match has a weekday character, two non-empty digit runs and a non-empty room without line breaks and without ')' after its first character |
| DataReader.MatchAfterDashRoom | ConTimeTabler/DataReader.cs:68 | the room group is non-empty, has no line break and no ')' after its first character |
| DataReader.MatchAfterDay | ConTimeTabler/DataReader.cs:68 | the day group is the character at the start and the first group is the digits between it and '-' |
| DataReader.MatchAfterDash | ConTimeTabler/DataReader.cs:68 | the second group is the digits between '-' and '(' |
| DataReader.MatchAtParts | ConTimeTabler/DataReader.cs:68-75 | the groups are the text between the delimiters |
| DataReader.MatchAtText | ConTimeTabler/DataReader.cs:68-75 | the match spells out the text from its day character to its closing parenthesis |
| DataReader.FindMatchNone | ConTimeTabler/DataReader.cs:70-71 | no match iff the pattern matches at no position |
| DataReader.FindMatchLeftmost | ConTimeTabler/DataReader.cs:70 | when q is the first position where the pattern matches, the match found is the one at q |
| DataReader.FindMatchShape | ConTimeTabler/DataReader.cs:72-74 | a found match has digit groups and a weekday character |
| DataReader.SlotsOfFailure | ConTimeTabler/DataReader.cs:73-74 | an overflow in any piece aborts the whole parse |
| DataReader.TimesValue | ConTimeTabler/DataReader.cs:55-81 | reference definition of the parse: "(e러닝)" gives its one entry, anything else the entries of the comma pieces in order, an overflow failing the whole parse (properties in TimesValueShape, TimesTextRoundTrip, SlotsOfFailure) |
| DataReader.GetTimesValue | ConTimeTabler/DataReader.cs:55-81 | the loop computes the parse of the whole string, including the e-learning case and a parse overflow |
| DataReader.TimesValueShape | ConTimeTabler/DataReader.cs:58-80 | "(e러닝)" yields (-1, "e러닝", 0, 0); anything else yields at most one entry per piece, each on day 0..4 |
| DataReader.SlotsOfShape | ConTimeTabler/DataReader.cs:67-80 | entries come from pieces; each has day 0..4 |
| DataReader.DigitRunAt | ConTimeTabler/DataReader.cs:68 | a digit run followed by a non-digit is read whole |
| DataReader.CloseParenAt | ConTimeTabler/DataReader.cs:68 | the room ends at the first ')' when no line break precedes it |
| DataReader.MatchOfParts | ConTimeTabler/DataReader.cs:68-75 | the pattern matches the text of its own groups and returns those groups |
| DataReader.SlotTextMatches | ConTimeTabler/DataReader.cs:70-76 | a slot's catalogue text is matched and converted back to the slot |
| DataReader.SlotOfSlotMatch | ConTimeTabler/DataReader.cs:72-76 | converting the groups of a slot's text gives back the slot |
| DataReader.SlotsOfTexts | ConTimeTabler/DataReader.cs:69-79 | pieces of slot texts convert to those slots, in order |
| DataReader.TimesTextRoundTrip | ConTimeTabler/DataReader.cs:67-80 | parsing the comma-joined text of writable slots gives back exactly those slots |
| DataReader.TimesValueExamples | ConTimeTabler/DataReader.cs:67-80 | "" parses to [] and "월1-2(A101),수3-4(B202)" to [(0,"A101",1,2),(2,"B202",3,4)] |
| Text.JoinSnoc | WebASMTimeTabler/Core/Course.cs:52 | joining one more part adds the separator and the part |
| Text.Split | ConTimeTabler/DataReader.cs:67 | Split always yields at least one piece |
| Text.SplitPiecesFree | ConTimeTabler/DataReader.cs:67 | no piece contains the separator |
| Text.JoinSplit | ConTimeTabler/DataReader.cs:67 | joining the pieces with the separator restores the string |
| Text.SplitJoin | ConTimeTabler/DataReader.cs:67 | splitting a join of separator-free pieces restores the pieces |
| Text.SplitFree | ConTimeTabler/DataReader.cs:67 | a string without the separator is one piece |
| Text.SplitCons | ConTimeTabler/DataReader.cs:67 | a separator-free head before the separator is the first piece |
| Text.DigitChar | WebASMTimeTabler/Core/Course.cs:35 | a digit's character reads back as the digit |
| Text.NatToString | WebASMTimeTabler/Core/Course.cs:35 | a rendered number is a non-empty digit run |
| Text.NatToStringValue | ConTimeTabler/DataReader.cs:73-74 | reading a rendered number gives the number back |
| Text.IntToStringHead | WebASMTimeTabler/Core/Program.cs:30 | a rendered int starts with '-' (exactly when negative) or a digit |
| Text.IntToStringValue | WebASMTimeTabler/Core/Course.cs:35 | reading a rendered int gives the int back |
| Text.IntToStringInjective | WebASMTimeTabler/Core/Course.cs:35 | distinct ints render differently |
| Format.SlotLineLabel | WebASMTimeTabler/Core/Course.cs:35 | the label follows "(" directly, so labels with different first characters render differently |
| Format.TimesLinesAppend | WebASMTimeTabler/Core/Course.cs:52 | times appear in list order, separated by ", " |
| Format.BracketedCourseAppend | WebASMTimeTabler/Core/Program.cs:58-61 | the bracketed course line grows by one time before "]" per appended time |
| Format.CreditCourseAppend | WebASMTimeTabler/Models/Course.cs:43-46 | the credit course line grows by one time at its end per appended time |
| Format.CourseLinesFields | WebASMTimeTabler/Core/Course.cs:50-53 | the course lines depend only on the fields they print |
| WebCourse.WebDayNames | WebASMTimeTabler/Core/Course.cs:3-13 | the enum covers exactly -1..6 with distinct names; "알수없음" exactly off it |
| WebCourse.WebAndConsoleCodes | WebASMTimeTabler/Core/Program.cs:10-20 | web code w names the day of console code (w + 6) % 7; e러닝 is -1 in both |
| WebCourse.TimeToString | WebASMTimeTabler/Core/Course.cs:21-36 | definition: "(label, Room, start-end)" with the web enum's label, "알수없음" off it (properties in TimeToStringDays) |
| WebCourse.TimeToStringDays | WebASMTimeTabler/Core/Course.cs:21-36 | defined codes render differently from each other; undefined codes render with "알수없음" |
| WebCourse.CourseToString | WebASMTimeTabler/Core/Course.cs:50-53 | definition: the credit course line over TimeToString (properties in CourseToStringTimes) |
| WebCourse.CourseToStringTimes | WebASMTimeTabler/Core/Course.cs:50-53 | the header "CourseID Name (Credit학점) - Professor " followed by the times in order, joined by ", " |
| WebCourse.CourseEquals | WebASMTimeTabler/Core/Course.cs:58-63 | definition: false when either side is null, otherwise ClassNumber equality (properties in ComparerLaws) |
| WebCourse.CourseHash | WebASMTimeTabler/Core/Course.cs:64-67 | definition: the hash of the ClassNumber (properties in ComparerLaws) |
| WebCourse.ComparerLaws | WebASMTimeTabler/Core/Course.cs:56-68 | false when either side is null; otherwise ClassNumber equality; symmetric, transitive; equal courses hash equally |
| WebModels.TimeToString | WebASMTimeTabler/Models/Course.cs:10-29 | definition: "(e러닝)" for -1, otherwise "(label, Room, start-end)" with the koreanDays label (properties in TimeToStringCases, ModelsUseConsoleNumbering) |
| WebModels.TimeToStringCases | WebASMTimeTabler/Models/Course.cs:10-29 | exactly code -1 renders as "(e러닝)", whatever the room and hours; 0..6 use koreanDays[code]; others "알수없음" |
| WebModels.ModelsUseConsoleNumbering | WebASMTimeTabler/Models/Course.cs:12-23 | the table reads codes in the console numbering, so codes 1..6 are labelled differently from Core/Course.cs |
| WebModels.ELearningRoundTrip | WebASMTimeTabler/Models/Course.cs:15-18 | the parser's e-learning entry renders back as "(e러닝)" |
| WebModels.CourseToString | WebASMTimeTabler/Models/Course.cs:43-46 | definition: the credit course line over this file's TimeToString (properties in CourseToStringTimes) |
| WebModels.CourseToStringTimes | WebASMTimeTabler/Models/Course.cs:43-46 | the header followed by the times in order, joined by ", " |
| WebProgram.EnumNameInjective | WebASMTimeTabler/Core/Program.cs:28-31 | interpolating the day prints distinct codes differently, defined or not |
| WebProgram.DayToString | WebASMTimeTabler/Core/Program.cs:226-237 | definition: the web enum's name on -1..6, "?" elsewhere (properties in DayToStringCodes) |
| WebProgram.TimeToString | WebASMTimeTabler/Core/Program.cs:28-31 | definition: "(day, Room, start-end)" with the day printed as its enum name or number (properties in EnumNameInjective) |
| WebProgram.DayToStringCodes | WebASMTimeTabler/Core/Program.cs:226-237 | DayToString agrees with the enum name exactly on -1..6 and gives "?" elsewhere |
| WebProgram.SlotToStringDays | WebASMTimeTabler/Core/Program.cs:46-57 | defined codes render differently; every undefined code renders as "?" |
| WebProgram.CourseToString | WebASMTimeTabler/Core/Program.cs:58-61 | definition: the bracketed course line over SlotToString (properties in CourseToStringTimes) |
| WebProgram.CourseToStringTimes | WebASMTimeTabler/Core/Program.cs:58-61 | the name, then CourseID and ClassNumber in parentheses, the professor, and the times in order inside brackets, joined by ", " |
| ScheduleState.ScheduleStateService.constructor | WebASMTimeTabler/Core/ScheduleStateService.cs:5 | the selection starts empty |
| ScheduleState.ScheduleStateService.ToggleCourse | WebASMTimeTabler/Core/ScheduleStateService.cs:7-13 | removes the element with the course's ClassNumber if present, else adds the course; keeps ClassNumbers unique |
| ScheduleState.ScheduleStateService.Clear | WebASMTimeTabler/Core/ScheduleStateService.cs:17 | after Clear no course is selected |
| ScheduleState.ScheduleStateService.IsSelected | WebASMTimeTabler/Core/ScheduleStateService.cs:15 | definition: Contains under the ClassNumber comparer (properties in HoldsNumbers, ToggleSelects) |
| ScheduleState.HoldsNumbers | WebASMTimeTabler/Core/ScheduleStateService.cs:15 | IsSelected is membership of the ClassNumber |
| ScheduleState.ToggleNumbers | WebASMTimeTabler/Core/ScheduleStateService.cs:7-13 | a toggle flips the course's ClassNumber in the selection |
| ScheduleState.ToggleSelects | WebASMTimeTabler/Core/ScheduleStateService.cs:9-15 | after a toggle IsSelected holds iff it did not before; other ClassNumbers are unchanged |
| ScheduleState.ToggleTwice | WebASMTimeTabler/Core/ScheduleStateService.cs:7-13 | toggling twice restores the selected ClassNumbers, and the very set when the course was absent |
| ScheduleState.ToggleUnique | WebASMTimeTabler/Core/ScheduleStateService.cs:5 | a toggle never puts two courses with one ClassNumber into the set |
| Util.NoDupConcat | ConTimeTabler/Program.cs:161-176 | a concatenation has no repeats iff its parts have none and share nothing |
| Util.NoDupCount | ConTimeTabler/Program.cs:168 | no repeats iff every element occurs at most once |

## Left out

- Laziness: `yield` is modelled as producing the whole finite sequence,
  and the `break` in GenerateSchedules as taking a prefix.
- The add/remove bookkeeping in the advance step
  (`WebASMTimeTabler/Core/ScheduleService.cs:67-72, 79-83` and its copy) is
  left out. The occupancy set it changes is replaced at line 31 before it
  is read again.
- Realtime and final filters (`IRealtimeFilter`, `IFinalFilter`,
  `TimeConflictFilter`, `IdleTimeFilter`) are not part of this model. They
  become parameters: predicates over (course, occupied cells) and over a
  schedule. A null filter list is modelled as an empty list.
- The service constructs the concrete filters itself; GenerateSchedules
  takes them as parameters instead.
- Empty groups: the generators require every group to be non-empty, as
  grouping by name never produces an empty group (`Service.GroupsPositive`).
- Null courses, or null fields of a course, are not modelled; strings are
  always present. The state service is not modelled on null courses.
- Hash values: `CourseHash` takes the runtime string hash as a parameter.
  Only its consistency with the comparer is stated.
- `Course.Times` elements are slots with an int day code, as GetTimesValue
  produces them. The enum typing of the source is not modelled.
- `\d` is read as the ASCII digits 0-9. `Regex` matching is modelled for
  this one pattern, and `String.Trim` for the white-space characters of
  `char.IsWhiteSpace`.
- `int.Parse` overflow: the exception is modelled as the error value
  `Overflow`, without the exception type or message.
- The `h <= t.end` loops of the source wrap around when `end` is
  int.MaxValue. The model uses unbounded ints there.
- Spreadsheet and JSON loading, and the console and web entry points, are
  not part of this model.
- Console output is not modelled: the enumeration output in the entry
  points and the commented-out debug printing in GetTimesValue.
- Integer formatting: `{start}`, `{end}` and `{Credit}` are rendered as in
  the invariant culture, with '-' as the minus sign and ASCII digits; a
  culture with another NegativeSign or digit set is not modelled.
- GenerateSchedules: `new List(_maxPages)` with a negative capacity throws.
  This is modelled as the error `NegativeCapacity`.
- The loops of Generate and IsValidSchedule are split into helper methods
  (Attempt, PassesFilters, Occupy, SearchStep, MarkSlot, MarkCourse). Each
  models one nested loop of the source.
