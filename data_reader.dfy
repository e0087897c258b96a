/** The time-string parser of ConTimeTabler/DataReader.cs: GetTimesValue and
    DayStringToInt.

    A time string is either exactly "(e러닝)" or a comma-separated list of
    pieces; each piece is trimmed and searched for the leftmost match of the
    pattern ([월화수목금])(\d+)-(\d+)\((.+?)\). Pieces without a match are
    dropped. */
module DataReader {
  import opened Util
  import opened Catalog
  import opened Text
  import ConProgram

  /** int.Parse throws when a digit run exceeds int.MaxValue. */
  datatype ReadError = Overflow

  const ELearningInput: string := "(e러닝)"

  const MaxInt: int := 2147483647

  /** DataReader.DayStringToInt. */
  function DayStringToInt(d: string): int
  {
    if d == "월" then 0
    else if d == "화" then 1
    else if d == "수" then 2
    else if d == "목" then 3
    else if d == "금" then 4
    else -1
  }

  /** The day parsed back from a console day label: 월..금 give their codes,
      every other label (토, 일, e러닝, ?) gives -1. */
  lemma DayStringRoundTrip(d: int)
    ensures DayStringToInt(ConProgram.DayToString(d)) == if 0 <= d <= 4 then d else -1
  {
  }

  // ----- The pattern -----

  /** The character class [월화수목금]. */
  predicate IsDayChar(ch: char) {
    ch == '월' || ch == '화' || ch == '수' || ch == '목' || ch == '금'
  }

  /** Characters String.Trim removes (char.IsWhiteSpace). */
  predicate IsWhiteSpace(ch: char) {
    ch == ' ' || '\t' <= ch <= '\r' || ch == '\U{0085}' || ch == '\U{00A0}' || ch == '\U{1680}' ||
    '\U{2000}' <= ch <= '\U{200A}' || ch == '\U{2028}' || ch == '\U{2029}' || ch == '\U{202F}' ||
    ch == '\U{205F}' || ch == '\U{3000}'
  }

  function TrimStart(s: string): string
  {
    if |s| > 0 && IsWhiteSpace(s[0]) then TrimStart(s[1..]) else s
  }

  function TrimEnd(s: string): string
  {
    if |s| > 0 && IsWhiteSpace(s[|s| - 1]) then TrimEnd(s[..|s| - 1]) else s
  }

  /** String.Trim. */
  function Trim(s: string): string
  {
    TrimEnd(TrimStart(s))
  }

  /** The length of the maximal run of digits starting at i; \d+ is greedy and
      the character after it is never a digit, so the match takes all of it. */
  function DigitRun(s: string, i: nat): (n: nat)
    requires i <= |s|
    ensures i + n <= |s| && AllDigits(s[i..i + n])
    ensures i + n == |s| || !IsDigit(s[i + n])
    decreases |s| - i
  {
    if i < |s| && IsDigit(s[i]) then
      var n := 1 + DigitRun(s, i + 1);
      assert s[i..i + n] == [s[i]] + s[i + 1..i + n];
      n
    else 0
  }

  /** Where the lazy (.+?)\) stops: the first ')' at or after k, provided no
      line break comes before it (. does not match '\n'). */
  function CloseParen(s: string, k: nat): (r: Option<nat>)
    requires k <= |s|
    ensures r.Some? ==> (k <= r.value < |s| && s[r.value] == ')' &&
      forall m :: k <= m < r.value ==> s[m] != ')' && s[m] != '\n')
    ensures r.None? ==> forall m :: k <= m < |s| && s[m] == ')' ==> exists n :: k <= n < m && s[n] == '\n'
    decreases |s| - k
  {
    if k == |s| then None
    else if s[k] == ')' then Some(k)
    else if s[k] == '\n' then None
    else CloseParen(s, k + 1)
  }

  /** The four groups of a match. */
  datatype Match = Match(day: char, first: string, last: string, room: string)

  /** The match of the pattern starting exactly at p, if any: a day
      character, a non-empty digit run, '-', a non-empty digit run, '(', a
      non-empty room without line breaks and without ')' after its first
      character, and ')'. */
  function MatchAt(s: string, p: nat): (m: Option<Match>)
    requires p <= |s|
    ensures m.Some? ==> IsDayChar(m.value.day) && AllDigits(m.value.first) && AllDigits(m.value.last)
  {
    if p < |s| && IsDayChar(s[p]) then MatchAfterDay(s, p, p + 1 + DigitRun(s, p + 1)) else None
  }

  /** A match has a weekday character, two non-empty digit runs and a
      non-empty room without line breaks and without ')' after its first
      character. */
  lemma MatchAtShape(s: string, p: nat)
    requires p <= |s|
    ensures MatchAt(s, p).Some? ==> (
      var m := MatchAt(s, p).value;
      IsDayChar(m.day) && |m.first| > 0 && AllDigits(m.first) && |m.last| > 0 && AllDigits(m.last) &&
      |m.room| > 0 && (forall k :: 0 <= k < |m.room| ==> m.room[k] != '\n') &&
      (forall k :: 1 <= k < |m.room| ==> m.room[k] != ')'))
  {
    if MatchAt(s, p).Some? {
      var dash := p + 1 + DigitRun(s, p + 1);
      var open := dash + 1 + DigitRun(s, dash + 1);
      assert MatchAt(s, p) == MatchAfterDay(s, p, dash);
      assert MatchAfterDay(s, p, dash) == MatchAfterDash(s, p, dash, open);
      MatchAfterDashRoom(s, p, dash, open);
    }
  }

  lemma MatchAfterDashRoom(s: string, p: nat, dash: nat, open: nat)
    requires p < dash < open <= |s| && AllDigits(s[dash + 1..open])
    ensures MatchAfterDash(s, p, dash, open).Some? ==> (
      var m := MatchAfterDash(s, p, dash, open).value;
      dash + 1 < open && |m.room| > 0 && (forall k :: 0 <= k < |m.room| ==> m.room[k] != '\n') &&
      (forall k :: 1 <= k < |m.room| ==> m.room[k] != ')'))
  {
    if MatchAfterDash(s, p, dash, open).Some? {
      var close := CloseParen(s, open + 2).value;
      var room := s[open + 1..close];
      assert MatchAfterDash(s, p, dash, open).value.room == room;
      forall k | 0 <= k < |room|
        ensures room[k] != '\n' && (k >= 1 ==> room[k] != ')')
      {
        assert room[k] == s[open + 1 + k];
      }
    }
  }

  /** The rest of a match whose first digit run ends at dash. */
  function MatchAfterDay(s: string, p: nat, dash: nat): (m: Option<Match>)
    requires p < dash <= |s| && IsDayChar(s[p]) && AllDigits(s[p + 1..dash])
    ensures m.Some? ==> m.value.day == s[p] && m.value.first == s[p + 1..dash] && AllDigits(m.value.last)
  {
    if p + 1 < dash && dash < |s| && s[dash] == '-' then
      MatchAfterDash(s, p, dash, dash + 1 + DigitRun(s, dash + 1))
    else None
  }

  /** The rest of a match whose second digit run ends at open. */
  function MatchAfterDash(s: string, p: nat, dash: nat, open: nat): (m: Option<Match>)
    requires p < dash < open <= |s| && AllDigits(s[dash + 1..open])
    ensures m.Some? ==> m == Some(Match(s[p], s[p + 1..dash], s[dash + 1..open], m.value.room))
  {
    if dash + 1 < open && open + 1 < |s| && s[open] == '(' && s[open + 1] != '\n' then
      match CloseParen(s, open + 2)
      case Some(close) => Some(Match(s[p], s[p + 1..dash], s[dash + 1..open], s[open + 1..close]))
      case None => None
    else None
  }

  /** The text of a match. */
  function MatchText(m: Match): string {
    [m.day] + m.first + "-" + m.last + "(" + m.room + ")"
  }

  /** The match at p in terms of the positions of its delimiters: the
      groups are the text between them, and the text from p to the closing
      parenthesis is the match's own text. */
  lemma MatchAtParts(s: string, p: nat, dash: nat, open: nat, close: nat)
    requires p + 1 < dash && dash + 1 < open && open + 1 < close < |s|
    requires IsDayChar(s[p]) && s[dash] == '-' && s[open] == '(' && s[open + 1] != '\n'
    requires DigitRun(s, p + 1) == dash - p - 1 && DigitRun(s, dash + 1) == open - dash - 1
    requires CloseParen(s, open + 2) == Some(close)
    ensures MatchAt(s, p) == Some(Match(s[p], s[p + 1..dash], s[dash + 1..open], s[open + 1..close]))
  {
    MatchAfterDayAt(s, p, dash, open, close);
    assert p + 1 + DigitRun(s, p + 1) == dash;
  }

  /** The text from p to the closing parenthesis is the match's own text. */
  lemma MatchAtText(s: string, p: nat, dash: nat, open: nat, close: nat)
    requires p + 1 < dash && dash + 1 < open && open + 1 < close < |s|
    requires IsDayChar(s[p]) && s[dash] == '-' && s[open] == '(' && s[open + 1] != '\n'
    requires DigitRun(s, p + 1) == dash - p - 1 && DigitRun(s, dash + 1) == open - dash - 1
    requires CloseParen(s, open + 2) == Some(close)
    ensures MatchAt(s, p).Some? && s[p..close + 1] == MatchText(MatchAt(s, p).value)
  {
    MatchAtParts(s, p, dash, open, close);
    MatchSlices(s, p, dash, open, close);
  }

  lemma MatchAfterDayAt(s: string, p: nat, dash: nat, open: nat, close: nat)
    requires p + 1 < dash && dash + 1 < open && open + 1 < close < |s|
    requires s[dash] == '-' && s[open] == '(' && s[open + 1] != '\n'
    requires IsDayChar(s[p]) && AllDigits(s[p + 1..dash])
    requires DigitRun(s, dash + 1) == open - dash - 1
    requires CloseParen(s, open + 2) == Some(close)
    ensures MatchAfterDay(s, p, dash) == Some(Match(s[p], s[p + 1..dash], s[dash + 1..open], s[open + 1..close]))
  {
    assert dash + 1 + DigitRun(s, dash + 1) == open;
  }

  lemma MatchSlices(s: string, p: nat, dash: nat, open: nat, close: nat)
    requires p < dash < open < close < |s| && s[dash] == '-' && s[open] == '(' && s[close] == ')'
    ensures s[p..close + 1] == MatchText(Match(s[p], s[p + 1..dash], s[dash + 1..open], s[open + 1..close]))
  {
    assert s[p..close + 1] == [s[p]] + s[p + 1..dash] + [s[dash]] + s[dash + 1..open] + [s[open]] + s[open + 1..close] + [s[close]];
  }

  /** Regex.Match: the leftmost match at or after p. */
  function FindMatch(s: string, p: nat): (m: Option<Match>)
    requires p <= |s|
    decreases |s| - p
  {
    if p == |s| then None
    else if MatchAt(s, p).Some? then MatchAt(s, p)
    else FindMatch(s, p + 1)
  }

  /** No match is found exactly when the pattern matches at no position. */
  lemma {:induction false} FindMatchNone(s: string, p: nat)
    requires p <= |s|
    ensures FindMatch(s, p).None? <==> forall q :: p <= q <= |s| ==> MatchAt(s, q).None?
    decreases |s| - p
  {
    if p < |s| && MatchAt(s, p).None? {
      FindMatchNone(s, p + 1);
    }
  }

  /** When q is the first position at or after p where the pattern matches,
      the match found is the one at q. */
  lemma {:induction false} FindMatchLeftmost(s: string, p: nat, q: nat)
    requires p <= q < |s| && MatchAt(s, q).Some?
    requires forall q' :: p <= q' < q ==> MatchAt(s, q').None?
    ensures FindMatch(s, p) == MatchAt(s, q)
    decreases q - p
  {
    if p < q {
      FindMatchLeftmost(s, p + 1, q);
    }
  }

  // ----- Converting a match -----

  /** int.Parse on a digit run. */
  function ParseInt(digits: string): Result<int, ReadError>
    requires AllDigits(digits)
  {
    var v := DigitsValue(digits);
    if v > MaxInt then Failure(Overflow) else Success(v)
  }

  /** The entry of one match: (DayStringToInt(day), room, start, end). */
  function SlotOf(m: Match): Result<TimeSlot, ReadError>
    requires AllDigits(m.first) && AllDigits(m.last)
  {
    match ParseInt(m.first)
    case Failure(e) => Failure(e)
    case Success(start) =>
      match ParseInt(m.last)
      case Failure(e) => Failure(e)
      case Success(end) => Success(TimeSlot(DayStringToInt([m.day]), m.room, start, end))
  }

  function PieceMatch(piece: string): Option<Match>
  {
    FindMatch(Trim(piece), 0)
  }

  /** The entries of a list of pieces, in order; the first overflow aborts. */
  function SlotsOf(pieces: seq<string>): Result<seq<TimeSlot>, ReadError>
  {
    if |pieces| == 0 then Success([])
    else
      match SlotsOf(pieces[..|pieces| - 1])
      case Failure(e) => Failure(e)
      case Success(prev) =>
        var piece := pieces[|pieces| - 1];
        var m := PieceMatch(piece);
        if m.None? then Success(prev)
        else
          FindMatchShape(Trim(piece), 0);
          match SlotOf(m.value)
          case Failure(e) => Failure(e)
          case Success(t) => Success(prev + [t])
  }

  lemma {:induction false} FindMatchShape(s: string, p: nat)
    requires p <= |s|
    ensures FindMatch(s, p).Some? ==>
      AllDigits(FindMatch(s, p).value.first) && AllDigits(FindMatch(s, p).value.last) &&
      IsDayChar(FindMatch(s, p).value.day)
    decreases |s| - p
  {
    if p < |s| && MatchAt(s, p).None? {
      FindMatchShape(s, p + 1);
    }
  }

  /** An overflow in some piece is the result of the whole list. */
  lemma {:induction false} SlotsOfFailure(pieces: seq<string>, k: nat)
    requires k <= |pieces|
    ensures SlotsOf(pieces[..k]).Failure? ==> SlotsOf(pieces) == Failure(Overflow)
    decreases |pieces|
  {
    if k < |pieces| {
      assert pieces[..|pieces| - 1][..k] == pieces[..k];
      SlotsOfFailure(pieces[..|pieces| - 1], k);
    } else {
      assert pieces[..k] == pieces;
    }
    if SlotsOf(pieces).Failure? {
      assert SlotsOf(pieces).error.Overflow?;
    }
  }

  /** What GetTimesValue returns. */
  function TimesValue(s: string): Result<seq<TimeSlot>, ReadError>
  {
    if s == ELearningInput then Success([TimeSlot(-1, "e러닝", 0, 0)])
    else SlotsOf(Split(s, ','))
  }

  /** DataReader.GetTimesValue. */
  method GetTimesValue(timesString: string) returns (result: Result<seq<TimeSlot>, ReadError>)
    ensures result == TimesValue(timesString)
  {
    if timesString == ELearningInput {
      return Success([TimeSlot(-1, "e러닝", 0, 0)]);
    }
    var slots := Split(timesString, ',');
    var list: seq<TimeSlot> := [];
    for i := 0 to |slots|
      invariant SlotsOf(slots[..i]) == Success(list)
    {
      assert slots[..i + 1][..i] == slots[..i];
      var m := PieceMatch(slots[i]);
      if m.Some? {
        FindMatchShape(Trim(slots[i]), 0);
        var start := ParseInt(m.value.first);
        if start.Failure? {
          SlotsOfFailure(slots, i + 1);
          return Failure(Overflow);
        }
        var end := ParseInt(m.value.last);
        if end.Failure? {
          SlotsOfFailure(slots, i + 1);
          return Failure(Overflow);
        }
        list := list + [TimeSlot(DayStringToInt([m.value.day]), m.value.room, start.value, end.value)];
      }
    }
    assert slots[..|slots|] == slots;
    return Success(list);
  }

  // ----- Properties -----

  /** Exactly the input "(e러닝)" takes the e-learning branch; every other
      input yields only entries with a weekday code 0..4, at most one per
      comma-separated piece. */
  lemma TimesValueShape(s: string)
    ensures TimesValue(ELearningInput) == Success([TimeSlot(-1, "e러닝", 0, 0)])
    ensures s != ELearningInput && TimesValue(s).Success? ==>
      |TimesValue(s).value| <= |Split(s, ',')| &&
      forall k :: 0 <= k < |TimesValue(s).value| ==> 0 <= TimesValue(s).value[k].day <= 4
  {
    if s != ELearningInput {
      SlotsOfShape(Split(s, ','));
    }
  }

  lemma {:induction false} SlotsOfShape(pieces: seq<string>)
    ensures SlotsOf(pieces).Success? ==>
      |SlotsOf(pieces).value| <= |pieces| &&
      forall k :: 0 <= k < |SlotsOf(pieces).value| ==> 0 <= SlotsOf(pieces).value[k].day <= 4
    decreases |pieces|
  {
    if |pieces| > 0 {
      SlotsOfShape(pieces[..|pieces| - 1]);
      FindMatchShape(Trim(pieces[|pieces| - 1]), 0);
    }
  }

  /** The day character a weekday code 0..4 is written with. */
  function DayChar(d: int): char
    requires 0 <= d <= 4
  {
    if d == 0 then '월' else if d == 1 then '화' else if d == 2 then '수' else if d == 3 then '목' else '금'
  }

  /** A slot the parser can read from text: a weekday, periods no larger
      than int.MaxValue, and a non-empty room free of ',', ')' and line
      breaks. */
  predicate Writable(t: TimeSlot) {
    0 <= t.day <= 4 && 0 <= t.start <= MaxInt && 0 <= t.end <= MaxInt && |t.room| > 0 &&
    (forall k :: 0 <= k < |t.room| ==> t.room[k] != ',' && t.room[k] != ')' && t.room[k] != '\n')
  }

  /** The text of one slot in the catalogue's format, e.g. "월1-2(A101)". */
  function SlotText(t: TimeSlot): string
    requires Writable(t)
  {
    [DayChar(t.day)] + NatToString(t.start) + "-" + NatToString(t.end) + "(" + t.room + ")"
  }

  /** The catalogue text of a list of slots, comma-separated. */
  function TimesText(ts: seq<TimeSlot>): string
    requires forall k :: 0 <= k < |ts| ==> Writable(ts[k])
  {
    Join(",", seq(|ts|, k requires 0 <= k < |ts| => SlotText(ts[k])))
  }

  /** A digit run followed by a non-digit is read whole. */
  lemma {:induction false} DigitRunAt(s: string, i: nat, n: nat)
    requires i + n < |s| && AllDigits(s[i..i + n]) && !IsDigit(s[i + n])
    ensures DigitRun(s, i) == n
    decreases n
  {
    if n > 0 {
      assert IsDigit(s[i..i + n][0]);
      assert s[i + 1..i + n] == s[i..i + n][1..];
      DigitRunAt(s, i + 1, n - 1);
    }
  }

  /** The lazy room stops at the first ')' when no line break precedes it. */
  lemma {:induction false} CloseParenAt(s: string, k: nat, c: nat)
    requires k <= c < |s| && s[c] == ')'
    requires forall m :: k <= m < c ==> s[m] != ')' && s[m] != '\n'
    ensures CloseParen(s, k) == Some(c)
    decreases c - k
  {
    if k < c {
      CloseParenAt(s, k + 1, c);
    }
  }

  /** Where the delimiters of a match's text sit. */
  lemma MatchTextLayout(m: Match)
    ensures var s, dash, open := MatchText(m), 1 + |m.first|, 2 + |m.first| + |m.last|;
      var close := open + 1 + |m.room|;
      |s| == close + 1 && s[0] == m.day && s[1..dash] == m.first && s[dash] == '-' &&
      s[dash + 1..open] == m.last && s[open] == '(' && s[open + 1..close] == m.room && s[close] == ')'
  {
  }

  /** The pattern matches at 0 a text laid out as the groups of m. */
  lemma MatchOfLayout(s: string, m: Match, dash: nat, open: nat, close: nat)
    requires IsDayChar(m.day) && |m.first| > 0 && AllDigits(m.first) && |m.last| > 0 && AllDigits(m.last)
    requires |m.room| > 0 && forall k :: 0 <= k < |m.room| ==> m.room[k] != ')' && m.room[k] != '\n'
    requires dash == 1 + |m.first| && open == dash + 1 + |m.last| && close == open + 1 + |m.room|
    requires |s| == close + 1 && s[0] == m.day && s[1..dash] == m.first && s[dash] == '-'
    requires s[dash + 1..open] == m.last && s[open] == '(' && s[open + 1..close] == m.room && s[close] == ')'
    ensures MatchAt(s, 0) == Some(m)
  {
    DigitRunAt(s, 1, |m.first|);
    DigitRunAt(s, dash + 1, |m.last|);
    RoomCloseParen(s, open, close, m.room);
    MatchAtParts(s, 0, dash, open, close);
  }

  /** A room without ')' or line breaks is read up to the ')' after it. */
  lemma RoomCloseParen(s: string, open: nat, close: nat, room: string)
    requires open + 1 < close < |s| && s[close] == ')' && s[open + 1..close] == room
    requires forall k :: 0 <= k < |room| ==> room[k] != ')' && room[k] != '\n'
    ensures s[open + 1] != '\n' && CloseParen(s, open + 2) == Some(close)
  {
    assert s[open + 1] == room[0];
    forall k | open + 2 <= k < close
      ensures s[k] != ')' && s[k] != '\n'
    {
      assert s[k] == room[k - open - 1];
    }
    CloseParenAt(s, open + 2, close);
  }

  /** The pattern matches the text of its own groups at position 0. */
  lemma MatchOfParts(m: Match)
    requires IsDayChar(m.day) && |m.first| > 0 && AllDigits(m.first) && |m.last| > 0 && AllDigits(m.last)
    requires |m.room| > 0 && forall k :: 0 <= k < |m.room| ==> m.room[k] != ')' && m.room[k] != '\n'
    ensures MatchAt(MatchText(m), 0) == Some(m)
  {
    MatchTextLayout(m);
    var dash := 1 + |m.first|;
    var open := dash + 1 + |m.last|;
    MatchOfLayout(MatchText(m), m, dash, open, open + 1 + |m.room|);
  }

  /** The match of a writable slot's text. */
  function SlotMatch(t: TimeSlot): Match
    requires Writable(t)
  {
    Match(DayChar(t.day), NatToString(t.start), NatToString(t.end), t.room)
  }

  /** The parser reads a slot's text back as the slot. */
  lemma SlotTextMatches(t: TimeSlot)
    requires Writable(t)
    ensures PieceMatch(SlotText(t)) == Some(SlotMatch(t))
    ensures SlotOf(SlotMatch(t)) == Success(t)
  {
    SlotTextTrimmed(t);
    MatchOfParts(SlotMatch(t));
    SlotOfSlotMatch(t);
  }

  /** A slot's text is its match's text and has no surrounding white space. */
  lemma SlotTextTrimmed(t: TimeSlot)
    requires Writable(t)
    ensures SlotText(t) == MatchText(SlotMatch(t)) && Trim(SlotText(t)) == SlotText(t)
  {
    var s := SlotText(t);
    assert s == MatchText(SlotMatch(t));
    assert !IsWhiteSpace(s[0]) && !IsWhiteSpace(s[|s| - 1]);
  }

  /** Converting a slot's match gives back the slot. */
  lemma SlotOfSlotMatch(t: TimeSlot)
    requires Writable(t)
    ensures SlotOf(SlotMatch(t)) == Success(t)
  {
    NatToStringValue(t.start);
    NatToStringValue(t.end);
    assert DayStringToInt([DayChar(t.day)]) == t.day;
  }

  lemma {:induction false} SlotsOfTexts(ts: seq<TimeSlot>)
    requires forall k :: 0 <= k < |ts| ==> Writable(ts[k])
    ensures SlotsOf(seq(|ts|, k requires 0 <= k < |ts| => SlotText(ts[k]))) == Success(ts)
    decreases |ts|
  {
    var pieces := seq(|ts|, k requires 0 <= k < |ts| => SlotText(ts[k]));
    if |ts| > 0 {
      var n := |ts| - 1;
      assert pieces[..n] == seq(n, k requires 0 <= k < n => SlotText(ts[..n][k]));
      SlotsOfTexts(ts[..n]);
      SlotTextMatches(ts[n]);
      assert ts[..n] + [ts[n]] == ts;
    }
  }

  /** Round trip: the parser reads the catalogue text of any list of writable
      slots back as exactly those slots, in order. */
  lemma TimesTextRoundTrip(ts: seq<TimeSlot>)
    requires forall k :: 0 <= k < |ts| ==> Writable(ts[k])
    ensures TimesValue(TimesText(ts)) == Success(ts)
  {
    var pieces := seq(|ts|, k requires 0 <= k < |ts| => SlotText(ts[k]));
    if |ts| == 0 {
      assert TimesText(ts) == "";
    } else {
      forall k | 0 <= k < |pieces| ensures ',' !in pieces[k] {
        assert pieces[k] == SlotText(ts[k]);
      }
      SplitJoin(pieces, ',');
      assert TimesText(ts)[0] == DayChar(ts[0].day) by {
        JoinHead(pieces);
      }
    }
    SlotsOfTexts(ts);
  }

  lemma JoinHead(pieces: seq<string>)
    requires |pieces| > 0 && |pieces[0]| > 0
    ensures Join(",", pieces)[0] == pieces[0][0]
  {
  }

  /** The catalogue's own examples. */
  lemma TimesValueExamples()
    ensures TimesValue("") == Success([])
    ensures TimesValue("월1-2(A101),수3-4(B202)") ==
      Success([TimeSlot(0, "A101", 1, 2), TimeSlot(2, "B202", 3, 4)])
  {
    var ts := [TimeSlot(0, "A101", 1, 2), TimeSlot(2, "B202", 3, 4)];
    TimesTextRoundTrip([]);
    TimesTextRoundTrip(ts);
    assert SlotText(ts[0]) == "월1-2(A101)";
    assert SlotText(ts[1]) == "수3-4(B202)";
    assert seq(|ts|, k requires 0 <= k < |ts| => SlotText(ts[k])) == ["월1-2(A101)", "수3-4(B202)"];
    assert Join(",", ["월1-2(A101)", "수3-4(B202)"]) == "월1-2(A101)" + "," + "수3-4(B202)";
    assert TimesText(ts) == "월1-2(A101),수3-4(B202)";
  }
}
