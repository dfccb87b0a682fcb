/**
  Time ranges on the command line: the printer `TimeRange.timerange_str` and the parser
  `TimeRange.parse_timerange`, with the calendar between them.
 */
module TimeRanges {
  import opened Results

  const DAY := 86400
  /** Ordinal number of 1970-01-01, counting 0001-01-01 as 1. */
  const EPOCH := 719163
  /** Larger timestamps are taken for milliseconds. */
  const MAX_SECONDS := 10000000000
  /** 1000-01-01 and the last second of 9999-12-31: the years are four digits long. */
  const FIRST_SECOND := -30610224000
  const LAST_SECOND := 253402300799

  /** `startSet` and `stopSet` say whether the type of a bound is "date". */
  datatype TimeRange = TimeRange(startSet: bool, stopSet: bool, start: int, stop: int)
  datatype ParseError = IncorrectSyntax | StartAfterStop | InvalidDate

  // ---------- Calendar ----------

  datatype Date = Date(year: int, month: int, day: int)

  predicate IsLeap(y: int) {
    y % 4 == 0 && (y % 100 != 0 || y % 400 == 0)
  }

  function YearLength(y: int): int {
    if IsLeap(y) then 366 else 365
  }

  function DaysInMonth(y: int, m: int): int {
    if m == 2 then (if IsLeap(y) then 29 else 28)
    else if m == 4 || m == 6 || m == 9 || m == 11 then 30 else 31
  }

  function DaysBeforeYear(y: int): int {
    (y - 1) * 365 + (y - 1) / 4 - (y - 1) / 100 + (y - 1) / 400
  }

  function DaysBeforeMonth(y: int, m: int): int
    requires 1 <= m <= 13
  {
    [0, 31, 59, 90, 120, 151, 181, 212, 243, 273, 304, 334, 365][m - 1] + if m > 2 && IsLeap(y) then 1 else 0
  }

  lemma MonthStep(y: int, m: int)
    requires 1 <= m <= 12
    ensures DaysBeforeMonth(y, m + 1) == DaysBeforeMonth(y, m) + DaysInMonth(y, m)
    ensures DaysBeforeMonth(y, 1) == 0 && DaysBeforeMonth(y, 13) == YearLength(y)
  {
  }

  predicate ValidDate(d: Date) {
    d.year >= 1 && 1 <= d.month <= 12 && 1 <= d.day <= DaysInMonth(d.year, d.month)
  }

  function ToOrdinal(d: Date): int
    requires ValidDate(d)
  {
    DaysBeforeYear(d.year) + DaysBeforeMonth(d.year, d.month) + d.day
  }

  lemma StepBy4(y: int)
    ensures y / 4 - (y - 1) / 4 == if y % 4 == 0 then 1 else 0
  {
  }

  lemma StepBy100(y: int)
    ensures y / 100 - (y - 1) / 100 == if y % 100 == 0 then 1 else 0
  {
  }

  lemma StepBy400(y: int)
    ensures y / 400 - (y - 1) / 400 == if y % 400 == 0 then 1 else 0
  {
  }

  lemma Centuries(y: int)
    ensures y % 400 == 0 ==> y % 100 == 0
    ensures y % 100 == 0 ==> y % 4 == 0
  {
    assert y % 400 == 0 ==> y % 100 == 100 * (4 * (y / 400) - y / 100);
    assert y % 100 == 0 ==> y % 4 == 4 * (25 * (y / 100) - y / 4);
  }

  lemma YearStep(y: int)
    ensures DaysBeforeYear(y + 1) == DaysBeforeYear(y) + YearLength(y)
  {
    StepBy4(y);
    StepBy100(y);
    StepBy400(y);
    Centuries(y);
  }

  lemma {:induction false} YearsInOrder(y: int, z: int)
    requires y <= z
    ensures DaysBeforeYear(y) <= DaysBeforeYear(z)
    decreases z - y
  {
    if y < z {
      YearStep(z - 1);
      YearsInOrder(y, z - 1);
    }
  }

  /** The year, counted up from `y`, in which day `n` falls. */
  function YearFrom(y: int, n: int): (r: int)
    requires DaysBeforeYear(y) < n
    ensures y <= r && DaysBeforeYear(r) < n <= DaysBeforeYear(r + 1)
    decreases n - DaysBeforeYear(y)
  {
    YearStep(y);
    if n <= DaysBeforeYear(y + 1) then y else YearFrom(y + 1, n)
  }

  function MonthFrom(y: int, m: int, k: int): (r: int)
    requires 1 <= m <= 12 && DaysBeforeMonth(y, m) < k <= YearLength(y)
    ensures m <= r <= 12 && DaysBeforeMonth(y, r) < k <= DaysBeforeMonth(y, r + 1)
    decreases 12 - m
  {
    MonthStep(y, m);
    if k <= DaysBeforeMonth(y, m + 1) then m else MonthFrom(y, m + 1, k)
  }

  function FromOrdinal(n: int): (d: Date)
    requires n >= 1
    ensures ValidDate(d) && ToOrdinal(d) == n
  {
    var y := YearFrom(1, n);
    YearStep(y);
    var k := n - DaysBeforeYear(y);
    var m := MonthFrom(y, 1, k);
    MonthStep(y, m);
    Date(y, m, k - DaysBeforeMonth(y, m))
  }

  lemma {:induction false} MonthsInOrder(y: int, m: int, n: int)
    requires 1 <= m <= n <= 13
    ensures DaysBeforeMonth(y, m) <= DaysBeforeMonth(y, n)
    decreases n - m
  {
    if m < n {
      MonthStep(y, n - 1);
      MonthsInOrder(y, m, n - 1);
    }
  }

  lemma WithinYear(d: Date)
    requires ValidDate(d)
    ensures DaysBeforeYear(d.year) < ToOrdinal(d) <= DaysBeforeYear(d.year + 1)
  {
    MonthStep(d.year, d.month);
    MonthsInOrder(d.year, 1, d.month);
    MonthsInOrder(d.year, d.month + 1, 13);
    YearStep(d.year);
  }

  lemma EarlierYear(a: Date, b: Date)
    requires ValidDate(a) && ValidDate(b) && a.year < b.year
    ensures ToOrdinal(a) < ToOrdinal(b)
  {
    WithinYear(a);
    WithinYear(b);
    YearsInOrder(a.year + 1, b.year);
  }

  lemma EarlierMonth(a: Date, b: Date)
    requires ValidDate(a) && ValidDate(b) && a.year == b.year && a.month < b.month
    ensures ToOrdinal(a) < ToOrdinal(b)
  {
    MonthStep(a.year, a.month);
    MonthsInOrder(a.year, a.month + 1, b.month);
  }

  /** Different dates have different day numbers. */
  lemma OrdinalIsInjective(a: Date, b: Date)
    requires ValidDate(a) && ValidDate(b) && ToOrdinal(a) == ToOrdinal(b)
    ensures a == b
  {
    if a.year < b.year {
      EarlierYear(a, b);
    } else if b.year < a.year {
      EarlierYear(b, a);
    } else if a.month < b.month {
      EarlierMonth(a, b);
    } else if b.month < a.month {
      EarlierMonth(b, a);
    }
  }

  // ---------- Digits ----------

  predicate IsDigits(s: string) {
    forall i :: 0 <= i < |s| ==> '0' <= s[i] <= '9'
  }

  function Pow10(k: nat): nat {
    if k == 0 then 1 else 10 * Pow10(k - 1)
  }

  function Digit(d: int): char
    requires 0 <= d < 10
  {
    ((48 + d) as char)
  }

  function Digits(n: nat, k: nat): (s: string)
    ensures |s| == k && IsDigits(s)
  {
    if k == 0 then "" else Digits(n / 10, k - 1) + [Digit(n % 10)]
  }

  function Value(s: string): (n: nat)
    requires IsDigits(s)
  {
    if s == "" then 0 else Value(s[..|s| - 1]) * 10 + (s[|s| - 1] as int - 48)
  }

  lemma {:induction false} ValueOfDigits(n: nat, k: nat)
    requires n < Pow10(k)
    ensures Value(Digits(n, k)) == n
  {
    if k > 0 {
      ValueOfDigits(n / 10, k - 1);
      assert Digits(n, k)[..k - 1] == Digits(n / 10, k - 1);
    }
  }

  lemma {:induction false} DigitsOfValue(s: string)
    requires IsDigits(s)
    ensures Value(s) < Pow10(|s|) && Digits(Value(s), |s|) == s
  {
    if s != "" {
      DigitsOfValue(s[..|s| - 1]);
      assert s == s[..|s| - 1] + [s[|s| - 1]];
    }
  }

  // ---------- Printer ----------

  predicate InRange(ts: int) {
    FIRST_SECOND <= ts <= LAST_SECOND
  }

  /** Seconds meant by a timestamp. */
  function Seconds(ts: int): int {
    if ts > MAX_SECONDS then ts / 1000 else ts
  }

  function DateOf(ts: int): Date
    requires InRange(ts)
  {
    FromOrdinal(Seconds(ts) / DAY + EPOCH)
  }

  function FormatDate(d: Date): (s: string)
    requires d.year >= 0 && d.month >= 0 && d.day >= 0
    ensures |s| == 8 && IsDigits(s)
  {
    Digits(d.year, 4) + Digits(d.month, 2) + Digits(d.day, 2)
  }

  function FormatBound(ts: int): string
    requires InRange(ts)
  {
    if ts == 0 then "" else FormatDate(DateOf(ts))
  }

  function TimerangeStr(r: TimeRange): string
    requires InRange(r.start) && InRange(r.stop)
  {
    FormatBound(r.start) + "-" + FormatBound(r.stop)
  }

  // ---------- Parser ----------

  /** The number of digits before and after the dash; 0 if that bound is absent. */
  datatype Rule = Rule(before: nat, after: nat)

  const SYNTAX: seq<Rule> := [
    Rule(0, 8), Rule(8, 0), Rule(8, 8),
    Rule(0, 10), Rule(10, 0), Rule(10, 10),
    Rule(0, 13), Rule(13, 0), Rule(13, 13)]

  /** The end of a text, as the rules see it, may be followed by one line break. */
  function Body(text: string): string {
    if text != "" && text[|text| - 1] == '\n' then text[..|text| - 1] else text
  }

  predicate Matches(rule: Rule, text: string) {
    var s := Body(text);
    && |s| == rule.before + 1 + rule.after && s[rule.before] == '-'
    && IsDigits(s[..rule.before]) && IsDigits(s[rule.before + 1..])
  }

  function DateOfText(s: string): Date
    requires |s| == 8 && IsDigits(s)
  {
    Date(Value(s[..4]), Value(s[4..6]), Value(s[6..]))
  }

  function ParseDate(s: string): Option<int>
    requires |s| == 8 && IsDigits(s)
  {
    var d := DateOfText(s);
    if ValidDate(d) then Some((ToOrdinal(d) - EPOCH) * DAY) else None
  }

  /** The timestamp written as `s`; nothing if it is eight digits that are not a date. */
  function ParseBound(s: string): Option<int>
    requires IsDigits(s)
  {
    if s == "" then Some(0)
    else if |s| == 8 then ParseDate(s)
    else if |s| == 13 then Some(Value(s) / 1000)
    else Some(Value(s))
  }

  function FromBounds(before: string, after: string): Result<TimeRange, ParseError>
    requires IsDigits(before) && IsDigits(after)
  {
    var start, stop := ParseBound(before), ParseBound(after);
    if start.None? || stop.None? then Err(InvalidDate)
    else if start.value > stop.value > 0 then Err(StartAfterStop)
    else Ok(TimeRange(before != "", after != "", start.value, stop.value))
  }

  function Apply(rule: Rule, text: string): Result<TimeRange, ParseError>
    requires Matches(rule, text)
  {
    var s := Body(text);
    FromBounds(s[..rule.before], s[rule.before + 1..])
  }

  function ParseFrom(rules: seq<Rule>, text: string): Result<TimeRange, ParseError> {
    if rules == [] then Err(IncorrectSyntax)
    else if Matches(rules[0], text) then Apply(rules[0], text)
    else ParseFrom(rules[1..], text)
  }

  function Parse(text: string): Result<TimeRange, ParseError> {
    if text == "" then Ok(TimeRange(false, false, 0, 0)) else ParseFrom(SYNTAX, text)
  }

  method ParseTimerange(text: string) returns (r: Result<TimeRange, ParseError>)
    ensures r == Parse(text)
  {
    if text == "" {
      return Ok(TimeRange(false, false, 0, 0));
    }
    var i := 0;
    while i < |SYNTAX|
      invariant 0 <= i <= |SYNTAX|
      invariant ParseFrom(SYNTAX[i..], text) == ParseFrom(SYNTAX, text)
    {
      var rule := SYNTAX[i];
      assert SYNTAX[i..][0] == rule && SYNTAX[i..][1..] == SYNTAX[i + 1..];
      if Matches(rule, text) {
        var s := Body(text);
        var start, stop := 0, 0;
        if rule.before > 0 {
          var bound := ParseBound(s[..rule.before]);
          if bound.None? {
            return Err(InvalidDate);
          }
          start := bound.value;
        }
        if rule.after > 0 {
          var bound := ParseBound(s[rule.before + 1..]);
          if bound.None? {
            return Err(InvalidDate);
          }
          stop := bound.value;
        }
        if start > stop > 0 {
          return Err(StartAfterStop);
        }
        return Ok(TimeRange(rule.before > 0, rule.after > 0, start, stop));
      }
      i := i + 1;
    }
    r := Err(IncorrectSyntax);
  }

  // ---------- What texts mean ----------

  /** Both bounds, or the one there is, are written with as many digits: eight, ten or thirteen. */
  predicate HasLengths(before: string, after: string) {
    var n := if before != "" then |before| else |after|;
    && (n == 8 || n == 10 || n == 13)
    && (before == "" || |before| == n) && (after == "" || |after| == n)
  }

  /** `text` is two bounds with a dash between them, and perhaps a line break behind. */
  predicate IsForm(text: string, before: string, after: string) {
    && IsDigits(before) && IsDigits(after) && HasLengths(before, after)
    && (text == before + "-" + after || text == before + "-" + after + "\n")
  }

  lemma RuleOfLengths(before: string, after: string)
    ensures Rule(|before|, |after|) in SYNTAX <==> HasLengths(before, after)
  {
    assert SYNTAX[0] == Rule(0, 8) && SYNTAX[1] == Rule(8, 0) && SYNTAX[2] == Rule(8, 8);
    assert SYNTAX[3] == Rule(0, 10) && SYNTAX[4] == Rule(10, 0) && SYNTAX[5] == Rule(10, 10);
    assert SYNTAX[6] == Rule(0, 13) && SYNTAX[7] == Rule(13, 0) && SYNTAX[8] == Rule(13, 13);
  }

  /** The dash tells the two parts of a text apart. */
  lemma MatchesByLength(rule: Rule, before: string, after: string)
    requires IsDigits(before) && IsDigits(after)
    ensures var text := before + "-" + after;
      && Body(text) == text
      && (Matches(rule, text) <==> |before| == rule.before && |after| == rule.after)
      && (Matches(rule, text) ==> Apply(rule, text) == FromBounds(before, after))
  {
    var text := before + "-" + after;
    assert text[|before|] == '-' && text[..|before|] == before && text[|before| + 1..] == after;
    if |text| == rule.before + 1 + rule.after && rule.before != |before| {
      if rule.before < |before| {
        assert text[rule.before] == before[rule.before];
      } else {
        assert text[rule.before] == after[rule.before - |before| - 1];
      }
    }
  }

  lemma {:induction false} ParseBySearch(rules: seq<Rule>, before: string, after: string)
    requires IsDigits(before) && IsDigits(after)
    ensures ParseFrom(rules, before + "-" + after) ==
      if Rule(|before|, |after|) in rules then FromBounds(before, after) else Err(IncorrectSyntax)
  {
    if rules != [] {
      MatchesByLength(rules[0], before, after);
      ParseBySearch(rules[1..], before, after);
    }
  }

  /** A text is refused for its syntax exactly if it is not of that form. */
  lemma SyntaxExactly(text: string)
    ensures Parse(text) == Err(IncorrectSyntax) <==>
      text != "" && forall before, after :: !IsForm(text, before, after)
  {
    if text != "" {
      SearchFails(SYNTAX, text);
      if before, after :| IsForm(text, before, after) {
        FormMatches(text, before, after);
      }
      if rule :| rule in SYNTAX && Matches(rule, text) {
        var before, after := MatchIsForm(text, rule);
      }
    }
  }

  lemma MatchIsForm(text: string, rule: Rule) returns (before: string, after: string)
    requires rule in SYNTAX && Matches(rule, text)
    ensures IsForm(text, before, after)
  {
    var s := Body(text);
    before, after := s[..rule.before], s[rule.before + 1..];
    assert rule == Rule(|before|, |after|);
    RuleOfLengths(before, after);
    assert s == before + "-" + after;
    BodyOrBreak(text);
  }

  lemma BodyOrBreak(text: string)
    ensures text == Body(text) || text == Body(text) + "\n"
  {
  }

  lemma FormMatches(text: string, before: string, after: string)
    requires IsForm(text, before, after)
    ensures Rule(|before|, |after|) in SYNTAX && Matches(Rule(|before|, |after|), text)
  {
    var s := before + "-" + after;
    RuleOfLengths(before, after);
    MatchesByLength(Rule(|before|, |after|), before, after);
    if text != s {
      assert text[|text| - 1] == '\n' && text[..|text| - 1] == s;
    }
    assert Body(text) == s;
  }

  lemma {:induction false} SearchFails(rules: seq<Rule>, text: string)
    ensures ParseFrom(rules, text) == Err(IncorrectSyntax) <==> forall rule :: rule in rules ==> !Matches(rule, text)
  {
    if rules != [] {
      SearchFails(rules[1..], text);
    }
  }

  /**
    A text of that form gives the range between its bounds, unless one of them is no date, or both are
    given and the first is later. No text at all gives a range without bounds.
   */
  lemma ParseExactly(before: string, after: string)
    requires IsDigits(before) && IsDigits(after) && HasLengths(before, after)
    ensures var r, start, stop := Parse(before + "-" + after), ParseBound(before), ParseBound(after);
      && (r == Err(InvalidDate) <==> start.None? || stop.None?)
      && (r == Err(StartAfterStop) <==> start.Some? && stop.Some? && stop.value >= 1 && start.value > stop.value)
      && (r.Ok? ==> r.value == TimeRange(before != "", after != "", start.value, stop.value))
    ensures Parse("") == Ok(TimeRange(false, false, 0, 0))
  {
    RuleOfLengths(before, after);
    ParseBySearch(SYNTAX, before, after);
  }

  /** Thirteen digits are milliseconds: they mean the second that the first ten of them are. */
  lemma MillisecondsAreCut(s: string)
    requires IsDigits(s) && |s| == 13
    ensures ParseBound(s) == ParseBound(s[..10]) == Some(Value(s[..10]))
  {
    var tenths, hundredths := s[..12], s[..11];
    assert tenths == s[..|s| - 1] && hundredths == tenths[..|tenths| - 1] && s[..10] == hundredths[..|hundredths| - 1];
    LastDigit(s);
    LastDigit(tenths);
    LastDigit(hundredths);
  }

  lemma LastDigit(s: string)
    requires IsDigits(s) && s != ""
    ensures Value(s) / 10 == Value(s[..|s| - 1])
  {
  }

  /** Up to ten billion a timestamp is seconds, beyond it is milliseconds. */
  lemma SecondsExactly(ts: int)
    ensures ts <= 10000000000 ==> Seconds(ts) == ts
    ensures ts > 10000000000 ==> 1000 * Seconds(ts) <= ts < 1000 * (Seconds(ts) + 1)
  {
  }

  // ---------- Round trips ----------

  /** Start of the day that is printed for a timestamp. */
  function DayStart(ts: int): int {
    (Seconds(ts) / DAY) * DAY
  }

  lemma FourDigitYear(ts: int)
    requires InRange(ts)
    ensures 1000 <= DateOf(ts).year <= 9999
  {
    var n, y := Seconds(ts) / DAY + EPOCH, DateOf(ts).year;
    assert DaysBeforeYear(1000) < n <= DaysBeforeYear(10000);
    WithinYear(DateOf(ts));
    if y < 1000 {
      YearsInOrder(y + 1, 1000);
    }
    if y > 9999 {
      YearsInOrder(10000, y);
    }
  }

  /** A date is read back as it was printed. */
  lemma ParseOfFormat(d: Date)
    requires ValidDate(d) && d.year <= 9999
    ensures ParseDate(FormatDate(d)) == Some((ToOrdinal(d) - EPOCH) * DAY)
  {
    PartsOfFormat(d);
    assert DateOfText(FormatDate(d)) == d;
  }

  lemma PartsOfFormat(d: Date)
    requires ValidDate(d) && d.year <= 9999
    ensures DateOfText(FormatDate(d)) == d
  {
    var s := FormatDate(d);
    assert s[..4] == Digits(d.year, 4) && s[4..6] == Digits(d.month, 2) && s[6..] == Digits(d.day, 2);
    assert Pow10(4) == 10000 && Pow10(2) == 100;
    ValueOfDigits(d.year, 4);
    ValueOfDigits(d.month, 2);
    ValueOfDigits(d.day, 2);
  }

  lemma BoundRoundTrip(ts: int)
    requires InRange(ts)
    ensures |FormatBound(ts)| == (if ts == 0 then 0 else 8) && IsDigits(FormatBound(ts))
    ensures ParseBound(FormatBound(ts)) == Some(DayStart(ts))
  {
    if ts != 0 {
      var d := DateOf(ts);
      FourDigitYear(ts);
      ParseOfFormat(d);
      assert ToOrdinal(d) - EPOCH == Seconds(ts) / DAY;
    }
  }

  /** What parsing makes of any printed range. */
  lemma ParseOfPrint(r: TimeRange)
    requires InRange(r.start) && InRange(r.stop)
    ensures Parse(TimerangeStr(r)) ==
      if r.start == 0 && r.stop == 0 then Err(IncorrectSyntax)
      else if DayStart(r.start) > DayStart(r.stop) > 0 then Err(StartAfterStop)
      else Ok(TimeRange(r.start != 0, r.stop != 0, DayStart(r.start), DayStart(r.stop)))
  {
    BoundRoundTrip(r.start);
    BoundRoundTrip(r.stop);
    ParseTexts(FormatBound(r.start), FormatBound(r.stop), DayStart(r.start), DayStart(r.stop));
  }

  lemma ParseTexts(before: string, after: string, start: int, stop: int)
    requires IsDigits(before) && IsDigits(after)
    requires (before == "" || |before| == 8) && (after == "" || |after| == 8)
    requires ParseBound(before) == Some(start) && ParseBound(after) == Some(stop)
    ensures Parse(before + "-" + after) ==
      if before == "" && after == "" then Err(IncorrectSyntax)
      else if start > stop > 0 then Err(StartAfterStop)
      else Ok(TimeRange(before != "", after != "", start, stop))
  {
    ParseParts(before, after);
  }

  /** For parts of no or eight digits only the text `-` is rejected by every rule. */
  lemma ParseParts(before: string, after: string)
    requires IsDigits(before) && IsDigits(after)
    requires (before == "" || |before| == 8) && (after == "" || |after| == 8)
    ensures Parse(before + "-" + after) ==
      if before == "" && after == "" then Err(IncorrectSyntax) else FromBounds(before, after)
  {
    ParseBySearch(SYNTAX, before, after);
    assert SYNTAX[0] == Rule(0, 8) && SYNTAX[1] == Rule(8, 0) && SYNTAX[2] == Rule(8, 8);
  }

  /** Ranges that the printer keeps: types match the bounds, whole days, in order, and not read as milliseconds. */
  predicate Printable(r: TimeRange) {
    && (r.startSet <==> r.start != 0) && (r.stopSet <==> r.stop != 0)
    && (r.startSet || r.stopSet)
    && r.start % DAY == 0 && r.stop % DAY == 0
    && r.start <= MAX_SECONDS && r.stop <= MAX_SECONDS
    && !(r.start > r.stop > 0)
  }

  lemma DayStartExactly(ts: int)
    requires InRange(ts)
    ensures DayStart(ts) == ts <==> ts % DAY == 0 && ts <= MAX_SECONDS
  {
    if ts > MAX_SECONDS {
      assert DayStart(ts) <= ts / 1000 < ts;
    }
  }

  /**
    Printing and parsing undo each other on exactly the printable ranges. In particular whole days
    after November 2286 do not survive, because the printer takes their timestamps for milliseconds.
   */
  lemma RoundTripExactly(r: TimeRange)
    requires InRange(r.start) && InRange(r.stop)
    ensures Parse(TimerangeStr(r)) == Ok(r) <==> Printable(r)
  {
    ParseOfPrint(r);
    DayStartExactly(r.start);
    DayStartExactly(r.stop);
  }

  /** A text of eight-digit dates within the printer's reach; the epoch day itself counts as no bound. */
  predicate CanonicalPart(s: string) {
    s == "" || (
      && |s| == 8 && IsDigits(s)
      && var d := DateOfText(s);
         ValidDate(d) && d.year >= 1000 && ToOrdinal(d) != EPOCH && (ToOrdinal(d) - EPOCH) * DAY <= MAX_SECONDS)
  }

  lemma FormatOfParts(year: string, month: string, day: string)
    requires IsDigits(year) && IsDigits(month) && IsDigits(day) && |year| == 4 && |month| == |day| == 2
    ensures FormatDate(Date(Value(year), Value(month), Value(day))) == year + month + day
  {
    DigitsOfValue(year);
    DigitsOfValue(month);
    DigitsOfValue(day);
  }

  lemma FormatOfText(s: string)
    requires |s| == 8 && IsDigits(s)
    ensures FormatDate(DateOfText(s)) == s
  {
    FormatOfParts(s[..4], s[4..6], s[6..]);
    assert s == s[..4] + s[4..6] + s[6..];
  }

  lemma DateOfDay(d: Date)
    requires ValidDate(d) && d.year >= 1000 && (ToOrdinal(d) - EPOCH) * DAY <= MAX_SECONDS
    ensures var ts := (ToOrdinal(d) - EPOCH) * DAY; InRange(ts) && DateOf(ts) == d
  {
    var ts := (ToOrdinal(d) - EPOCH) * DAY;
    WithinYear(d);
    YearsInOrder(1000, d.year);
    assert DaysBeforeYear(1000) == 364877;
    assert ts / DAY == ToOrdinal(d) - EPOCH;
    OrdinalIsInjective(d, DateOf(ts));
  }

  lemma FormatOfParse(s: string)
    requires CanonicalPart(s)
    ensures ParseBound(s).Some? && InRange(ParseBound(s).value) && FormatBound(ParseBound(s).value) == s
  {
    if s != "" {
      var d := DateOfText(s);
      var ts := (ToOrdinal(d) - EPOCH) * DAY;
      DateOfDay(d);
      FormatOfDay(d, ts, s);
      assert ParseBound(s) == Some(ts);
    }
  }

  lemma FormatOfDay(d: Date, ts: int, s: string)
    requires |s| == 8 && IsDigits(s) && d == DateOfText(s)
    requires ts != 0 && InRange(ts) && ts <= MAX_SECONDS && DateOf(ts) == d
    ensures FormatBound(ts) == s
  {
    FormatOfText(s);
  }

  /** The other way around: a canonical text that parses is printed again as it was. */
  lemma PrintOfParse(before: string, after: string)
    requires CanonicalPart(before) && CanonicalPart(after) && Parse(before + "-" + after).Ok?
    ensures var r := Parse(before + "-" + after).value;
      InRange(r.start) && InRange(r.stop) && TimerangeStr(r) == before + "-" + after
  {
    FormatOfParse(before);
    FormatOfParse(after);
    ParseParts(before, after);
  }
}
