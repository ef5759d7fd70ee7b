/** The build stamp: days since 1970-01-01 turned into a Gregorian date, against a day-by-day calendar. */
module CivilDate {
  import opened Arithmetic

  datatype Date = Date(y: int, m: int, d: int)

  // ---------------------------------------------------------------- the naive calendar

  /** The Gregorian leap rule (RFC 3339, Appendix C). */
  predicate IsLeap(y: int) {
    y % 4 == 0 && (y % 100 != 0 || y % 400 == 0)
  }

  function DaysInMonth(y: int, m: int): int {
    if m == 2 then (if IsLeap(y) then 29 else 28) else if m in {4, 6, 9, 11} then 30 else 31
  }

  predicate ValidDate(date: Date) {
    1 <= date.m <= 12 && 1 <= date.d <= DaysInMonth(date.y, date.m)
  }

  function NextDay(date: Date): Date {
    if date.d < DaysInMonth(date.y, date.m) then Date(date.y, date.m, date.d + 1)
    else if date.m < 12 then Date(date.y, date.m + 1, 1)
    else Date(date.y + 1, 1, 1)
  }

  function PreviousDay(date: Date): Date {
    if date.d > 1 then Date(date.y, date.m, date.d - 1)
    else if date.m > 1 then Date(date.y, date.m - 1, DaysInMonth(date.y, date.m - 1))
    else Date(date.y - 1, 12, 31)
  }

  const EPOCH := Date(1970, 1, 1)

  /** The calendar day by day, forwards and backwards from the epoch. */
  function NaiveDate(days: int): Date
    decreases if days < 0 then -days else days
  {
    if days == 0 then EPOCH
    else if days > 0 then NextDay(NaiveDate(days - 1))
    else PreviousDay(NaiveDate(days + 1))
  }

  predicate Before(a: Date, b: Date) {
    a.y < b.y || (a.y == b.y && (a.m < b.m || (a.m == b.m && a.d < b.d)))
  }

  // ---------------------------------------------------------------- the formula

  function YearOfEra(doe: int): int {
    (doe - doe / 1460 + doe / 36524 - doe / 146096) / 365
  }

  function CivilFromDays(days: int): Date {
    var z := days + 719468;
    var era := z / 146097;
    var doe := z % 146097;
    var yoe := YearOfEra(doe);
    var doy := doe - (365 * yoe + yoe / 4 - yoe / 100);
    var mp := (5 * doy + 2) / 153;
    var d := doy - (153 * mp + 2) / 5 + 1;
    var m := if mp < 10 then mp + 3 else mp - 9;
    var y := era * 400 + yoe + (if m <= 2 then 1 else 0);
    Date(y, m, d)
  }

  // ---------------------------------------------------------------- why the formula works

  /** Century, four-year cycle, year and day of the March-based year, within an era. */
  datatype Position = Position(century: int, cycle: int, year: int, day: int) {
    predicate Valid() {
      0 <= century <= 3 && 0 <= cycle <= 24 && 0 <= year <= 3 &&
      0 <= day <= (if HasLeapDay() then 365 else 364)
    }

    /** The March-based year that ends in a leap February. */
    predicate HasLeapDay() {
      year == 3 && (cycle < 24 || century == 3)
    }

    function YearIndex(): int { 100 * century + 4 * cycle + year }

    function DayOfEra(): int { 36524 * century + 1461 * cycle + 365 * year + day }
  }

  function Min(a: int, b: int): int { if a < b then a else b }

  lemma Locate(doe: int) returns (p: Position)
    requires 0 <= doe < 146097
    ensures p.Valid() && p.DayOfEra() == doe
  {
    var century := Min(doe / 36524, 3);
    var inCentury := doe - 36524 * century;
    var cycle := Min(inCentury / 1461, 24);
    var inCycle := inCentury - 1461 * cycle;
    var year := Min(inCycle / 365, 3);
    p := Position(century, cycle, year, inCycle - 365 * year);
  }

  /** The divisions of the formula cancel the leap days exactly. */
  lemma YearOfEraAt(p: Position)
    requires p.Valid()
    ensures 0 <= p.DayOfEra() < 146097
    ensures YearOfEra(p.DayOfEra()) == p.YearIndex()
  {
    var doe := p.DayOfEra();
    var slack := 24 * p.century + p.cycle + 365 * p.year + p.day;
    var extra := if slack >= 1460 then 1 else 0;
    Divides(doe, 1460, 25 * p.century + p.cycle + extra, slack - 1460 * extra);
    var last := if doe == 146096 then 1 else 0;
    Divides(doe, 146096, last, doe - 146096 * last);
    Divides(doe, 36524, p.century + last, doe - 36524 * (p.century + last));
    var corrected := doe - doe / 1460 + doe / 36524 - doe / 146096;
    Divides(corrected, 365, p.YearIndex(), corrected - 365 * p.YearIndex());
  }

  lemma YearIndexDivisions(p: Position)
    requires p.Valid()
    ensures p.YearIndex() / 4 == 25 * p.century + p.cycle && p.YearIndex() / 100 == p.century
  {
    Divides(p.YearIndex(), 4, 25 * p.century + p.cycle, p.year);
    Divides(p.YearIndex(), 100, p.century, 4 * p.cycle + p.year);
  }

  lemma DayOfYear(p: Position)
    requires p.Valid()
    ensures p.DayOfEra() - (365 * p.YearIndex() + p.YearIndex() / 4 - p.YearIndex() / 100) == p.day
  {
    YearIndexDivisions(p);
  }

  /** The formula reads off the position: the March-based year of the era and the day in it. */
  lemma FormulaAt(era: int, p: Position)
    requires p.Valid()
    ensures CivilFromDays(146097 * era + p.DayOfEra() - 719468) == MarchDate(400 * era + p.YearIndex(), p.day)
  {
    hide YearOfEra, p.DayOfEra, p.YearIndex;
    YearOfEraAt(p);
    var doe, yoe := p.DayOfEra(), p.YearIndex();
    Divides(146097 * era + doe, 146097, era, doe);
    assert doe - (365 * yoe + yoe / 4 - yoe / 100) == p.day by { DayOfYear(p); }
  }

  /** Day `doy` of the year that starts on March 1 of `year`. */
  function MarchDate(year: int, doy: int): Date {
    var mp := (5 * doy + 2) / 153;
    var m := if mp < 10 then mp + 3 else mp - 9;
    Date(year + (if m <= 2 then 1 else 0), m, doy - (153 * mp + 2) / 5 + 1)
  }

  lemma LeapDays(era: int, p: Position)
    requires p.Valid()
    ensures IsLeap(400 * era + p.YearIndex() + 1) <==> p.HasLeapDay()
  {
    var y := 400 * era + p.YearIndex() + 1;
    var carry := if p.year == 3 then 1 else 0;
    Divides(y, 4, 100 * era + 25 * p.century + p.cycle + carry, p.year + 1 - 4 * carry);
    var full := if p.year == 3 && p.cycle == 24 then 1 else 0;
    Divides(y, 100, 4 * era + p.century + full, 4 * p.cycle + p.year + 1 - 100 * full);
    var eraEnd := if full == 1 && p.century == 3 then 1 else 0;
    Divides(y, 400, era + eraEnd, p.YearIndex() + 1 - 400 * eraEnd);
  }

  /** Within a March-based year, consecutive days are consecutive dates. */
  lemma MarchDateSteps(year: int, doy: int)
    requires 0 <= doy <= (if IsLeap(year + 1) then 365 else 364)
    ensures ValidDate(MarchDate(year, doy))
    ensures doy < (if IsLeap(year + 1) then 365 else 364)
            ==> MarchDate(year, doy + 1) == NextDay(MarchDate(year, doy))
    ensures doy == (if IsLeap(year + 1) then 365 else 364)
            ==> MarchDate(year + 1, 0) == NextDay(MarchDate(year, doy))
  {
  }

  /** The position of the next day within the era. */
  lemma NextPosition(p: Position) returns (next: Position)
    requires p.Valid() && p.DayOfEra() < 146096
    ensures next.Valid() && next.DayOfEra() == p.DayOfEra() + 1
    ensures var last := if p.HasLeapDay() then 365 else 364;
            if p.day < last then next.YearIndex() == p.YearIndex() && next.day == p.day + 1
            else next.YearIndex() == p.YearIndex() + 1 && next.day == 0 && p.day == last
  {
    next :=
      if p.day < (if p.HasLeapDay() then 365 else 364) then p.(day := p.day + 1)
      else if p.year < 3 then p.(year := p.year + 1, day := 0)
      else if p.cycle < 24 then p.(cycle := p.cycle + 1, year := 0, day := 0)
      else p.(century := p.century + 1, cycle := 0, year := 0, day := 0);
  }

  /** The formula refines the calendar: each day is followed by the next date. */
  lemma CivilSteps(days: int)
    ensures ValidDate(CivilFromDays(days))
    ensures CivilFromDays(days + 1) == NextDay(CivilFromDays(days))
  {
    hide *;
    var era, doe := EraOf(days);
    var p := Locate(doe);
    FormulaAt(era, p);
    PositionIsDay(era, p);
    MarchDateSteps(400 * era + p.YearIndex(), p.day);
    if doe < 146096 {
      var next := NextPosition(p);
      FormulaAt(era, next);
      assert 146097 * era + next.DayOfEra() - 719468 == days + 1;
      if next.day == 0 {
        assert 400 * era + next.YearIndex() == 400 * era + p.YearIndex() + 1;
      }
    } else {
      var first := Position(0, 0, 0, 0);
      LastOfEra(p);
      FormulaAt(era + 1, first);
      assert 146097 * (era + 1) + first.DayOfEra() - 719468 == days + 1;
      assert 400 * (era + 1) + first.YearIndex() == 400 * era + p.YearIndex() + 1;
    }
  }

  lemma PositionIsDay(era: int, p: Position)
    requires p.Valid()
    ensures IsLeap(400 * era + p.YearIndex() + 1) <==> p.HasLeapDay()
    ensures 0 <= p.day <= (if p.HasLeapDay() then 365 else 364)
  {
    LeapDays(era, p);
  }

  lemma EraOf(days: int) returns (era: int, doe: int)
    ensures 0 <= doe < 146097 && days == 146097 * era + doe - 719468
  {
    era, doe := (days + 719468) / 146097, (days + 719468) % 146097;
  }

  lemma LastOfEra(p: Position)
    requires p.Valid() && p.DayOfEra() == 146096
    ensures p.YearIndex() == 399 && p.day == 365 && p.HasLeapDay()
    ensures Position(0, 0, 0, 0).Valid() && Position(0, 0, 0, 0).DayOfEra() == 0 &&
            Position(0, 0, 0, 0).YearIndex() == 0
  {
  }

  lemma CivilEpoch()
    ensures CivilFromDays(0) == EPOCH
  {
    hide CivilFromDays, MarchDate, Position.Valid, Position.DayOfEra, Position.YearIndex;
    var p := Position(3, 17, 1, 306);
    EpochPosition(p);
    FormulaAt(4, p);
  }

  lemma EpochPosition(p: Position)
    requires p == Position(3, 17, 1, 306)
    ensures p.Valid() && 146097 * 4 + p.DayOfEra() == 719468 && MarchDate(400 * 4 + p.YearIndex(), p.day) == EPOCH
  {
  }

  lemma PreviousUndoesNext(date: Date)
    requires ValidDate(date)
    ensures ValidDate(NextDay(date)) && PreviousDay(NextDay(date)) == date && Before(date, NextDay(date))
  {
  }

  /** For every day count, before or after the epoch, the formula gives the calendar's date. */
  lemma {:induction false} CivilIsNaive(days: int)
    ensures CivilFromDays(days) == NaiveDate(days)
    decreases if days < 0 then -days else days
  {
    hide CivilFromDays;
    if days == 0 {
      CivilEpoch();
    } else if days > 0 {
      CivilIsNaive(days - 1);
      CivilSteps(days - 1);
    } else {
      CivilIsNaive(days + 1);
      CivilSteps(days);
      PreviousUndoesNext(CivilFromDays(days));
    }
  }

  lemma {:induction false} CivilIncreases(days: int, later: int)
    requires days < later
    ensures Before(CivilFromDays(days), CivilFromDays(later))
    decreases later - days
  {
    hide CivilFromDays;
    CivilSteps(later - 1);
    PreviousUndoesNext(CivilFromDays(later - 1));
    if days < later - 1 { CivilIncreases(days, later - 1); }
  }

  /** Every valid date is the date of some day, which is unique by `CivilIncreases`. */
  lemma EveryDateReached(date: Date) returns (days: int)
    requires ValidDate(date)
    ensures CivilFromDays(days) == date
  {
    hide CivilFromDays, MarchDate, IsLeap;
    var mp := if date.m > 2 then date.m - 3 else date.m + 9;
    var year := if date.m > 2 then date.y else date.y - 1;
    var doy := (153 * mp + 2) / 5 + date.d - 1;
    DayOfMarchYear(date, mp, year, doy);
    var era, p := EraAndPosition(year, doy);
    FormulaAt(era, p);
    days := 146097 * era + p.DayOfEra() - 719468;
  }

  lemma EraAndPosition(year: int, doy: int) returns (era: int, p: Position)
    requires 0 <= doy <= (if IsLeap(year + 1) then 365 else 364)
    ensures p.Valid() && p.day == doy && 400 * era + p.YearIndex() == year
  {
    hide IsLeap;
    era := year / 400;
    var index := year % 400;
    var start := Position(index / 100, index % 100 / 4, index % 4, 0);
    assert start.YearIndex() == index;
    LeapDays(era, start);
    p := start.(day := doy);
  }

  lemma DayOfMarchYear(date: Date, mp: int, year: int, doy: int)
    requires ValidDate(date)
    requires mp == (if date.m > 2 then date.m - 3 else date.m + 9)
    requires year == (if date.m > 2 then date.y else date.y - 1)
    requires doy == (153 * mp + 2) / 5 + date.d - 1
    ensures 0 <= doy <= (if IsLeap(year + 1) then 365 else 364)
    ensures MarchDate(year, doy) == date
  {
    MonthStarts(mp);
    Divides(5 * doy + 2, 153, mp, 5 * doy + 2 - 153 * mp);
  }

  const MONTH_STARTS := [0, 31, 61, 92, 122, 153, 184, 214, 245, 275, 306, 337]

  /** The month formula gives the first day of each month of the March-based year. */
  lemma MonthStarts(mp: int)
    requires 0 <= mp < 12
    ensures (153 * mp + 2) / 5 == MONTH_STARTS[mp]
  {
    Divides(153 * mp + 2, 5, MONTH_STARTS[mp], 153 * mp + 2 - 5 * MONTH_STARTS[mp]);
  }

  // ---------------------------------------------------------------- the stamp

  datatype Stamp = Stamp(date: Date, h: int, mi: int, s: int)

  function StampOf(secs: int): Stamp {
    var days, rem := secs / 86400, secs % 86400;
    Stamp(CivilFromDays(days), rem / 3600, rem % 3600 / 60, rem % 60)
  }

  predicate StampBefore(a: Stamp, b: Stamp) {
    Before(a.date, b.date) ||
    (a.date == b.date && (a.h < b.h || (a.h == b.h && (a.mi < b.mi || (a.mi == b.mi && a.s < b.s)))))
  }

  /** The stamp of a clock time counts the seconds since the epoch: whole days, then hours, minutes and seconds. */
  lemma StampCounts(secs: int) returns (days: int)
    ensures StampOf(secs).date == NaiveDate(days)
    ensures secs == 86400 * days + 3600 * StampOf(secs).h + 60 * StampOf(secs).mi + StampOf(secs).s
    ensures 0 <= StampOf(secs).h < 24 && 0 <= StampOf(secs).mi < 60 && 0 <= StampOf(secs).s < 60
  {
    hide CivilFromDays;
    days := secs / 86400;
    CivilIsNaive(days);
    TimeOfDay(secs % 86400);
  }

  lemma TimeOfDay(rem: int)
    requires 0 <= rem < 86400
    ensures 0 <= rem / 3600 < 24 && 0 <= rem % 3600 / 60 < 60 && 0 <= rem % 60 < 60
    ensures rem == 3600 * (rem / 3600) + 60 * (rem % 3600 / 60) + rem % 60
  {
  }

  /** The stamp is a valid date and time, and strictly later seconds have strictly later stamps. */
  lemma StampIncreases(secs: int, later: int)
    requires secs < later
    ensures StampBefore(StampOf(secs), StampOf(later))
  {
    hide CivilFromDays, Before;
    TimeOfDay(secs % 86400);
    TimeOfDay(later % 86400);
    if secs / 86400 < later / 86400 {
      CivilIncreases(secs / 86400, later / 86400);
    }
  }

  // ---------------------------------------------------------------- the text (RFC 3339, section 5.6)

  function Digit(n: int): char
    requires 0 <= n < 10
  {
    '0' + n as char
  }

  function TwoDigits(n: int): string
    requires 0 <= n < 100
  {
    [Digit(n / 10), Digit(n % 10)]
  }

  function Digits(n: int): string
    requires n >= 0
  {
    if n < 10 then [Digit(n)] else Digits(n / 10) + [Digit(n % 10)]
  }

  /** At least four digits. */
  function YearText(y: int): string
    requires y >= 0
  {
    if y < 10000 then TwoDigits(y / 100) + TwoDigits(y % 100) else Digits(y)
  }

  predicate Printable(stamp: Stamp) {
    stamp.date.y >= 0 && ValidDate(stamp.date) && 0 <= stamp.h < 24 && 0 <= stamp.mi < 60 && 0 <= stamp.s < 60
  }

  function Text(stamp: Stamp): string
    requires Printable(stamp)
  {
    YearText(stamp.date.y) +
      ("-" + (TwoDigits(stamp.date.m) + ("-" + (TwoDigits(stamp.date.d) + ("T" + TimeText(stamp))))))
  }

  function TimeText(stamp: Stamp): string
    requires Printable(stamp)
  {
    TwoDigits(stamp.h) + (":" + (TwoDigits(stamp.mi) + (":" + (TwoDigits(stamp.s) + "Z"))))
  }

  /** Clock times at or after the epoch always print. */
  function BuiltAt(secs: int): string
    requires secs >= 0
  {
    StampPrints(secs);
    Text(StampOf(secs))
  }

  lemma StampPrints(secs: int)
    requires secs >= 0
    ensures Printable(StampOf(secs)) && StampOf(secs).date.y >= 1970
  {
    hide CivilFromDays;
    var days := secs / 86400;
    TimeOfDay(secs % 86400);
    CivilSteps(days);
    CivilEpoch();
    if days > 0 { CivilIncreases(0, days); }
  }

  // ---------------------------------------------------------------- reading the text

  /** The number that decimal digits write. */
  function NumberOf(text: string): int {
    if text == "" then 0
    else 10 * NumberOf(text[..|text| - 1]) + (text[|text| - 1] as int - '0' as int)
  }

  predicate AllDigits(text: string) {
    forall c :: c in text ==> '0' <= c <= '9'
  }

  lemma {:induction false} DigitsRead(n: int)
    requires n >= 0
    ensures NumberOf(Digits(n)) == n && AllDigits(Digits(n))
  {
    if n < 10 {
      assert Digits(n)[..0] == "";
    } else {
      DigitsRead(n / 10);
      assert Digits(n)[..|Digits(n)| - 1] == Digits(n / 10);
    }
  }

  lemma TwoDigitsRead(n: int)
    requires 0 <= n < 100
    ensures NumberOf(TwoDigits(n)) == n && AllDigits(TwoDigits(n))
  {
    assert TwoDigits(n)[..1] == [Digit(n / 10)] && [Digit(n / 10)][..0] == "";
    assert NumberOf([Digit(n / 10)]) == n / 10;
  }

  lemma YearRead(y: int)
    requires y >= 0
    ensures NumberOf(YearText(y)) == y && AllDigits(YearText(y))
  {
    if y < 10000 {
      var high, low := TwoDigits(y / 100), TwoDigits(y % 100);
      TwoDigitsRead(y / 100);
      assert YearText(y)[..3] == high + [low[0]] && (high + [low[0]])[..2] == high;
      assert NumberOf(high + [low[0]]) == 10 * (y / 100) + y % 100 / 10;
    } else {
      DigitsRead(y);
    }
  }

  /** The text is `YYYY-MM-DDTHH:MM:SSZ`, with each field written in decimal digits. */
  lemma TextReads(stamp: Stamp)
    requires Printable(stamp)
    ensures var text := Text(stamp);
            var w := |text| - 16;
            w >= 4 && (stamp.date.y < 10000 ==> w == 4) &&
            text[w] == '-' && text[w + 3] == '-' && text[w + 6] == 'T' && text[w + 9] == ':' && text[w + 12] == ':' &&
            text[w + 15] == 'Z' &&
            AllDigits(text[..w] + text[w + 1..w + 3] + text[w + 4..w + 6]) &&
            AllDigits(text[w + 7..w + 9] + text[w + 10..w + 12] + text[w + 13..w + 15]) &&
            NumberOf(text[..w]) == stamp.date.y && NumberOf(text[w + 1..w + 3]) == stamp.date.m &&
            NumberOf(text[w + 4..w + 6]) == stamp.date.d && NumberOf(text[w + 7..w + 9]) == stamp.h &&
            NumberOf(text[w + 10..w + 12]) == stamp.mi && NumberOf(text[w + 13..w + 15]) == stamp.s
  {
    hide TwoDigits, YearText, Text, TimeText;
    var text := Text(stamp);
    var w := |YearText(stamp.date.y)|;
    YearRead(stamp.date.y);
    YearWidth(stamp.date.y);
    TwoDigitsRead(stamp.date.m);
    TwoDigitsRead(stamp.date.d);
    TwoDigitsRead(stamp.h);
    TwoDigitsRead(stamp.mi);
    TwoDigitsRead(stamp.s);
    TextFields(stamp);
    TimeFields(stamp);
    var time := text[w + 7..];
    assert text[w + 7..w + 9] == time[..2] && text[w + 10..w + 12] == time[3..5] && text[w + 13..w + 15] == time[6..8];
    AllInBoth(text[..w], text[w + 1..w + 3], text[w + 4..w + 6]);
    AllInBoth(text[w + 7..w + 9], text[w + 10..w + 12], text[w + 13..w + 15]);
  }

  lemma AllInBoth(a: string, b: string, c: string)
    requires AllDigits(a) && AllDigits(b) && AllDigits(c)
    ensures AllDigits(a + b + c)
  {
  }

  lemma TextFields(stamp: Stamp)
    requires Printable(stamp)
    ensures var text, w := Text(stamp), |YearText(stamp.date.y)|;
            |text| == w + 16 && text[..w] == YearText(stamp.date.y) && text[w] == '-' &&
            text[w + 1..w + 3] == TwoDigits(stamp.date.m) && text[w + 3] == '-' &&
            text[w + 4..w + 6] == TwoDigits(stamp.date.d) && text[w + 6] == 'T' && text[w + 7..] == TimeText(stamp)
  {
    hide YearText, TimeText;
    TimeFields(stamp);
    var text, year := Text(stamp), YearText(stamp.date.y);
    var w := |year|;
    var month, day, time := TwoDigits(stamp.date.m), TwoDigits(stamp.date.d), TimeText(stamp);
    assert text == year + ("-" + (month + ("-" + (day + ("T" + time)))));
    assert text[w..] == "-" + (month + ("-" + (day + ("T" + time))));
    assert text[w + 1..] == month + ("-" + (day + ("T" + time)));
    assert text[w + 3..] == "-" + (day + ("T" + time));
    assert text[w + 4..] == day + ("T" + time);
  }

  lemma TimeFields(stamp: Stamp)
    requires Printable(stamp)
    ensures var time := TimeText(stamp);
            |time| == 9 && time[..2] == TwoDigits(stamp.h) && time[2] == ':' && time[3..5] == TwoDigits(stamp.mi) &&
            time[5] == ':' && time[6..8] == TwoDigits(stamp.s) && time[8] == 'Z'
  {
    hide Digit;
  }

  /** Character-by-character order of two texts. */
  predicate TextBefore(a: string, b: string) {
    if b == "" then false
    else if a == "" then true
    else a[0] < b[0] || (a[0] == b[0] && TextBefore(a[1..], b[1..]))
  }

  lemma {:induction false} TextPrefix(pre: string, a: string, b: string)
    ensures TextBefore(pre + a, pre + b) <==> TextBefore(a, b)
  {
    if pre == "" {
      assert pre + a == a && pre + b == b;
    } else {
      assert (pre + a)[1..] == pre[1..] + a && (pre + b)[1..] == pre[1..] + b;
      TextPrefix(pre[1..], a, b);
    }
  }

  lemma {:induction false} FieldBefore(a: string, x: string, b: string, y: string)
    requires |a| == |b| && TextBefore(a, b)
    ensures TextBefore(a + x, b + y)
  {
    assert (a + x)[0] == a[0] && (b + y)[0] == b[0];
    if a[0] == b[0] {
      FieldBefore(a[1..], x, b[1..], y);
      assert (a + x)[1..] == a[1..] + x && (b + y)[1..] == b[1..] + y;
    }
  }

  /** One field of the text: equal fields defer to the rest, a smaller one decides. */
  lemma FieldOrder(a: string, x: string, b: string, y: string)
    requires |a| == |b| && (TextBefore(a, b) || (a == b && TextBefore(x, y)))
    ensures TextBefore(a + x, b + y)
  {
    if TextBefore(a, b) { FieldBefore(a, x, b, y); } else { TextPrefix(a, x, y); }
  }

  lemma TwoDigitOrder(n: int, x: string, k: int, y: string)
    requires 0 <= n < 100 && 0 <= k < 100 && (n < k || (n == k && TextBefore(x, y)))
    ensures TextBefore(TwoDigits(n) + x, TwoDigits(k) + y)
  {
    if n < k {
      assert n / 10 < k / 10 || (n / 10 == k / 10 && n % 10 < k % 10);
      assert TwoDigits(n)[1..] == [Digit(n % 10)] && TwoDigits(k)[1..] == [Digit(k % 10)];
    }
    FieldOrder(TwoDigits(n), x, TwoDigits(k), y);
  }

  lemma ShortYearOrder(n: int, x: string, k: int, y: string)
    requires 0 <= n < 10000 && 0 <= k < 10000 && (n < k || (n == k && TextBefore(x, y)))
    ensures TextBefore(YearText(n) + x, YearText(k) + y)
  {
    assert n < k ==> n / 100 <= k / 100;
    if n < k {
      if n / 100 == k / 100 {
        TwoDigitOrder(n % 100, "", k % 100, "");
        TwoDigitOrder(n / 100, TwoDigits(n % 100) + "", k / 100, TwoDigits(k % 100) + "");
        assert TwoDigits(n % 100) + "" == TwoDigits(n % 100) && TwoDigits(k % 100) + "" == TwoDigits(k % 100);
      } else {
        TwoDigitOrder(n / 100, TwoDigits(n % 100), k / 100, TwoDigits(k % 100));
      }
    }
    FieldOrder(YearText(n), x, YearText(k), y);
  }

  lemma {:induction false} DigitsOrder(n: int, k: int)
    requires 0 <= n < k && |Digits(n)| == |Digits(k)|
    ensures TextBefore(Digits(n), Digits(k))
  {
    hide TextBefore;
    if n < 10 {
      DigitOrder(n, k);
    } else {
      if n / 10 < k / 10 { DigitsOrder(n / 10, k / 10); } else { DigitOrder(n % 10, k % 10); }
      FieldOrder(Digits(n / 10), [Digit(n % 10)], Digits(k / 10), [Digit(k % 10)]);
    }
  }

  lemma DigitOrder(n: int, k: int)
    requires 0 <= n < k < 10
    ensures TextBefore([Digit(n)], [Digit(k)])
  {
  }

  lemma {:induction false} DigitsLonger(n: int, k: int)
    requires 0 <= n <= k
    ensures |Digits(n)| <= |Digits(k)|
  {
    if n >= 10 { DigitsLonger(n / 10, k / 10); }
  }

  /** Years up to 9999 take four digits, later ones more. */
  lemma YearWidth(y: int)
    requires y >= 0
    ensures |YearText(y)| >= 4 && (|YearText(y)| == 4 <==> y < 10000)
  {
    if y >= 10000 {
      DigitsLonger(10000, y);
      assert |Digits(10)| == 2 && |Digits(100)| == 3 && |Digits(1000)| == 4 && |Digits(10000)| == 5;
    }
  }

  lemma YearOrder(n: int, x: string, k: int, y: string)
    requires 0 <= n && 0 <= k && |YearText(n)| == |YearText(k)| && (n < k || (n == k && TextBefore(x, y)))
    ensures TextBefore(YearText(n) + x, YearText(k) + y)
  {
    hide TextBefore, TwoDigits, Digits;
    YearWidth(n);
    YearWidth(k);
    if k < 10000 {
      ShortYearOrder(n, x, k, y);
    } else {
      if n < k { DigitsOrder(n, k); }
      FieldOrder(YearText(n), x, YearText(k), y);
    }
  }

  lemma TimeOrder(a: Stamp, b: Stamp)
    requires Printable(a) && Printable(b)
    requires a.h < b.h || (a.h == b.h && (a.mi < b.mi || (a.mi == b.mi && a.s < b.s)))
    ensures TextBefore(TimeText(a), TimeText(b))
  {
    hide TwoDigits, TextBefore;
    if a.h == b.h {
      if a.mi == b.mi {
        TwoDigitOrder(a.s, "Z", b.s, "Z");
        TextPrefix(":", TwoDigits(a.s) + "Z", TwoDigits(b.s) + "Z");
      }
      TwoDigitOrder(a.mi, ":" + (TwoDigits(a.s) + "Z"), b.mi, ":" + (TwoDigits(b.s) + "Z"));
      TextPrefix(":", TwoDigits(a.mi) + (":" + (TwoDigits(a.s) + "Z")),
          TwoDigits(b.mi) + (":" + (TwoDigits(b.s) + "Z")));
    }
    TwoDigitOrder(a.h, ":" + (TwoDigits(a.mi) + (":" + (TwoDigits(a.s) + "Z"))),
                  b.h, ":" + (TwoDigits(b.mi) + (":" + (TwoDigits(b.s) + "Z"))));
  }

  lemma TextOrder(a: Stamp, b: Stamp)
    requires Printable(a) && Printable(b) && StampBefore(a, b)
    requires |YearText(a.date.y)| == |YearText(b.date.y)|
    ensures TextBefore(Text(a), Text(b))
  {
    hide TwoDigits, YearText, TimeText, TextBefore;
    var dayA, dayB := TwoDigits(a.date.d) + ("T" + TimeText(a)), TwoDigits(b.date.d) + ("T" + TimeText(b));
    var monthA, monthB := TwoDigits(a.date.m) + ("-" + dayA), TwoDigits(b.date.m) + ("-" + dayB);
    if a.date.y == b.date.y {
      if a.date.m == b.date.m {
        if a.date.d == b.date.d {
          TimeOrder(a, b);
          TextPrefix("T", TimeText(a), TimeText(b));
        }
        TwoDigitOrder(a.date.d, "T" + TimeText(a), b.date.d, "T" + TimeText(b));
        TextPrefix("-", dayA, dayB);
      }
      TwoDigitOrder(a.date.m, "-" + dayA, b.date.m, "-" + dayB);
      TextPrefix("-", monthA, monthB);
    }
    YearOrder(a.date.y, "-" + monthA, b.date.y, "-" + monthB);
  }

  /** Digits of the year at a clock time. */
  function YearDigits(secs: int): (digits: nat)
    requires secs >= 0
    ensures digits == 4 <==> StampOf(secs).date.y < 10000
  {
    StampPrints(secs);
    YearWidth(StampOf(secs).date.y);
    |YearText(StampOf(secs).date.y)|
  }

  /** While the year keeps its number of digits, later builds have later text. */
  lemma BuiltAtIncreases(secs: int, later: int)
    requires 0 <= secs < later && YearDigits(secs) == YearDigits(later)
    ensures TextBefore(BuiltAt(secs), BuiltAt(later))
  {
    hide StampOf, Text;
    StampPrints(secs);
    StampPrints(later);
    StampIncreases(secs, later);
    TextOrder(StampOf(secs), StampOf(later));
  }

  /** The text of a build time tells it apart from every other one. */
  lemma BuiltAtDistinct(secs: int, later: int)
    requires 0 <= secs < later
    ensures BuiltAt(secs) != BuiltAt(later)
  {
    hide StampOf, Text, TextBefore;
    if YearDigits(secs) == YearDigits(later) {
      BuiltAtIncreases(secs, later);
      TextIrreflexive(BuiltAt(secs));
    } else {
      StampPrints(secs);
      StampPrints(later);
      TextLength(StampOf(secs));
      TextLength(StampOf(later));
    }
  }

  lemma TextLength(stamp: Stamp)
    requires Printable(stamp)
    ensures |Text(stamp)| == |YearText(stamp.date.y)| + 16
  {
  }

  /** The first second of the year 10000. */
  const FIVE_DIGITS := 253402300800

  lemma FiveDigitsBegin()
    ensures StampOf(FIVE_DIGITS - 1) == Stamp(Date(9999, 12, 31), 23, 59, 59)
    ensures StampOf(FIVE_DIGITS) == Stamp(Date(10000, 1, 1), 0, 0, 0)
  {
    hide CivilFromDays;
    Divides(FIVE_DIGITS - 1, 86400, 2932896, 86399);
    Divides(FIVE_DIGITS, 86400, 2932897, 0);
    LastOfFourDigits();
    CivilSteps(2932896);
  }

  lemma LastOfFourDigits()
    ensures CivilFromDays(2932896) == Date(9999, 12, 31)
  {
    hide CivilFromDays, MarchDate, Position.Valid, Position.DayOfEra, Position.YearIndex;
    var p := Position(3, 24, 3, 305);
    FourDigitsPosition(p);
    FormulaAt(24, p);
  }

  lemma FourDigitsPosition(p: Position)
    requires p == Position(3, 24, 3, 305)
    ensures p.Valid() && 146097 * 24 + p.DayOfEra() - 719468 == 2932896
    ensures MarchDate(400 * 24 + p.YearIndex(), p.day) == Date(9999, 12, 31)
  {
  }

  /** Stamps of the year 10000 sort before stamps of 9999. */
  lemma FiveDigitsSortFirst(secs: int, later: int)
    requires 0 <= secs && 0 <= later && StampOf(secs).date.y == 9999 && StampOf(later).date.y == 10000
    ensures TextBefore(BuiltAt(later), BuiltAt(secs))
  {
    hide StampOf;
    StampPrints(secs);
    StampPrints(later);
    assert YearText(9999)[0] == '9';
    assert Digits(1000) == Digits(100) + ['0'] && Digits(100) == Digits(10) + ['0'] && Digits(10) == ['1', '0'];
    assert YearText(10000)[0] == '1';
  }

  /** One second apart, and the later text sorts first. */
  lemma FifthDigitBreaksOrder()
    ensures TextBefore(BuiltAt(FIVE_DIGITS), BuiltAt(FIVE_DIGITS - 1))
  {
    hide StampOf, BuiltAt, TextBefore;
    FiveDigitsBegin();
    FiveDigitsSortFirst(FIVE_DIGITS - 1, FIVE_DIGITS);
  }

  /** Up to a time, the text of every later build sorts after that of every earlier one. */
  ghost predicate TextFollowsTime(t: int) {
    forall secs, later :: 0 <= secs < later <= t ==> TextBefore(BuiltAt(secs), BuiltAt(later))
  }

  /** The text order is the order of time exactly up to the end of the year 9999. */
  lemma TextFollowsTimeUntil(t: int)
    ensures TextFollowsTime(t) <==> t < FIVE_DIGITS
  {
    hide StampOf, BuiltAt, TextBefore;
    FiveDigitsBegin();
    if t < FIVE_DIGITS {
      forall secs, later | 0 <= secs < later <= t
        ensures TextBefore(BuiltAt(secs), BuiltAt(later))
      {
        FourDigits(secs);
        FourDigits(later);
        BuiltAtIncreases(secs, later);
      }
    } else {
      FifthDigitBreaksOrder();
      TextAsymmetric(BuiltAt(FIVE_DIGITS), BuiltAt(FIVE_DIGITS - 1));
    }
  }

  lemma FourDigits(secs: int)
    requires 0 <= secs < FIVE_DIGITS
    ensures YearDigits(secs) == 4
  {
    hide StampOf;
    FiveDigitsBegin();
    StampIncreases(secs, FIVE_DIGITS);
    StampPrints(secs);
  }

  lemma {:induction false} TextAsymmetric(a: string, b: string)
    requires TextBefore(a, b)
    ensures !TextBefore(b, a)
  {
    if a != "" && a[0] == b[0] { TextAsymmetric(a[1..], b[1..]); }
  }

  lemma {:induction false} TextIrreflexive(a: string)
    ensures !TextBefore(a, a)
  {
    if a != "" { TextIrreflexive(a[1..]); }
  }
}
