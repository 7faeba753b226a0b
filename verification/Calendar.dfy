/**
 Dates as the store keeps them. A date is a day number counted from 1970-01-01
 (`std::chrono::sys_days`); a column holds it as text, `YYYY-MM-DD`.
 */
module Calendar {
  import opened Wrappers
  import opened Decimal

  /** Day number of 0000-01-01 with the sign reversed: days from there to 1970-01-01. */
  const EPOCH: nat := 719528

  /** The days a date column can hold: 0000-01-01 up to 9999-12-31. */
  const MIN_DAY: int := -719528
  const MAX_DAY: int := 2932896

  type Day = d: int | MIN_DAY <= d <= MAX_DAY witness 0

  datatype Civil = Civil(year: nat, month: nat, day: nat)

  predicate Leap(y: nat) { y % 4 == 0 && (y % 100 != 0 || y % 400 == 0) }

  function YearLength(y: nat): nat { if Leap(y) then 366 else 365 }

  function MonthLength(y: nat, m: nat): nat {
    if m == 2 then (if Leap(y) then 29 else 28)
    else if m == 4 || m == 6 || m == 9 || m == 11 then 30
    else 31
  }

  predicate IsDate(c: Civil) {
    1 <= c.month <= 12 && 1 <= c.day <= MonthLength(c.year, c.month)
  }

  /** Days from 0000-01-01 to the first day of year `y`: 365 a year, and a day for every leap
      year before it. */
  function YearStart(y: nat): nat {
    365 * y + (y + 3) / 4 - (y + 99) / 100 + (y + 399) / 400
  }

  /** Days from the first day of the year to the first day of month `m`. */
  function MonthStart(y: nat, m: nat): nat {
    if m <= 1 then 0 else MonthStart(y, m - 1) + MonthLength(y, m - 1)
  }

  function DayOfCivil(c: Civil): int {
    YearStart(c.year) + MonthStart(c.year, c.month) + c.day - 1 - EPOCH
  }

  lemma CountMultiples(p: nat, k: nat)
    requires k == 4 || k == 100 || k == 400
    ensures (p + k) / k == (p + k - 1) / k + (if p % k == 0 then 1 else 0)
  {
  }

  lemma NestedMultiples(p: nat)
    ensures p % 400 == 0 ==> p % 100 == 0
    ensures p % 100 == 0 ==> p % 4 == 0
  {
    var century, quad := p / 100, p / 400;
    if p % 400 == 0 { assert p == 100 * (4 * quad); }
    if p % 100 == 0 { assert p == 4 * (25 * century); }
  }

  /** The closed form counts exactly the leap years: each year adds its own length. */
  lemma YearStartStep(y: nat)
    ensures YearStart(0) == 0 && YearStart(y + 1) == YearStart(y) + YearLength(y)
  {
    CountMultiples(y, 4);
    CountMultiples(y, 100);
    CountMultiples(y, 400);
    NestedMultiples(y);
  }

  function FindYear(n: nat, y: nat): (r: nat)
    requires YearStart(y) <= n
    ensures YearStart(r) <= n < YearStart(r) + YearLength(r)
    decreases n - YearStart(y)
  {
    YearStartStep(y);
    if n < YearStart(y) + YearLength(y) then y else FindYear(n, y + 1)
  }

  function FindMonth(y: nat, n: nat, m: nat): (r: nat)
    requires 1 <= m <= 12 && MonthStart(y, m) <= n < YearLength(y)
    ensures m <= r <= 12 && MonthStart(y, r) <= n < MonthStart(y, r) + MonthLength(y, r)
    decreases 12 - m
  {
    MonthsFillYear(y);
    if n < MonthStart(y, m) + MonthLength(y, m) then m else FindMonth(y, n, m + 1)
  }

  function CivilOfDay(day: int): (c: Civil)
    requires MIN_DAY <= day
    ensures IsDate(c) && DayOfCivil(c) == day
  {
    hide YearStart, YearLength, MonthLength, MonthStart;
    var n := day + EPOCH;
    FirstDays();
    var y := FindYear(n, 0);
    var m := FindMonth(y, n - YearStart(y), 1);
    Civil(y, m, n - YearStart(y) - MonthStart(y, m) + 1)
  }

  lemma FirstDays()
    ensures YearStart(0) == 0 && forall y :: MonthStart(y, 1) == 0
  {
  }

  lemma MonthsFillYear(y: nat)
    ensures MonthStart(y, 12) + MonthLength(y, 12) == YearLength(y)
  {
    assert MonthStart(y, 2) == MonthStart(y, 1) + 31 == 31;
    assert MonthStart(y, 3) == 31 + MonthLength(y, 2);
    assert MonthStart(y, 4) == MonthStart(y, 3) + MonthLength(y, 3) == 59 + (YearLength(y) - 365) + 31;
    assert MonthStart(y, 6) == MonthStart(y, 5) + MonthLength(y, 5) == MonthStart(y, 4) + 61;
    assert MonthStart(y, 8) == MonthStart(y, 7) + MonthLength(y, 7) == MonthStart(y, 6) + 61;
    assert MonthStart(y, 10) == MonthStart(y, 9) + MonthLength(y, 9) == MonthStart(y, 8) + 61;
    assert MonthStart(y, 12) == MonthStart(y, 11) + MonthLength(y, 11) == MonthStart(y, 10) + 61;
  }

  lemma MonthStartOfDecember(y: nat)
    ensures MonthStart(y, 1) == 0 && MonthStart(y, 12) == YearLength(y) - 31
  {
    MonthsFillYear(y);
  }

  /** Day 0 is 1970-01-01. */
  lemma EpochAnchor()
    ensures DayOfCivil(Civil(1970, 1, 1)) == 0
  {
    hide MonthStart;
    MonthStartOfDecember(1970);
  }

  lemma FirstDayAnchor()
    ensures DayOfCivil(Civil(0, 1, 1)) == MIN_DAY
  {
    hide MonthStart;
    MonthStartOfDecember(0);
  }

  lemma LastDayAnchor()
    ensures DayOfCivil(Civil(9999, 12, 31)) == MAX_DAY
  {
    hide MonthStart;
    MonthStartOfDecember(9999);
  }

  lemma {:induction false} YearStartGrows(a: nat, b: nat)
    requires a < b
    ensures YearStart(a) + YearLength(a) <= YearStart(b)
    decreases b
  {
    hide YearStart, YearLength;
    YearStartStep(b - 1);
    if a < b - 1 { YearStartGrows(a, b - 1); }
  }

  lemma {:induction false} MonthStartGrows(y: nat, a: nat, b: nat)
    requires 1 <= a < b
    ensures MonthStart(y, a) + MonthLength(y, a) <= MonthStart(y, b)
    decreases b
  {
    if a < b - 1 { MonthStartGrows(y, a, b - 1); }
  }

  lemma MonthInsideYear(c: Civil)
    requires IsDate(c)
    ensures MonthStart(c.year, c.month) + c.day <= YearLength(c.year)
  {
    MonthsFillYear(c.year);
    if c.month < 12 { MonthStartGrows(c.year, c.month, 12); }
  }

  /** Two calendar dates with the same day number are the same date. */
  lemma DayNumberInjective(a: Civil, b: Civil)
    requires IsDate(a) && IsDate(b) && DayOfCivil(a) == DayOfCivil(b)
    ensures a == b
  {
    MonthInsideYear(a);
    MonthInsideYear(b);
    if a.year < b.year { YearStartGrows(a.year, b.year); assert false; }
    if b.year < a.year { YearStartGrows(b.year, a.year); assert false; }
    if a.month < b.month { MonthStartGrows(a.year, a.month, b.month); assert false; }
    if b.month < a.month { MonthStartGrows(a.year, b.month, a.month); assert false; }
  }

  lemma LastDayIsLast(c: Civil)
    requires IsDate(c)
    ensures DayOfCivil(c) <= MAX_DAY <==> c.year <= 9999
  {
    LastDayAnchor();
    MonthsFillYear(9999);
    MonthInsideYear(c);
    if c.year < 9999 { YearStartGrows(c.year, 9999); }
    if c.year > 9999 { YearStartGrows(9999, c.year); }
  }

  // ---- Text ----

  function DateText(c: Civil): string {
    PadTo(Print(c.year), 4) + "-" + PadTo(Print(c.month), 2) + "-" + PadTo(Print(c.day), 2)
  }

  function ToDateString(day: int): string
    requires MIN_DAY <= day
  {
    DateText(CivilOfDay(day))
  }

  function ReadNumber(s: string, width: nat): (r: Option<(nat, string)>)
    ensures r.Some? ==> r.value.0 < Pow10(width)
  {
    var k := DigitRun(s, width);
    ValueBound(s[..k]);
    Pow10Grows(k, width);
    if k == 0 then None else Some((Value(s[..k]), s[k..]))
  }

  function ReadDash(s: string): Option<string> {
    if s != [] && s[0] == '-' then Some(s[1..]) else None
  }

  /** `%Y-%m-%d`: a year of at most four characters, month and day of at most two, and a real
      date. `None` is a failed read, after which the source's result is never assigned. */
  function FromDateString(text: string): Option<Day> {
    Pow10Values();
    match ReadNumber(text, 4)
    case None => None
    case Some((year, afterYear)) =>
      match ReadDash(afterYear)
      case None => None
      case Some(monthText) =>
        match ReadNumber(monthText, 2)
        case None => None
        case Some((month, afterMonth)) =>
          match ReadDash(afterMonth)
          case None => None
          case Some(dayText) =>
            match ReadNumber(dayText, 2)
            case None => None
            case Some((day, _)) =>
              if IsDate(Civil(year, month, day)) then
                LastDayIsLast(Civil(year, month, day));
                Some(DayOfCivil(Civil(year, month, day)))
              else None
  }

  lemma FieldReadsBack(n: nat, width: nat, rest: string)
    requires 1 <= width && n < Pow10(width)
    ensures ReadNumber(PadTo(Print(n), width) + rest, width) == Some((n, rest))
  {
    PrintLength(n, width);
    var field := PadTo(Print(n), width);
    Padded(Print(n), width);
    ValueOfPrint(n);
    DigitRunOfField(field, rest, width);
    assert (field + rest)[..width] == field && (field + rest)[width..] == rest;
  }

  lemma Pow10Values()
    ensures Pow10(2) == 100 && Pow10(4) == 10000
  {
    assert Pow10(1) == 10 * Pow10(0);
    assert Pow10(2) == 10 * Pow10(1);
    assert Pow10(3) == 10 * Pow10(2);
    assert Pow10(4) == 10 * Pow10(3);
  }

  lemma DateTextReadsBack(c: Civil)
    requires IsDate(c) && c.year <= 9999
    ensures FromDateString(DateText(c)) == Some(DayOfCivil(c))
  {
    Pow10Values();
    var year, month, day := PadTo(Print(c.year), 4), PadTo(Print(c.month), 2), PadTo(Print(c.day), 2);
    assert DateText(c) == year + ("-" + (month + ("-" + day)));
    FieldReadsBack(c.year, 4, "-" + (month + ("-" + day)));
    assert ReadDash("-" + (month + ("-" + day))) == Some(month + ("-" + day));
    FieldReadsBack(c.month, 2, "-" + day);
    assert ReadDash("-" + day) == Some(day);
    FieldReadsBack(c.day, 2, "");
    assert day + "" == day;
  }

  /** A year of five digits or more loses its tail to the four-character limit, then meets a
      digit where the dash should be. */
  lemma LongYearFails(c: Civil)
    requires c.year > 9999
    ensures FromDateString(DateText(c)) == None
  {
    Pow10Values();
    var year := Print(c.year);
    PrintLength(c.year, 4);
    assert PadTo(year, 4) == year;
    var text := DateText(c);
    assert text == year[..4] + (year[4..] + "-" + PadTo(Print(c.month), 2) + "-" + PadTo(Print(c.day), 2));
    DigitRunOfField(year[..4], text[4..], 4);
    assert text == year[..4] + text[4..];
    assert text[4] == year[4];
  }

  /** Storing a date as text and reading it back is the identity exactly up to 9999-12-31. */
  lemma DateRoundTrip(day: int)
    requires MIN_DAY <= day
    ensures FromDateString(ToDateString(day)) == Some(day) <==> day <= MAX_DAY
    ensures day > MAX_DAY ==> FromDateString(ToDateString(day)) == None
  {
    var c := CivilOfDay(day);
    LastDayIsLast(c);
    if day <= MAX_DAY { DateTextReadsBack(c); } else { LongYearFails(c); }
  }

  /** Day numbers and calendar dates correspond one to one. */
  lemma CivilRoundTrip(c: Civil)
    requires IsDate(c)
    ensures MIN_DAY <= DayOfCivil(c) && CivilOfDay(DayOfCivil(c)) == c
  {
    DayNumberInjective(c, CivilOfDay(DayOfCivil(c)));
  }

  // ---- The calendar in figures ----

  function FirstOf(y: nat, m: nat): int { DayOfCivil(Civil(y, m, 1)) }

  /** From the first of each month to the first of the next, in every year. */
  lemma MonthsInFigures(y: nat)
    ensures FirstOf(y, 2) - FirstOf(y, 1) == 31
    ensures FirstOf(y, 3) - FirstOf(y, 2) == if y % 4 == 0 && (y % 100 != 0 || y % 400 == 0) then 29 else 28
    ensures FirstOf(y, 4) - FirstOf(y, 3) == 31
    ensures FirstOf(y, 5) - FirstOf(y, 4) == 30
    ensures FirstOf(y, 6) - FirstOf(y, 5) == 31
    ensures FirstOf(y, 7) - FirstOf(y, 6) == 30
    ensures FirstOf(y, 8) - FirstOf(y, 7) == 31
    ensures FirstOf(y, 9) - FirstOf(y, 8) == 31
    ensures FirstOf(y, 10) - FirstOf(y, 9) == 30
    ensures FirstOf(y, 11) - FirstOf(y, 10) == 31
    ensures FirstOf(y, 12) - FirstOf(y, 11) == 30
    ensures FirstOf(y + 1, 1) - FirstOf(y, 12) == 31
  {
    MonthStartOfDecember(y);
    YearStartStep(y);
    hide YearStart;
  }

  /** Within a month the next day has the next number. */
  lemma DaysInARow(y: nat, m: nat, d: nat)
    requires 1 <= d
    ensures DayOfCivil(Civil(y, m, d)) == FirstOf(y, m) + d - 1
  {
    hide YearStart, MonthStart;
  }

  /** Reading succeeds field by field. */
  lemma PartsRead(text: string, monthText: string, dayText: string, rest: string, year: nat, month: nat, day: nat)
    requires ReadNumber(text, 4) == Some((year, "-" + monthText))
    requires ReadNumber(monthText, 2) == Some((month, "-" + dayText))
    requires ReadNumber(dayText, 2) == Some((day, rest))
    ensures var c := Civil(year, month, day);
            FromDateString(text) == if IsDate(c) then Some(DayOfCivil(c)) else None
  {
    hide IsDate, DayOfCivil, ReadNumber;
    assert ReadDash("-" + monthText) == Some(monthText) && ReadDash("-" + dayText) == Some(dayText);
  }

  /** Three fields of digits, four, two and two, are read as the date they spell, if it is one. */
  lemma FieldsRead(year: string, month: string, day: string)
    requires AllDigits(year) && AllDigits(month) && AllDigits(day) && |year| == 4 && |month| == 2 && |day| == 2
    ensures var c := Civil(Value(year), Value(month), Value(day));
            FromDateString(year + "-" + month + "-" + day) == if IsDate(c) then Some(DayOfCivil(c)) else None
  {
    hide IsDate, DayOfCivil, Value, ReadNumber, FromDateString;
    var text, monthText := year + "-" + month + "-" + day, month + ("-" + day);
    assert text == year + ("-" + monthText) && day + "" == day;
    FieldRead(year, "-" + monthText);
    FieldRead(month, "-" + day);
    FieldRead(day, "");
    PartsRead(text, monthText, day, "", Value(year), Value(month), Value(day));
  }

  lemma FieldRead(field: string, rest: string)
    requires AllDigits(field) && field != []
    ensures ReadNumber(field + rest, |field|) == Some((Value(field), rest))
  {
    DigitRunOfField(field, rest, |field|);
    assert (field + rest)[..|field|] == field && (field + rest)[|field|..] == rest;
  }

  /** A text in this form that is read as a day is also how that day is written. */
  lemma TextRoundTrip(year: string, month: string, day: string)
    requires AllDigits(year) && AllDigits(month) && AllDigits(day) && |year| == 4 && |month| == 2 && |day| == 2
    ensures var text := year + "-" + month + "-" + day;
            FromDateString(text).Some? ==> ToDateString(FromDateString(text).value) == text
  {
    FieldsRead(year, month, day);
    var c := Civil(Value(year), Value(month), Value(day));
    if IsDate(c) {
      CivilRoundTrip(c);
      PrintOfValue(year);
      PrintOfValue(month);
      PrintOfValue(day);
    }
  }

  lemma TwoDigits(s: string)
    requires AllDigits(s) && |s| == 2
    ensures Value(s) == 10 * (s[0] as int - '0' as int) + (s[1] as int - '0' as int)
  {
    assert s == [s[0]] + [s[1]];
    ValueOfDigit(s[0]);
    ValueOfDigit(s[1]);
    ValueIsPositional([s[0]], [s[1]]);
    assert Pow10(1) == 10 * Pow10(0);
  }

  /** Whether a text is a date, from the year's digits and the month and day as figures. */
  lemma DayExists(year: string, month: string, day: string)
    requires AllDigits(year) && AllDigits(month) && AllDigits(day) && |year| == 4 && |month| == 2 && |day| == 2
    ensures var m := 10 * (month[0] as int - '0' as int) + (month[1] as int - '0' as int);
            var d := 10 * (day[0] as int - '0' as int) + (day[1] as int - '0' as int);
            var leap := Value(year) % 4 == 0 && (Value(year) % 100 != 0 || Value(year) % 400 == 0);
            FromDateString(year + "-" + month + "-" + day).Some? <==>
              && 1 <= m <= 12
              && 1 <= d <= [31, if leap then 29 else 28, 31, 30, 31, 30, 31, 31, 30, 31, 30, 31][m - 1]
  {
    FieldsRead(year, month, day);
    TwoDigits(month);
    TwoDigits(day);
    hide FromDateString, DayOfCivil, Value;
  }

  lemma DayOfMayDay()
    ensures DayOfCivil(Civil(1970, 5, 1)) == 120
  {
    hide DayOfCivil;
    EpochAnchor();
    MonthsInFigures(1970);
  }

  /** 1970-05-01 is day 120. */
  lemma MayDay()
    ensures FromDateString("1970-05-01") == Some(120) && ToDateString(120) == "1970-05-01"
  {
    hide FromDateString, ToDateString, DayOfCivil, Value;
    var text := "1970" + "-" + "05" + "-" + "01";
    assert text == "1970-05-01";
    SpelledOut();
    DayOfMayDay();
    FieldsRead("1970", "05", "01");
    TextRoundTrip("1970", "05", "01");
  }

  lemma SpelledOut()
    ensures Value("1970") == 1970 && Value("05") == 5 && Value("01") == 1
  {
    assert "1970" == "19" + "70";
    ValueIsPositional("19", "70");
    TwoDigits("19");
    TwoDigits("70");
    TwoDigits("05");
    TwoDigits("01");
    Pow10Values();
  }
}
