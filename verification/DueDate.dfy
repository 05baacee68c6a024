/**
  The due-date check of the CLI: a text is turned into a day by the overflow rules of ECMAScript's Date
  and accepted if the day turns back into the same numbers. Proved equal to the calendar's own table.
 */
module DueDate {
  import opened ArgParser
  import opened Digits
  import opened Options

  // ---------- ECMA-262, 2022 edition, section 21.4.1: days, years, months, dates ----------

  /** Day number of the first day of a year (section 21.4.1.3). */
  function DayFromYear(y: int): int {
    365 * (y - 1970) + (y - 1969) / 4 - (y - 1901) / 100 + (y - 1601) / 400
  }

  predicate IsLeap(y: int) {
    y % 4 == 0 && (y % 100 != 0 || y % 400 == 0)
  }

  function DaysInYear(y: int): int {
    if IsLeap(y) then 366 else 365
  }

  lemma FourthYears(y: int)
    ensures (y - 1968) / 4 == (y - 1969) / 4 + (if y % 4 == 0 then 1 else 0)
  {
  }

  lemma Centuries(y: int)
    ensures (y - 1900) / 100 == (y - 1901) / 100 + (if y % 100 == 0 then 1 else 0)
  {
  }

  lemma FourthCenturies(y: int)
    ensures (y - 1600) / 400 == (y - 1601) / 400 + (if y % 400 == 0 then 1 else 0)
    ensures y % 400 == 0 ==> y % 100 == 0
    ensures y % 100 == 0 ==> y % 4 == 0
  {
  }

  lemma YearLength(y: int)
    ensures DayFromYear(y + 1) == DayFromYear(y) + DaysInYear(y)
  {
    FourthYears(y);
    Centuries(y);
    FourthCenturies(y);
  }

  lemma {:induction false} YearsAscend(y: int, z: int)
    requires y <= z
    ensures DayFromYear(y) + 365 * (z - y) <= DayFromYear(z)
    decreases z - y
  {
    hide DayFromYear;
    if y < z {
      YearsAscend(y, z - 1);
      YearLength(z - 1);
    }
  }

  /** How far a guess is from the year of a day, in days. */
  function Miss(day: int, guess: int): nat {
    if day < DayFromYear(guess) then DayFromYear(guess) - day
    else if day >= DayFromYear(guess + 1) then day - DayFromYear(guess + 1) + 1
    else 0
  }

  lemma MissShrinks(day: int, guess: int)
    ensures day < DayFromYear(guess) ==> Miss(day, guess - 1) < Miss(day, guess)
    ensures day >= DayFromYear(guess + 1) ==> Miss(day, guess + 1) < Miss(day, guess)
  {
    hide DayFromYear;
    YearLength(guess - 1);
    YearLength(guess);
    YearLength(guess + 1);
  }

  /** The largest year that has begun on a day (YearFromTime), by search from a guess. */
  function YearFrom(day: int, guess: int): (y: int)
    ensures DayFromYear(y) <= day < DayFromYear(y + 1)
    decreases Miss(day, guess)
  {
    MissShrinks(day, guess);
    if day < DayFromYear(guess) then YearFrom(day, guess - 1)
    else if day >= DayFromYear(guess + 1) then YearFrom(day, guess + 1)
    else guess
  }

  function YearFromDay(day: int): int {
    YearFrom(day, 1970)
  }

  lemma YearIsUnique(day: int, y: int)
    requires DayFromYear(y) <= day < DayFromYear(y + 1)
    ensures YearFromDay(day) == y
  {
    hide DayFromYear;
    var z := YearFromDay(day);
    if y < z {
      YearsAscend(y + 1, z);
    } else if z < y {
      YearsAscend(z + 1, y);
    }
  }

  /** Days of a year before the given month, months counted from zero. */
  function DaysBefore(month: int, leap: bool): int
    requires 0 <= month <= 12
  {
    [0, 31, 59, 90, 120, 151, 181, 212, 243, 273, 304, 334, 365][month] + (if leap && month > 1 then 1 else 0)
  }

  function DayWithinYear(day: int): (d: int)
    ensures 0 <= d < DaysInYear(YearFromDay(day))
  {
    YearLength(YearFromDay(day));
    day - DayFromYear(YearFromDay(day))
  }

  function MonthWithin(d: int, leap: bool): (m: int)
    requires 0 <= d < if leap then 366 else 365
    ensures 0 <= m < 12 && DaysBefore(m, leap) <= d < DaysBefore(m + 1, leap)
  {
    if d < 31 then 0
    else if d < DaysBefore(2, leap) then 1
    else if d < DaysBefore(3, leap) then 2
    else if d < DaysBefore(4, leap) then 3
    else if d < DaysBefore(5, leap) then 4
    else if d < DaysBefore(6, leap) then 5
    else if d < DaysBefore(7, leap) then 6
    else if d < DaysBefore(8, leap) then 7
    else if d < DaysBefore(9, leap) then 8
    else if d < DaysBefore(10, leap) then 9
    else if d < DaysBefore(11, leap) then 10
    else 11
  }

  function MonthFromDay(day: int): (m: int)
    ensures 0 <= m < 12
  {
    MonthWithin(DayWithinYear(day), IsLeap(YearFromDay(day)))
  }

  function DateFromDay(day: int): int {
    DayWithinYear(day) - DaysBefore(MonthFromDay(day), IsLeap(YearFromDay(day))) + 1
  }

  /** MakeDay (section 21.4.1.28): months and dates may overflow. */
  function MakeDay(year: int, month: int, date: int): int {
    var ym, mn := year + month / 12, month % 12;
    DayFromYear(ym) + DaysBefore(mn, IsLeap(ym)) + date - 1
  }

  /** The day of Date.UTC(year, month, date) (section 21.4.3.4): years 0 to 99 mean 1900 to 1999. */
  function DayOfUTC(year: int, month: int, date: int): int {
    MakeDay(if 0 <= year <= 99 then 1900 + year else year, month, date)
  }

  const MAX_DAY := 100_000_000

  /** A time value further than this from the epoch is not a date (TimeClip). */
  predicate IsDate(day: int) {
    -MAX_DAY <= day <= MAX_DAY
  }

  // ---------- The check ----------

  predicate HasDateFormat(s: string) {
    && |s| == 10 && s[4] == '-' && s[7] == '-'
    && forall i :: 0 <= i < 10 && i != 4 && i != 7 ==> IsDigit(s[i])
  }

  function Year(s: string): nat
    requires HasDateFormat(s)
  {
    ParseDecimal(s[..4])
  }

  function Month(s: string): nat
    requires HasDateFormat(s)
  {
    ParseDecimal(s[5..7])
  }

  function Date(s: string): nat
    requires HasDateFormat(s)
  {
    ParseDecimal(s[8..])
  }

  datatype DueDateResult = Accepted(value: string) | Missing | WrongFormat | NotADate

  function GetDueDateFlag(flags: Flags, name: string): DueDateResult {
    var value := GetOptionalStringFlag(flags, name);
    if value.None? then Missing
    else if !HasDateFormat(value.value) then WrongFormat
    else
      var year, month, date := Year(value.value), Month(value.value), Date(value.value);
      var day := DayOfUTC(year, month - 1, date);
      if !IsDate(day) || YearFromDay(day) != year || MonthFromDay(day) != month - 1 || DateFromDay(day) != date
      then NotADate
      else Accepted(value.value)
  }

  // ---------- The calendar's own table ----------

  function DaysInMonth(year: int, month: int): int
    requires 1 <= month <= 12
  {
    if month == 2 then (if IsLeap(year) then 29 else 28)
    else if month == 4 || month == 6 || month == 9 || month == 11 then 30
    else 31
  }

  predicate IsCalendarDate(year: int, month: int, date: int) {
    1 <= month <= 12 && 1 <= date <= DaysInMonth(year, month)
  }

  lemma MonthLength(year: int, month: int)
    requires 1 <= month <= 12
    ensures DaysBefore(month, IsLeap(year)) - DaysBefore(month - 1, IsLeap(year)) == DaysInMonth(year, month)
    ensures 0 <= DaysBefore(month - 1, IsLeap(year)) && DaysBefore(month, IsLeap(year)) <= DaysInYear(year)
  {
  }

  /** Turning a day into numbers gives a calendar date. */
  lemma DecodedIsCalendarDate(day: int)
    ensures IsCalendarDate(YearFromDay(day), MonthFromDay(day) + 1, DateFromDay(day))
  {
    MonthLength(YearFromDay(day), MonthFromDay(day) + 1);
  }

  /** A calendar date survives the round trip through its day. */
  lemma CalendarDateRoundTrip(year: int, month: int, date: int)
    requires IsCalendarDate(year, month, date)
    ensures var day := MakeDay(year, month - 1, date);
            YearFromDay(day) == year && MonthFromDay(day) == month - 1 && DateFromDay(day) == date
  {
    hide DayFromYear, YearFromDay, DaysBefore;
    var day := MakeDay(year, month - 1, date);
    MonthLength(year, month);
    YearLength(year);
    assert (month - 1) / 12 == 0 && (month - 1) % 12 == month - 1;
    YearIsUnique(day, year);
    MonthIsUnique(DayWithinYear(day), IsLeap(year), month - 1);
  }

  lemma MonthIsUnique(d: int, leap: bool, m: int)
    requires 0 <= d < (if leap then 366 else 365) && 0 <= m < 12
    requires DaysBefore(m, leap) <= d < DaysBefore(m + 1, leap)
    ensures MonthWithin(d, leap) == m
  {
  }

  lemma DayInRange(year: int, month: int, date: int)
    requires 0 <= year <= 9999 && -1 <= month <= 98 && 0 <= date <= 99
    ensures IsDate(DayOfUTC(year, month, date))
  {
  }

  lemma NumbersAreBounded(s: string)
    requires |s| <= 4 && forall i :: 0 <= i < |s| ==> IsDigit(s[i])
    ensures ParseDecimal(s) <= 9999 && (|s| <= 2 ==> ParseDecimal(s) <= 99)
  {
    if s != "" {
      var t := s[..|s| - 1];
      if t != "" {
        var u := t[..|t| - 1];
        if u != "" {
          var v := u[..|u| - 1];
          if v != "" {
            assert v[..|v| - 1] == "";
          }
        }
      }
    }
  }

  /** Overflow and comparison accept exactly the calendar's dates from the year 100 on. */
  lemma OverflowCheckIsCalendar(year: int, month: int, date: int)
    requires 0 <= year
    ensures var day := DayOfUTC(year, month - 1, date);
            (YearFromDay(day) == year && MonthFromDay(day) == month - 1 && DateFromDay(day) == date)
            <==> year >= 100 && IsCalendarDate(year, month, date)
  {
    hide DayFromYear, YearFromDay, MonthFromDay, DateFromDay, DaysBefore, MakeDay;
    var day := DayOfUTC(year, month - 1, date);
    DecodedIsCalendarDate(day);
    if IsCalendarDate(year, month, date) {
      if year >= 100 {
        CalendarDateRoundTrip(year, month, date);
      } else {
        EarlyYearNeverComesBack(year, month, date);
      }
    }
  }

  /** A year below 100 is read as one of the twentieth century, so it never comes back. */
  lemma EarlyYearNeverComesBack(year: int, month: int, date: int)
    requires 0 <= year <= 99 && IsCalendarDate(year, month, date)
    ensures YearFromDay(DayOfUTC(year, month - 1, date)) != year
  {
    var day := DayOfUTC(year, month - 1, date);
    YearsAscend(year + 1, 1900 + year);
    MonthLength(1900 + year, month);
    var y := YearFromDay(day);
  }

  /** The flag is accepted iff it is there, has the form dddd-dd-dd, and names a date of the Gregorian
      calendar in the year 100 or later; otherwise the first of these that fails is reported. */
  lemma DueDateIsCalendarDate(flags: Flags, name: string)
    ensures var r, given := GetDueDateFlag(flags, name), GetOptionalStringFlag(flags, name);
            && (r.Missing? <==> name !in flags || flags[name] == On || flags[name] == Text(""))
            && (r.WrongFormat? <==> given.Some? && !HasDateFormat(given.value))
            && (r.Accepted? <==> given.Some? && HasDateFormat(given.value) && Year(given.value) >= 100
                                 && IsCalendarDate(Year(given.value), Month(given.value), Date(given.value)))
            && (r.Accepted? ==> r.value == given.value)
  {
    hide DayFromYear, YearFromDay, MonthFromDay, DateFromDay, DayOfUTC, IsDate, IsCalendarDate, ParseDecimal;
    var given := GetOptionalStringFlag(flags, name);
    if given.Some? && HasDateFormat(given.value) {
      var s := given.value;
      NumbersAreBounded(s[..4]);
      NumbersAreBounded(s[5..7]);
      NumbersAreBounded(s[8..]);
      DayInRange(Year(s), Month(s) - 1, Date(s));
      OverflowCheckIsCalendar(Year(s), Month(s), Date(s));
    }
  }

  // ---------- The text of a date ----------

  /** A number in so many digits. */
  function Padded(n: nat, width: nat): (r: string)
    ensures |r| == width && forall i :: 0 <= i < |r| ==> IsDigit(r[i])
  {
    if width == 0 then "" else Padded(n / 10, width - 1) + [Digit(n % 10)]
  }

  function DateText(year: nat, month: nat, date: nat): string {
    Padded(year, 4) + "-" + Padded(month, 2) + "-" + Padded(date, 2)
  }

  function PowerOfTen(width: nat): nat {
    if width == 0 then 1 else 10 * PowerOfTen(width - 1)
  }

  lemma {:induction false} PaddedParses(n: nat, width: nat)
    requires n < PowerOfTen(width)
    ensures ParseDecimal(Padded(n, width)) == n
  {
    if width > 0 {
      PaddedParses(n / 10, width - 1);
      var s := Padded(n, width);
      assert s[..|s| - 1] == Padded(n / 10, width - 1);
    }
  }

  lemma {:induction false} ParsedPads(s: string)
    requires forall i :: 0 <= i < |s| ==> IsDigit(s[i])
    ensures Padded(ParseDecimal(s), |s|) == s && ParseDecimal(s) < PowerOfTen(|s|)
  {
    if s != "" {
      var first, last := s[..|s| - 1], s[|s| - 1];
      ParsedPads(first);
      DigitOfValue(last);
      assert s == first + [last];
    }
  }

  lemma DigitOfValue(c: char)
    requires IsDigit(c)
    ensures Digit(DigitValue(c)) == c
  {
  }

  lemma DateTextReads(year: nat, month: nat, date: nat)
    requires year <= 9999 && month <= 99 && date <= 99
    ensures var s := DateText(year, month, date);
            HasDateFormat(s) && Year(s) == year && Month(s) == month && Date(s) == date
  {
    hide Padded, ParseDecimal;
    var s := DateText(year, month, date);
    var y, m, d := Padded(year, 4), Padded(month, 2), Padded(date, 2);
    assert PowerOfTen(4) == 10000 && PowerOfTen(2) == 100;
    PaddedParses(year, 4);
    PaddedParses(month, 2);
    PaddedParses(date, 2);
    assert s == y + ("-" + (m + ("-" + d)));
    assert s[..4] == y && s[5..7] == m && s[8..] == d && s[4] == '-' && s[7] == '-';
    assert forall i :: 0 <= i < 4 ==> s[i] == s[..4][i];
    assert forall i :: 5 <= i < 7 ==> s[i] == s[5..7][i - 5];
    assert forall i :: 8 <= i < 10 ==> s[i] == s[8..][i - 8];
  }

  /** A year, a month and a date in four, two and two digits with hyphens between them are accepted iff they are
      a date of the Gregorian calendar in the year 100 or later. */
  lemma DateTextAcceptedIff(flags: Flags, name: string, year: nat, month: nat, date: nat)
    requires year <= 9999 && month <= 99 && date <= 99
    requires name in flags && flags[name] == Text(DateText(year, month, date))
    ensures GetDueDateFlag(flags, name) ==
      if year >= 100 && IsCalendarDate(year, month, date) then Accepted(DateText(year, month, date)) else NotADate
  {
    hide DayFromYear, YearFromDay, MonthFromDay, DateFromDay, DayOfUTC, IsDate, IsCalendarDate, ParseDecimal, Padded;
    hide GetDueDateFlag;
    DateTextReads(year, month, date);
    DueDateIsCalendarDate(flags, name);
  }

  /** And nothing but such a text is ever accepted. */
  lemma AcceptedIsDateText(flags: Flags, name: string) returns (year: nat, month: nat, date: nat)
    requires GetDueDateFlag(flags, name).Accepted?
    ensures 100 <= year <= 9999 && IsCalendarDate(year, month, date)
    ensures GetDueDateFlag(flags, name) == Accepted(DateText(year, month, date))
    ensures name in flags && flags[name] == Text(DateText(year, month, date))
  {
    hide DayFromYear, YearFromDay, MonthFromDay, DateFromDay, DayOfUTC, IsDate, IsCalendarDate, ParseDecimal, Padded;
    hide GetDueDateFlag;
    DueDateIsCalendarDate(flags, name);
    var s := GetOptionalStringFlag(flags, name).value;
    year, month, date := Year(s), Month(s), Date(s);
    ParsedPads(s[..4]);
    ParsedPads(s[5..7]);
    ParsedPads(s[8..]);
    assert PowerOfTen(4) == 10000;
    assert s == s[..4] + "-" + s[5..7] + "-" + s[8..];
  }
}
