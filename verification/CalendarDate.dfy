/** Calendar dates without a time of day, on the proleptic Gregorian calendar that section 21.4.1 of
    ECMA-262 gives the Date object. */
module CalendarDate {
  import opened Wrappers
  import opened Decimal

  const MS_PER_DAY := 86_400_000

  // A day of the calendar; months are counted from 1 here and from 0 where the Date object counts them.
  datatype Civil = Civil(year: int, month: int, day: int)

  // ---------- The calendar, by its own rules ----------

  predicate IsLeap(year: int) {
    year % 4 == 0 && (year % 100 != 0 || year % 400 == 0)
  }

  function DaysInMonth(leap: bool, month: int): (n: nat)
    requires 1 <= month <= 12
    ensures 28 <= n <= 31
  {
    if month == 2 then (if leap then 29 else 28)
    else if month in {4, 6, 9, 11} then 30
    else 31
  }

  predicate Exists(c: Civil) {
    1 <= c.month <= 12 && 1 <= c.day <= DaysInMonth(IsLeap(c.year), c.month)
  }

  function DayAfter(c: Civil): Civil
    requires Exists(c)
  {
    if c.day < DaysInMonth(IsLeap(c.year), c.month) then c.(day := c.day + 1)
    else if c.month < 12 then Civil(c.year, c.month + 1, 1)
    else Civil(c.year + 1, 1, 1)
  }

  // ---------- Day numbers (section 21.4.1 of ECMA-262) ----------

  function DaysInYear(leap: bool): (n: nat)
    ensures n == 365 || n == 366
  {
    if leap then 366 else 365
  }

  // The day number of 1 January, counted from 1970 year by year.
  function DayFromYear(year: int): int
    decreases if year < 1970 then 1970 - year else year - 1970
  {
    if year > 1970 then DayFromYear(year - 1) + DaysInYear(IsLeap(year - 1))
    else if year < 1970 then DayFromYear(year + 1) - DaysInYear(IsLeap(year))
    else 0
  }

  lemma YearStep(year: int)
    ensures DayFromYear(year + 1) == DayFromYear(year) + DaysInYear(IsLeap(year))
  {
  }

  // The closed form by which the Date object numbers 1 January.
  function ClosedForm(year: int): int {
    365 * (year - 1970) + (year - 1969) / 4 - (year - 1901) / 100 + (year - 1601) / 400
  }

  lemma FourthStep(year: int)
    ensures (year + 1 - 1969) / 4 == (year - 1969) / 4 + if year % 4 == 0 then 1 else 0
  {
  }

  lemma HundredthStep(year: int)
    ensures (year + 1 - 1901) / 100 == (year - 1901) / 100 + if year % 100 == 0 then 1 else 0
  {
  }

  lemma FourHundredthStep(year: int)
    ensures (year + 1 - 1601) / 400 == (year - 1601) / 400 + if year % 400 == 0 then 1 else 0
  {
  }

  lemma Divisors(year: int)
    ensures year % 400 == 0 ==> year % 100 == 0
    ensures year % 100 == 0 ==> year % 4 == 0
  {
  }

  lemma ClosedFormStep(year: int)
    ensures ClosedForm(year + 1) == ClosedForm(year) + DaysInYear(IsLeap(year))
  {
    FourthStep(year);
    HundredthStep(year);
    FourHundredthStep(year);
    Divisors(year);
  }

  /** The closed form counts the days of the years in between. */
  lemma {:induction false} ClosedFormCountsYears(year: int)
    ensures ClosedForm(year) == DayFromYear(year)
    decreases if year < 1970 then 1970 - year else year - 1970
  {
    if year > 1970 {
      ClosedFormCountsYears(year - 1);
      ClosedFormStep(year - 1);
    } else if year < 1970 {
      ClosedFormCountsYears(year + 1);
      ClosedFormStep(year);
    }
  }

  function YearUp(day: int, from: int): (year: int)
    requires DayFromYear(from) <= day
    ensures DayFromYear(year) <= day < DayFromYear(year + 1)
    decreases day - DayFromYear(from)
  {
    YearStep(from);
    if day < DayFromYear(from + 1) then from else YearUp(day, from + 1)
  }

  function YearDown(day: int, from: int): (year: int)
    requires day < DayFromYear(from + 1)
    ensures DayFromYear(year) <= day < DayFromYear(year + 1)
    decreases DayFromYear(from + 1) - day
  {
    YearStep(from);
    if DayFromYear(from) <= day then from else YearDown(day, from - 1)
  }

  // The year a day number falls in.
  function YearFromDay(day: int): (year: int)
    ensures DayFromYear(year) <= day < DayFromYear(year + 1)
  {
    if day >= 0 then YearUp(day, 1970) else YearDown(day, 1969)
  }

  lemma {:induction false} YearsAscend(a: int, b: int)
    requires a <= b
    ensures DayFromYear(a) <= DayFromYear(b)
    decreases b - a
  {
    if a < b {
      YearsAscend(a, b - 1);
      YearStep(b - 1);
    }
  }

  lemma YearIsUnique(day: int, a: int, b: int)
    requires DayFromYear(a) <= day < DayFromYear(a + 1)
    requires DayFromYear(b) <= day < DayFromYear(b + 1)
    ensures a == b
  {
    if a < b {
      YearsAscend(a + 1, b);
    } else if b < a {
      YearsAscend(b + 1, a);
    }
  }

  // Days of the year before the first of a month counted from 0; 12 is the whole year.
  function DaysBefore(leap: bool, month: int): (n: nat)
    requires 0 <= month <= 12
  {
    if month == 0 then 0 else DaysBefore(leap, month - 1) + DaysInMonth(leap, month)
  }

  lemma MonthsFillTheYear(leap: bool)
    ensures DaysBefore(leap, 12) == DaysInYear(leap)
  {
    var extra := if leap then 1 else 0;
    assert DaysBefore(leap, 1) == 31;
    assert DaysBefore(leap, 2) == 59 + extra;
    assert DaysBefore(leap, 4) == 120 + extra;
    assert DaysBefore(leap, 6) == 181 + extra;
    assert DaysBefore(leap, 8) == 243 + extra;
    assert DaysBefore(leap, 10) == 304 + extra;
  }

  function MonthUp(leap: bool, dayInYear: int, from: int): (month: int)
    requires 0 <= from < 12 && DaysBefore(leap, from) <= dayInYear < DaysBefore(leap, 12)
    ensures 0 <= month < 12 && DaysBefore(leap, month) <= dayInYear < DaysBefore(leap, month + 1)
    decreases dayInYear - DaysBefore(leap, from)
  {
    if dayInYear < DaysBefore(leap, from + 1) then from else MonthUp(leap, dayInYear, from + 1)
  }

  // The day of a year, counted from 0.
  function DayInYear(leap: bool, month: int, date: int): int
    requires 0 <= month < 12
  {
    DaysBefore(leap, month) + date - 1
  }

  function CivilInYear(year: int, leap: bool, dayInYear: int): (c: Civil)
    requires 0 <= dayInYear < DaysInYear(leap)
    ensures c.year == year && 1 <= c.month <= 12 && 1 <= c.day <= DaysInMonth(leap, c.month)
    ensures DayInYear(leap, c.month - 1, c.day) == dayInYear
  {
    MonthsFillTheYear(leap);
    var month := MonthUp(leap, dayInYear, 0);
    Civil(year, month + 1, dayInYear - DaysBefore(leap, month) + 1)
  }

  // getUTCFullYear, getUTCMonth + 1 and getUTCDate of a day number.
  function CivilFromDay(day: int): Civil {
    var year := YearFromDay(day);
    YearStep(year);
    CivilInYear(year, IsLeap(year), day - DayFromYear(year))
  }

  function DayNumber(year: int, month: int, date: int): int
    requires 0 <= month < 12
  {
    DayFromYear(year) + DayInYear(IsLeap(year), month, date)
  }

  // MakeDay: the month may lie outside 0..11 and the date outside its month; both roll over.
  function MakeDay(year: int, month: int, date: int): int {
    DayNumber(year + month / 12, month % 12, date)
  }

  lemma MakeDayInYear(year: int, month: int, date: int)
    requires 0 <= month < 12
    ensures MakeDay(year, month, date) == DayNumber(year, month, date)
  {
    assert month / 12 == 0 && month % 12 == month;
  }

  // MakeFullYear: Date.UTC reads the years 0 to 99 as 1900 to 1999.
  function MakeFullYear(year: int): int {
    if 0 <= year <= 99 then 1900 + year else year
  }

  // Date.UTC with no time of day.
  function DateUtc(year: int, month: int, date: int): int {
    MakeDay(MakeFullYear(year), month, date) * MS_PER_DAY
  }

  lemma {:induction false} MonthsAscend(leap: bool, a: int, b: int)
    requires 0 <= a <= b <= 12
    ensures DaysBefore(leap, a) <= DaysBefore(leap, b)
    decreases b - a
  {
    if a < b {
      MonthsAscend(leap, a, b - 1);
    }
  }

  lemma MonthIsUnique(leap: bool, dayInYear: int, a: int, b: int)
    requires 0 <= a < 12 && DaysBefore(leap, a) <= dayInYear < DaysBefore(leap, a + 1)
    requires 0 <= b < 12 && DaysBefore(leap, b) <= dayInYear < DaysBefore(leap, b + 1)
    ensures a == b
  {
    if a < b {
      MonthsAscend(leap, a + 1, b);
    } else if b < a {
      MonthsAscend(leap, b + 1, a);
    }
  }

  lemma DayIsThere(day: int, c: Civil)
    requires c == CivilFromDay(day)
    ensures Exists(c) && MakeDay(c.year, c.month - 1, c.day) == day
  {
    MakeDayInYear(c.year, c.month - 1, c.day);
  }

  /** Every day number is a day that exists, and making that day gives the number back. */
  lemma DayRoundTrip(day: int)
    ensures var c := CivilFromDay(day);
            Exists(c) && MakeDay(c.year, c.month - 1, c.day) == day
  {
    DayIsThere(day, CivilFromDay(day));
  }

  lemma PlaceInYear(leap: bool, month: int, day: int)
    requires 1 <= month <= 12 && 1 <= day <= DaysInMonth(leap, month)
    ensures DaysBefore(leap, month - 1) <= DayInYear(leap, month - 1, day) < DaysBefore(leap, month)
    ensures 0 <= DayInYear(leap, month - 1, day) < DaysInYear(leap)
  {
    MonthsAscend(leap, month, 12);
    MonthsFillTheYear(leap);
  }

  lemma NumberInItsYear(c: Civil)
    requires Exists(c)
    ensures DayFromYear(c.year) <= DayNumber(c.year, c.month - 1, c.day) < DayFromYear(c.year + 1)
  {
    PlaceInYear(IsLeap(c.year), c.month, c.day);
    YearStep(c.year);
  }

  lemma DayOfYearIsUnique(leap: bool, month: int, day: int, otherMonth: int, otherDay: int)
    requires 1 <= month <= 12 && 1 <= day <= DaysInMonth(leap, month)
    requires 1 <= otherMonth <= 12 && 1 <= otherDay <= DaysInMonth(leap, otherMonth)
    requires DayInYear(leap, month - 1, day) == DayInYear(leap, otherMonth - 1, otherDay)
    ensures month == otherMonth && day == otherDay
  {
    PlaceInYear(leap, month, day);
    PlaceInYear(leap, otherMonth, otherDay);
    MonthIsUnique(leap, DayInYear(leap, month - 1, day), month - 1, otherMonth - 1);
  }

  // Two days that exist have two numbers.
  lemma NumberIsUnique(b: Civil, c: Civil)
    requires Exists(b) && Exists(c)
    requires DayNumber(b.year, b.month - 1, b.day) == DayNumber(c.year, c.month - 1, c.day)
    ensures b == c
  {
    NumberInItsYear(b);
    NumberInItsYear(c);
    YearIsUnique(DayNumber(b.year, b.month - 1, b.day), b.year, c.year);
    DayOfYearIsUnique(IsLeap(b.year), b.month, b.day, c.month, c.day);
  }

  /** Making a day that exists and reading it back gives that day. */
  lemma CivilRoundTrip(c: Civil)
    requires Exists(c)
    ensures CivilFromDay(MakeDay(c.year, c.month - 1, c.day)) == c
  {
    var day := MakeDay(c.year, c.month - 1, c.day);
    ReadBackIs(c, day, CivilFromDay(day));
  }

  lemma ReadBackIs(c: Civil, day: int, read: Civil)
    requires Exists(c) && day == MakeDay(c.year, c.month - 1, c.day) && read == CivilFromDay(day)
    ensures read == c
  {
    DayRoundTrip(day);
    MakeDayInYear(c.year, c.month - 1, c.day);
    MakeDayInYear(read.year, read.month - 1, read.day);
    NumberIsUnique(read, c);
  }

  // The day after the last of a month, and after the last of December.
  lemma NextInYear(leap: bool, month: int, day: int)
    requires 1 <= month <= 12 && day == DaysInMonth(leap, month)
    ensures month < 12 ==> DayInYear(leap, month, 1) == DayInYear(leap, month - 1, day) + 1
    ensures month == 12 ==> DayInYear(leap, month - 1, day) + 1 == DaysInYear(leap)
  {
    MonthsFillTheYear(leap);
  }

  lemma NumberOfDayAfter(c: Civil)
    requires Exists(c)
    ensures Exists(DayAfter(c))
    ensures var next := DayAfter(c);
            MakeDay(next.year, next.month - 1, next.day) == MakeDay(c.year, c.month - 1, c.day) + 1
  {
    var next := DayAfter(c);
    MakeDayInYear(c.year, c.month - 1, c.day);
    MakeDayInYear(next.year, next.month - 1, next.day);
    if c.day == DaysInMonth(IsLeap(c.year), c.month) {
      NextInYear(IsLeap(c.year), c.month, c.day);
      YearStep(c.year);
    }
  }

  lemma EpochIsDayZero()
    ensures MakeDay(1970, 0, 1) == 0
  {
    MakeDayInYear(1970, 0, 1);
  }

  /** The numbering follows the Gregorian calendar: one more is the day after. */
  lemma NumbersFollowTheCalendar(day: int)
    ensures Exists(CivilFromDay(day)) && CivilFromDay(day + 1) == DayAfter(CivilFromDay(day))
  {
    DayRoundTrip(day);
    FollowingNumber(day, CivilFromDay(day));
  }

  lemma FollowingNumber(day: int, c: Civil)
    requires Exists(c) && MakeDay(c.year, c.month - 1, c.day) == day
    ensures CivilFromDay(day + 1) == DayAfter(c)
  {
    NumberOfDayAfter(c);
    CivilRoundTrip(DayAfter(c));
  }

  // ---------- Parsing ----------

  datatype Refusal = InvalidCalendarDate

  // new Date(value).getTime(): None for an invalid date, otherwise the milliseconds it stands for.
  type DateReader = string -> Option<int>

  // AAAA-MM-DD
  predicate IsDateOnly(value: string) {
    && |value| == 10
    && AllDigits(value[0..4]) && value[4] == '-' && AllDigits(value[5..7]) && value[7] == '-' && AllDigits(value[8..10])
  }

  function Written(value: string): Civil
    requires IsDateOnly(value)
  {
    Civil(Value(value[0..4]), Value(value[5..7]), Value(value[8..10]))
  }

  // (Z|[+-]\d{2}:?\d{2})?
  predicate IsZone(s: string) {
    || s == "" || s == "Z"
    || (|s| == 5 && s[0] in "+-" && AllDigits(s[1..5]))
    || (|s| == 6 && s[0] in "+-" && AllDigits(s[1..3]) && s[3] == ':' && AllDigits(s[4..6]))
  }

  // (:\d{2}(\.\d{1,9})?)?
  predicate IsSeconds(s: string) {
    || s == ""
    || (|s| == 3 && s[0] == ':' && AllDigits(s[1..3]))
    || (5 <= |s| <= 13 && s[0] == ':' && AllDigits(s[1..3]) && s[3] == '.' && AllDigits(s[4..]))
  }

  predicate SecondsEndAt(value: string, k: nat)
    requires 16 <= k <= |value|
  {
    IsSeconds(value[16..k]) && IsZone(value[k..])
  }

  // AAAA-MM-DD[T ]hh:mm, seconds and zone
  predicate IsFullIso(value: string) {
    && 16 <= |value|
    && IsDateOnly(value[0..10]) && value[10] in "T "
    && AllDigits(value[11..13]) && value[13] == ':' && AllDigits(value[14..16])
    && exists k :: 16 <= k <= |value| && SecondsEndAt(value, k)
  }

  function CivilOf(time: int): Civil {
    CivilFromDay(time / MS_PER_DAY)
  }

  // Date.UTC of the written day, refused unless it reads back as written.
  function ReadDateOnly(c: Civil): Result<int, Refusal> {
    var date := DateUtc(c.year, c.month - 1, c.day);
    ComparedBack(c, date, CivilOf(date))
  }

  function ComparedBack(c: Civil, date: int, read: Civil): Result<int, Refusal> {
    if read.year != c.year || read.month - 1 != c.month - 1 || read.day != c.day then Err(InvalidCalendarDate)
    else Ok(date)
  }

  // Cutting a time to its day with Date.UTC.
  function CutToDay(time: int): int {
    var read := CivilOf(time);
    DateUtc(read.year, read.month - 1, read.day)
  }

  function ParseCalendarDate(dateOf: DateReader, value: string): Result<int, Refusal> {
    if IsDateOnly(value) then ReadDateOnly(Written(value))
    else if !IsFullIso(value) then Err(InvalidCalendarDate)
    else
      match dateOf(value)
      case None => Err(InvalidCalendarDate)
      case Some(time) => Ok(CutToDay(time))
  }

  // ---------- Writing a date back ----------

  function Render(c: Civil): string
    requires 0 <= c.year <= 9999 && Exists(c)
  {
    Pad(c.year, 4) + "-" + Pad(c.month, 2) + "-" + Pad(c.day, 2)
  }

  lemma RenderIsRead(c: Civil)
    requires 0 <= c.year <= 9999 && Exists(c)
    ensures IsDateOnly(Render(c)) && Written(Render(c)) == c
  {
    var s := Render(c);
    assert s[0..4] == Pad(c.year, 4) && s[5..7] == Pad(c.month, 2) && s[8..10] == Pad(c.day, 2);
    Powers();
    PadWritesTheNumber(c.year, 4);
    PadWritesTheNumber(c.month, 2);
    PadWritesTheNumber(c.day, 2);
  }

  lemma Powers()
    ensures Pow10(2) == 100 && Pow10(4) == 10_000
  {
    assert Pow10(1) == 10 && Pow10(3) == 1_000;
  }

  lemma DateIsItsParts(value: string)
    requires IsDateOnly(value)
    ensures value == value[0..4] + "-" + value[5..7] + "-" + value[8..10]
  {
  }

  lemma PartsAreWritten(year: string, month: string, day: string)
    requires |year| == 4 && |month| == 2 && |day| == 2 && AllDigits(year) && AllDigits(month) && AllDigits(day)
    ensures Value(year) <= 9999
    ensures Pad(Value(year), 4) == year && Pad(Value(month), 2) == month && Pad(Value(day), 2) == day
  {
    Powers();
    ValueIsBounded(year);
    PadInvertsValue(year);
    PadInvertsValue(month);
    PadInvertsValue(day);
  }

  lemma WrittenIsRendered(value: string)
    requires IsDateOnly(value) && Exists(Written(value))
    ensures 0 <= Written(value).year <= 9999 && Render(Written(value)) == value
  {
    PartsAreWritten(value[0..4], value[5..7], value[8..10]);
    DateIsItsParts(value);
  }

  // ---------- What is accepted, and what it means ----------

  lemma MidnightOf(day: int)
    ensures (day * MS_PER_DAY) / MS_PER_DAY == day
  {
  }

  // A year from 0 to 99 is read as a year no earlier than 1900.
  lemma LateYearIsLate(year: int, month: int, day: int)
    requires 0 <= year <= 99 && 1 <= month <= 12 && 1 <= day
    ensures CivilFromDay(MakeDay(MakeFullYear(year), month - 1, day)).year >= 1900
  {
    var number := MakeDay(MakeFullYear(year), month - 1, day);
    assert number >= DayFromYear(1900 + year);
    YearsAscend(1900, 1900 + year);
    var read := YearFromDay(number);
    if read < 1900 {
      YearsAscend(read + 1, 1900);
    }
  }

  lemma LateDayIsReadBack(c: Civil, day: int)
    requires Exists(c) && c.year >= 100 && day == MakeDay(MakeFullYear(c.year), c.month - 1, c.day)
    ensures CivilFromDay(day) == c
  {
    CivilRoundTrip(c);
  }

  lemma EarlyDayIsNotReadBack(c: Civil, day: int)
    requires Exists(c) && 0 <= c.year <= 99 && day == MakeDay(MakeFullYear(c.year), c.month - 1, c.day)
    ensures CivilFromDay(day).year >= 1900
  {
    LateYearIsLate(c.year, c.month, c.day);
  }

  lemma MissingDayIsNotReadBack(c: Civil, day: int)
    requires !Exists(c)
    ensures CivilFromDay(day) != c
  {
    DayRoundTrip(day);
  }

  lemma DayIsReadBack(c: Civil, day: int)
    requires c.year >= 0 && day == MakeDay(MakeFullYear(c.year), c.month - 1, c.day)
    ensures CivilFromDay(day) == c <==> Exists(c) && c.year >= 100
  {
    if !Exists(c) {
      MissingDayIsNotReadBack(c, day);
    } else if c.year >= 100 {
      LateDayIsReadBack(c, day);
    } else {
      EarlyDayIsNotReadBack(c, day);
    }
  }

  // Date.UTC gives a day back exactly if it exists and its year is not 0 to 99.
  lemma ReadBack(c: Civil, date: int, read: Civil)
    requires c.year >= 0 && date == DateUtc(c.year, c.month - 1, c.day) && read == CivilOf(date)
    ensures read == c <==> Exists(c) && c.year >= 100
  {
    var day := MakeDay(MakeFullYear(c.year), c.month - 1, c.day);
    MidnightOf(day);
    DayIsReadBack(c, day);
  }

  lemma ReadIsCompared(c: Civil, date: int, read: Civil)
    requires date == DateUtc(c.year, c.month - 1, c.day) && read == CivilOf(date)
    ensures ReadDateOnly(c) == ComparedBack(c, date, read)
  {
  }

  lemma ComparedBackExactly(c: Civil, date: int, read: Civil)
    ensures ComparedBack(c, date, read) == if read == c then Ok(date) else Err(InvalidCalendarDate)
  {
  }

  lemma LateUtcIsItsDay(c: Civil, date: int)
    requires c.year >= 100 && date == DateUtc(c.year, c.month - 1, c.day)
    ensures date == MakeDay(c.year, c.month - 1, c.day) * MS_PER_DAY
  {
  }

  lemma DateOnlyIsRead(c: Civil, date: int, read: Civil)
    requires c.year >= 0 && date == DateUtc(c.year, c.month - 1, c.day) && read == CivilOf(date)
    ensures ReadDateOnly(c) == if Exists(c) && c.year >= 100 then Ok(date) else Err(InvalidCalendarDate)
    ensures Exists(c) && c.year >= 100 ==> read == c && date == MakeDay(c.year, c.month - 1, c.day) * MS_PER_DAY
  {
    ReadBack(c, date, read);
    ReadIsCompared(c, date, read);
    ComparedBackExactly(c, date, read);
    if c.year >= 100 {
      LateUtcIsItsDay(c, date);
    }
  }

  /** A date in the form AAAA-MM-DD is accepted exactly when the day exists and its year is at least
      100; the time returned is midnight of that day and writes back to the same text. */
  lemma DateOnlyIsAcceptedExactly(dateOf: DateReader, value: string)
    requires IsDateOnly(value)
    ensures var c := Written(value);
            && (ParseCalendarDate(dateOf, value).Ok? <==> Exists(c) && c.year >= 100)
            && (ParseCalendarDate(dateOf, value).Ok? ==>
                  var time := ParseCalendarDate(dateOf, value).value;
                  time % MS_PER_DAY == 0 && CivilOf(time) == c && c.year <= 9999 && Render(c) == value)
  {
    var c := Written(value);
    var date := DateUtc(c.year, c.month - 1, c.day);
    DateOnlyIsRead(c, date, CivilOf(date));
    MidnightRemainder(MakeDay(MakeFullYear(c.year), c.month - 1, c.day));
    if Exists(c) {
      WrittenIsRendered(value);
    }
  }

  lemma MidnightRemainder(day: int)
    ensures (day * MS_PER_DAY) % MS_PER_DAY == 0
  {
  }

  /** Every day from the year 100 to 9999 has a text that is accepted and gives that day's midnight. */
  lemma EveryDayCanBeWritten(dateOf: DateReader, c: Civil)
    requires Exists(c) && 100 <= c.year <= 9999
    ensures ParseCalendarDate(dateOf, Render(c)) == Ok(MakeDay(c.year, c.month - 1, c.day) * MS_PER_DAY)
  {
    RenderIsRead(c);
    var date := DateUtc(c.year, c.month - 1, c.day);
    DateOnlyIsRead(c, date, CivilOf(date));
  }

  // The day a time is cut to is its own exactly outside the years 0 to 99.
  lemma CutKeepsTheDay(c: Civil, day: int, cut: int)
    requires Exists(c) && day == MakeDay(c.year, c.month - 1, c.day)
    requires cut == MakeDay(MakeFullYear(c.year), c.month - 1, c.day)
    ensures cut == day <==> !(0 <= c.year <= 99)
    ensures 0 <= c.year <= 99 ==> CivilFromDay(cut).year >= 1900
  {
    if 0 <= c.year <= 99 {
      EarlyDayIsNotReadBack(c, cut);
      CivilRoundTrip(c);
    }
  }

  lemma CutOfDay(time: int, day: int, c: Civil)
    requires day == time / MS_PER_DAY && Exists(c) && MakeDay(c.year, c.month - 1, c.day) == day
    ensures var cut := DateUtc(c.year, c.month - 1, c.day);
            && cut % MS_PER_DAY == 0
            && (cut <= time < cut + MS_PER_DAY <==> !(0 <= c.year <= 99))
            && (0 <= c.year <= 99 ==> CivilOf(cut).year >= 1900)
  {
    var cut := MakeDay(MakeFullYear(c.year), c.month - 1, c.day);
    MidnightOf(cut);
    MidnightRemainder(cut);
    SameDay(time, cut);
    CutKeepsTheDay(c, day, cut);
  }

  lemma CutMakesTheDay(time: int, day: int, c: Civil, cut: int)
    requires day == time / MS_PER_DAY && c == CivilFromDay(day) && cut == CutToDay(time)
    ensures cut == DateUtc(c.year, c.month - 1, c.day)
  {
  }

  lemma CutIsMidnight(time: int, day: int, c: Civil, cut: int)
    requires day == time / MS_PER_DAY && c == CivilFromDay(day) && cut == CutToDay(time)
    ensures cut % MS_PER_DAY == 0
    ensures cut <= time < cut + MS_PER_DAY <==> !(0 <= c.year <= 99)
    ensures 0 <= c.year <= 99 ==> CivilOf(cut).year >= 1900
  {
    CutMakesTheDay(time, day, c, cut);
    DayIsThere(day, c);
    CutOfDay(time, day, c);
  }

  lemma SameDay(time: int, day: int)
    ensures day * MS_PER_DAY <= time < day * MS_PER_DAY + MS_PER_DAY <==> day == time / MS_PER_DAY
  {
  }

  /** Outside AAAA-MM-DD only a full ISO time with a valid date is accepted. It is cut to midnight of its
      day in UTC exactly when the year is not 0 to 99; those years are moved into the twentieth century. */
  lemma IsoTimeIsCutToItsDay(dateOf: DateReader, value: string)
    requires !IsDateOnly(value)
    ensures ParseCalendarDate(dateOf, value).Ok? <==> IsFullIso(value) && dateOf(value).Some?
    ensures IsFullIso(value) && dateOf(value).Some? ==>
              var time := dateOf(value).value;
              var midnight := ParseCalendarDate(dateOf, value).value;
              && midnight % MS_PER_DAY == 0
              && (midnight <= time < midnight + MS_PER_DAY <==> !(0 <= CivilOf(time).year <= 99))
              && (0 <= CivilOf(time).year <= 99 ==> CivilOf(midnight).year >= 1900)
  {
    if IsFullIso(value) && dateOf(value).Some? {
      var time := dateOf(value).value;
      CutIsMidnight(time, time / MS_PER_DAY, CivilOf(time), CutToDay(time));
    }
  }

  // ---------- A time of the year 50 ----------

  const NOON_OF_YEAR_50 := -60_584_155_200_000
  const MARCH_1950 := -626_054_400_000

  // The number of the first of March of a year without a leap day.
  lemma FirstOfMarch(c: Civil, day: int)
    requires c.month == 3 && c.day == 1 && !IsLeap(c.year) && day == ClosedForm(c.year) + 59
    ensures Exists(c) && MakeDay(c.year, 2, 1) == day && CivilFromDay(day) == c
  {
    ClosedFormCountsYears(c.year);
    MakeDayInYear(c.year, 2, 1);
    assert DaysBefore(false, 1) == 31;
    CivilRoundTrip(c);
  }

  lemma YearFifty(c: Civil, d: Civil)
    requires c == Civil(50, 3, 1) && d == Civil(1950, 3, 1)
    ensures CivilOf(NOON_OF_YEAR_50) == c && CivilOf(MARCH_1950) == d && CutToDay(NOON_OF_YEAR_50) == MARCH_1950
  {
    FirstOfMarch(c, -701_206);
    FirstOfMarch(d, -7_246);
  }

  lemma NoonIsFullIso(value: string)
    requires value == "0050-03-01T12:00:00Z"
    ensures IsFullIso(value) && !IsDateOnly(value)
  {
    assert value[0..10] == "0050-03-01";
    assert value[16..19] == ":00" && value[19..] == "Z";
    assert SecondsEndAt(value, 19);
  }

  /** Noon of 1 March of the year 50 is stored as 1 March 1950. */
  lemma YearFiftyBecomes1950(dateOf: DateReader, value: string)
    requires value == "0050-03-01T12:00:00Z" && dateOf(value) == Some(NOON_OF_YEAR_50)
    ensures ParseCalendarDate(dateOf, value) == Ok(MARCH_1950)
    ensures CivilOf(NOON_OF_YEAR_50) == Civil(50, 3, 1) && CivilOf(MARCH_1950) == Civil(1950, 3, 1)
  {
    NoonIsFullIso(value);
    YearFifty(Civil(50, 3, 1), Civil(1950, 3, 1));
  }
}
