/** Calendar arithmetic: the class DateCache. Times are milliseconds and days are whole days since the epoch. */
module Dates {
  import opened Arithmetic

  const MS_PER_DAY: int := 24 * 60 * 60 * 1000
  const MS_PER_HOUR: int := 3600 * 1000
  const MAX_EPOCH_TIME_IN_MS: int := 0x7fff_ffff * 1000
  const MAX_TIME_BEFORE_UTC_IN_MS: int := 864000000 * 10000000 + 10 * MS_PER_DAY

  /** Division that truncates toward zero, and its remainder. */
  function TruncDiv(a: int, b: int): int
    requires b > 0
  {
    if a >= 0 then a / b else -((-a) / b)
  }

  function TruncMod(a: int, b: int): int
    requires b > 0
  {
    a - b * TruncDiv(a, b)
  }

  function DaysFromTime(time: int): int {
    var t := if time < 0 then time - (MS_PER_DAY - 1) else time;
    TruncDiv(t, MS_PER_DAY)
  }

  function TimeInDay(time: int, days: int): int {
    time - days * MS_PER_DAY
  }

  function Weekday(days: int): int {
    var result := TruncMod(days + 4, 7);
    if result >= 0 then result else result + 7
  }

  predicate IsLeap(year: int) {
    TruncMod(year, 4) == 0 && (TruncMod(year, 100) != 0 || TruncMod(year, 400) == 0)
  }

  /** The day number is the floor of the quotient, and fits in 32 bits for every time that a date can hold. */
  lemma DaysFromTimeIsFloor(time: int)
    ensures DaysFromTime(time) * MS_PER_DAY <= time < (DaysFromTime(time) + 1) * MS_PER_DAY
    ensures 0 <= TimeInDay(time, DaysFromTime(time)) < MS_PER_DAY
    ensures -MAX_TIME_BEFORE_UTC_IN_MS <= time <= MAX_TIME_BEFORE_UTC_IN_MS ==>
              -0x8000_0000 <= DaysFromTime(time) <= 0x7fff_ffff
  {
    if time < 0 {
      var a := MS_PER_DAY - 1 - time;
      assert a == (a / MS_PER_DAY) * MS_PER_DAY + a % MS_PER_DAY;
    }
  }

  lemma WeekdayIsMod(days: int)
    ensures Weekday(days) == (days + 4) % 7
    ensures 0 <= Weekday(days) < 7
  {
  }

  lemma LeapByFloor(year: int)
    ensures IsLeap(year) <==> year % 4 == 0 && (year % 100 != 0 || year % 400 == 0)
  {
  }

  // ----- the proleptic Gregorian calendar -----

  /** The day number of the first day of the year (section 15.9.1.3 of ECMA-262). */
  function DayFromYear(y: int): int {
    365 * (y - 1970) + (y - 1969) / 4 - (y - 1901) / 100 + (y - 1601) / 400
  }

  function DaysInYear(y: int): int {
    if IsLeap(y) then 366 else 365
  }

  lemma {:induction false} FloorStep(a: int, d: int)
    requires d > 1
    ensures (a + 1) / d == a / d + (if (a + 1) % d == 0 then 1 else 0)
  {
    var q, r := a / d, a % d;
    assert a == q * d + r;
    if r + 1 < d {
      DivModUnique(a + 1, d, q, r + 1);
    } else {
      DivModUnique(a + 1, d, q + 1, 0);
    }
  }

  lemma {:induction false} CongruentYears(y: int)
    ensures (y - 1968) % 4 == 0 <==> y % 4 == 0
    ensures (y - 1900) % 100 == 0 <==> y % 100 == 0
    ensures (y - 1600) % 400 == 0 <==> y % 400 == 0
    ensures y % 400 == 0 ==> y % 100 == 0
    ensures y % 100 == 0 ==> y % 4 == 0
  {
    ModShift(y, -492, 4);
    ModShift(y, -19, 100);
    ModShift(y, -4, 400);
    if y % 400 == 0 { ModShift(0, y / 400 * 4, 100); }
    if y % 100 == 0 { ModShift(0, y / 100 * 25, 4); }
  }

  lemma YearLength(y: int)
    ensures DayFromYear(y + 1) == DayFromYear(y) + DaysInYear(y)
    ensures DayFromYear(1970) == 0
  {
    LeapByFloor(y);
    CongruentYears(y);
    FloorStep(y - 1969, 4);
    FloorStep(y - 1901, 100);
    FloorStep(y - 1601, 400);
  }

  lemma {:induction false} LaterYear(y: int, z: int)
    requires y < z
    ensures DayFromYear(y) + DaysInYear(y) <= DayFromYear(z)
    decreases z - y
  {
    YearLength(y);
    if y + 1 < z {
      LaterYear(y + 1, z);
    }
  }

  /** The day of the year on which month 0 to 12 starts, month 12 being the next January. */
  function MonthStart(leap: bool, month: int): int
    requires 0 <= month <= 12
  {
    var starts := [0, 31, 59, 90, 120, 151, 181, 212, 243, 273, 304, 334, 365];
    starts[month] + (if leap && month >= 2 then 1 else 0)
  }

  /** April, June, September and November have 30 days, February has 28 or 29, and all the rest have 31. */
  lemma {:induction false} MonthLength(leap: bool, month: int)
    requires 0 <= month <= 11
    ensures MonthStart(leap, 0) == 0
    ensures MonthStart(leap, month + 1) - MonthStart(leap, month) ==
            if month == 1 then (if leap then 29 else 28) else if month in {3, 5, 8, 10} then 30 else 31
  {
  }

  lemma {:induction false} MonthsInOrder(leap: bool, m: int, n: int)
    requires 0 <= m < n <= 12
    ensures MonthStart(leap, m) < MonthStart(leap, n)
    decreases n - m
  {
    assert MonthStart(leap, m) < MonthStart(leap, m + 1);
    if m + 1 < n {
      MonthsInOrder(leap, m + 1, n);
    }
  }

  datatype Date = Date(year: int, month: int, day: int) {
    predicate Valid() {
      && 0 <= month <= 11
      && 1 <= day <= MonthStart(IsLeap(year), month + 1) - MonthStart(IsLeap(year), month)
    }
  }

  /** The first day of a month. */
  function DaysFromYearMonth(year: int, month: int): int
    requires 0 <= month <= 11
  {
    DayFromYear(year) + MonthStart(IsLeap(year), month)
  }

  function DaysFromDate(date: Date): int
    requires date.Valid()
  {
    DaysFromYearMonth(date.year, date.month) + date.day - 1
  }

  /** The calendar has 146097 days in 400 years, so that the year can be guessed and then corrected. */
  function YearFromDays(days: int): (y: int)
    ensures DayFromYear(y) <= days < DayFromYear(y) + DaysInYear(y)
  {
    var guess := 1970 + 400 * days / 146097;
    GuessIsClose(days);
    YearWithin(days, guess);
    if days < DayFromYear(guess) then guess - 1
    else if days < DayFromYear(guess + 1) then guess
    else guess + 1
  }

  lemma GuessIsClose(days: int)
    ensures var guess := 1970 + 400 * days / 146097;
            DayFromYear(guess - 1) <= days < DayFromYear(guess + 2)
  {
  }

  lemma {:induction false} YearWithin(days: int, guess: int)
    requires DayFromYear(guess - 1) <= days < DayFromYear(guess + 2)
    ensures days < DayFromYear(guess) ==> days < DayFromYear(guess - 1) + DaysInYear(guess - 1)
    ensures days < DayFromYear(guess + 1) ==> days < DayFromYear(guess) + DaysInYear(guess)
    ensures days < DayFromYear(guess + 1) + DaysInYear(guess + 1)
  {
    YearLength(guess - 1);
    YearLength(guess);
    YearLength(guess + 1);
  }

  function MonthFromDayInYear(leap: bool, k: int, m: int): (month: int)
    requires 0 <= m <= 11 && MonthStart(leap, m) <= k < MonthStart(leap, 12)
    ensures m <= month <= 11 && MonthStart(leap, month) <= k < MonthStart(leap, month + 1)
    decreases 12 - m
  {
    if k < MonthStart(leap, m + 1) then m else MonthFromDayInYear(leap, k, m + 1)
  }

  /** The inverse of DaysFromDate. */
  function YearMonthDayFromDays(days: int): (date: Date)
    ensures date.Valid() && DaysFromDate(date) == days
  {
    var y := YearFromDays(days);
    var k := days - DayFromYear(y);
    var m := MonthFromDayInYear(IsLeap(y), k, 0);
    Date(y, m, k - MonthStart(IsLeap(y), m) + 1)
  }

  /** Where a date lies within its year and the next. */
  lemma DateWithinYear(date: Date)
    requires date.Valid()
    ensures DayFromYear(date.year) <= DaysFromDate(date) < DayFromYear(date.year) + DaysInYear(date.year)
  {
    if date.month < 11 {
      MonthsInOrder(IsLeap(date.year), date.month + 1, 12);
    }
    if date.month > 0 {
      MonthsInOrder(IsLeap(date.year), 0, date.month);
    }
  }

  /** No two dates share a day. */
  lemma DateUnique(a: Date, b: Date)
    requires a.Valid() && b.Valid() && DaysFromDate(a) == DaysFromDate(b)
    ensures a == b
  {
    DateWithinYear(a);
    DateWithinYear(b);
    if a.year < b.year { LaterYear(a.year, b.year); }
    if b.year < a.year { LaterYear(b.year, a.year); }
    var leap := IsLeap(a.year);
    if a.month < b.month && a.month + 1 < b.month { MonthsInOrder(leap, a.month + 1, b.month); }
    if b.month < a.month && b.month + 1 < a.month { MonthsInOrder(leap, b.month + 1, a.month); }
  }

  // ----- equivalent years (section 15.9.1.9 of ECMA-262) -----

  /** The year for a kind of year and the weekday of its first day. */
  function YearOfKind(leap: bool, weekday: int): int {
    var recent := (if leap then 1956 else 1967) + TruncMod(weekday * 12, 28);
    // The year in the range 2008 to 2035 that is equivalent modulo 28.
    2008 + TruncMod(recent + 3 * 28 - 2008, 28)
  }

  function EquivalentYear(year: int): int {
    YearOfKind(IsLeap(year), Weekday(DaysFromYearMonth(year, 0)))
  }

  /** The same day of the same month of the equivalent year. */
  function EquivalentDay(days: int): int {
    var date := YearMonthDayFromDays(days);
    DaysFromYearMonth(EquivalentYear(date.year), date.month) + date.day - 1
  }

  function EquivalentTime(time: int): int {
    var days := DaysFromTime(time);
    EquivalentDay(days) * MS_PER_DAY + TimeInDay(time, days)
  }

  lemma {:induction false} TruncModIs(a: int, q: int, r: int)
    requires a >= 0 && a == 28 * q + r && 0 <= r < 28
    ensures TruncMod(a, 28) == r
  {
    DivModUnique(a, 28, q, r);
  }

  lemma {:induction false} YearOfKindIs(leap: bool, w: int, q: int, r: int, q': int, r': int)
    requires 0 <= w && w * 12 == 28 * q + r && 0 <= r < 28
    requires (if leap then 1956 else 1967) + r + 3 * 28 - 2008 == 28 * q' + r' && 0 <= r' < 28
    ensures YearOfKind(leap, w) == 2008 + r'
  {
    TruncModIs(w * 12, q, r);
    TruncModIs((if leap then 1956 else 1967) + r + 3 * 28 - 2008, q', r');
  }

  lemma {:induction false} LeapYearsOfKinds()
    ensures YearOfKind(true, 0) == 2012 && YearOfKind(true, 1) == 2024 && YearOfKind(true, 2) == 2008
    ensures YearOfKind(true, 3) == 2020 && YearOfKind(true, 4) == 2032 && YearOfKind(true, 5) == 2016
    ensures YearOfKind(true, 6) == 2028
  {
    YearOfKindIs(true, 0, 0, 0, 1, 4);
    YearOfKindIs(true, 1, 0, 12, 1, 16);
    YearOfKindIs(true, 2, 0, 24, 2, 0);
    YearOfKindIs(true, 3, 1, 8, 1, 12);
    YearOfKindIs(true, 4, 1, 20, 1, 24);
    YearOfKindIs(true, 5, 2, 4, 1, 8);
    YearOfKindIs(true, 6, 2, 16, 1, 20);
  }

  lemma {:induction false} CommonYearsOfKinds()
    ensures YearOfKind(false, 0) == 2023 && YearOfKind(false, 1) == 2035 && YearOfKind(false, 2) == 2019
    ensures YearOfKind(false, 3) == 2031 && YearOfKind(false, 4) == 2015 && YearOfKind(false, 5) == 2027
    ensures YearOfKind(false, 6) == 2011
  {
    YearOfKindIs(false, 0, 0, 0, 1, 15);
    YearOfKindIs(false, 1, 0, 12, 1, 27);
    YearOfKindIs(false, 2, 0, 24, 2, 11);
    YearOfKindIs(false, 3, 1, 8, 1, 23);
    YearOfKindIs(false, 4, 1, 20, 2, 7);
    YearOfKindIs(false, 5, 2, 4, 1, 19);
    YearOfKindIs(false, 6, 2, 16, 2, 3);
  }

  /** A year y of the range 2008 to 2035, with its kind and first weekday. */
  ghost predicate HasKind(y: int, leap: bool, w: int) {
    2008 <= y <= 2035 && IsLeap(y) == leap && Weekday(DayFromYear(y)) == w
  }

  lemma {:induction false} KindsOf2008And2011()
    ensures HasKind(2008, true, 2) && HasKind(2011, false, 6)
  {
  }

  lemma {:induction false} KindsOf2012And2015()
    ensures HasKind(2012, true, 0) && HasKind(2015, false, 4)
  {
  }

  lemma {:induction false} KindsOf2016And2019()
    ensures HasKind(2016, true, 5) && HasKind(2019, false, 2)
  {
  }

  lemma {:induction false} KindsOf2020And2023()
    ensures HasKind(2020, true, 3) && HasKind(2023, false, 0)
  {
  }

  lemma {:induction false} KindsOf2024And2027()
    ensures HasKind(2024, true, 1) && HasKind(2027, false, 5)
  {
  }

  lemma {:induction false} KindsOf2028And2031()
    ensures HasKind(2028, true, 6) && HasKind(2031, false, 3)
  {
  }

  lemma {:induction false} KindsOf2032And2035()
    ensures HasKind(2032, true, 4) && HasKind(2035, false, 1)
  {
  }

  lemma {:induction false} KindsOfYears()
    ensures HasKind(2012, true, 0) && HasKind(2024, true, 1) && HasKind(2008, true, 2) && HasKind(2020, true, 3)
    ensures HasKind(2032, true, 4) && HasKind(2016, true, 5) && HasKind(2028, true, 6)
    ensures HasKind(2023, false, 0) && HasKind(2035, false, 1) && HasKind(2019, false, 2) && HasKind(2031, false, 3)
    ensures HasKind(2015, false, 4) && HasKind(2027, false, 5) && HasKind(2011, false, 6)
  {
    KindsOf2008And2011();
    KindsOf2012And2015();
    KindsOf2016And2019();
    KindsOf2020And2023();
    KindsOf2024And2027();
    KindsOf2028And2031();
    KindsOf2032And2035();
  }

  lemma {:induction false} YearOfKindHasKind(leap: bool, w: int)
    requires 0 <= w < 7
    ensures HasKind(YearOfKind(leap, w), leap, w)
  {
    LeapYearsOfKinds();
    CommonYearsOfKinds();
    KindsOfYears();
    assert w == 0 || w == 1 || w == 2 || w == 3 || w == 4 || w == 5 || w == 6;
  }

  /** The equivalent year has the same calendar. */
  lemma {:induction false} EquivalentYearMatches(year: int)
    ensures 2008 <= EquivalentYear(year) <= 2035
    ensures IsLeap(EquivalentYear(year)) == IsLeap(year)
    ensures Weekday(DayFromYear(EquivalentYear(year))) == Weekday(DayFromYear(year))
  {
    var w := Weekday(DaysFromYearMonth(year, 0));
    WeekdayIsMod(DaysFromYearMonth(year, 0));
    YearOfKindHasKind(IsLeap(year), w);
  }

  lemma {:induction false} EquivalentYearIdempotent(year: int)
    ensures EquivalentYear(EquivalentYear(year)) == EquivalentYear(year)
  {
    EquivalentYearMatches(year);
  }

  /** The years that stand for all others. */
  const REPRESENTATIVE_YEARS: set<int> := {2008, 2011, 2012, 2015, 2016, 2019, 2020, 2023, 2024, 2027, 2028, 2031, 2032, 2035}

  lemma {:induction false} YearOfKindIsRepresentative(leap: bool, w: int)
    requires 0 <= w < 7
    ensures YearOfKind(leap, w) in REPRESENTATIVE_YEARS
  {
    LeapYearsOfKinds();
    CommonYearsOfKinds();
    assert w == 0 || w == 1 || w == 2 || w == 3 || w == 4 || w == 5 || w == 6;
  }

  lemma {:induction false} KindDetermines(year: int, leap: bool, w: int)
    requires HasKind(year, leap, w)
    ensures EquivalentYear(year) == YearOfKind(leap, w)
  {
  }

  lemma {:induction false} RepresentativeLeapYears(year: int)
    requires year in {2008, 2012, 2016, 2020, 2024, 2028, 2032}
    ensures EquivalentYear(year) == year
  {
    LeapYearsOfKinds();
    KindsOfYears();
    if year == 2012 { KindDetermines(year, true, 0); }
    else if year == 2024 { KindDetermines(year, true, 1); }
    else if year == 2008 { KindDetermines(year, true, 2); }
    else if year == 2020 { KindDetermines(year, true, 3); }
    else if year == 2032 { KindDetermines(year, true, 4); }
    else if year == 2016 { KindDetermines(year, true, 5); }
    else { KindDetermines(year, true, 6); }
  }

  lemma {:induction false} RepresentativeCommonYears(year: int)
    requires year in {2011, 2015, 2019, 2023, 2027, 2031, 2035}
    ensures EquivalentYear(year) == year
  {
    CommonYearsOfKinds();
    KindsOfYears();
    if year == 2023 { KindDetermines(year, false, 0); }
    else if year == 2035 { KindDetermines(year, false, 1); }
    else if year == 2019 { KindDetermines(year, false, 2); }
    else if year == 2031 { KindDetermines(year, false, 3); }
    else if year == 2015 { KindDetermines(year, false, 4); }
    else if year == 2027 { KindDetermines(year, false, 5); }
    else { KindDetermines(year, false, 6); }
  }

  lemma {:induction false} EquivalentYearIsRepresentative(year: int)
    ensures EquivalentYear(year) in REPRESENTATIVE_YEARS
  {
    var w := Weekday(DaysFromYearMonth(year, 0));
    WeekdayIsMod(DaysFromYearMonth(year, 0));
    YearOfKindIsRepresentative(IsLeap(year), w);
  }

  /** Exactly the representative years are kept. */
  lemma {:induction false} WhenYearIsKept(year: int)
    ensures EquivalentYear(year) == year <==> year in REPRESENTATIVE_YEARS
  {
    EquivalentYearIsRepresentative(year);
    if year in {2008, 2012, 2016, 2020, 2024, 2028, 2032} {
      RepresentativeLeapYears(year);
    } else if year in {2011, 2015, 2019, 2023, 2027, 2031, 2035} {
      RepresentativeCommonYears(year);
    }
  }

  lemma {:induction false} ShiftedWeekday(a: int, b: int, k: int)
    requires Weekday(a) == Weekday(b)
    ensures Weekday(a + k) == Weekday(b + k)
  {
    WeekdayIsMod(a);
    WeekdayIsMod(b);
    WeekdayIsMod(a + k);
    WeekdayIsMod(b + k);
    SevenDays(a + 4, b + 4, k);
  }

  lemma {:induction false} SevenDays(a: int, b: int, k: int)
    requires a % 7 == b % 7
    ensures (a + k) % 7 == (b + k) % 7
  {
    var j := a / 7 - b / 7;
    assert a + k == (b + k) + 7 * j;
  }

  lemma {:induction false} DayOfTime(days: int, inDay: int)
    requires 0 <= inDay < MS_PER_DAY
    ensures DaysFromTime(days * MS_PER_DAY + inDay) == days
  {
    var t := days * MS_PER_DAY + inDay;
    DaysFromTimeIsFloor(t);
  }

  lemma {:induction false} MovedDate(date: Date) returns (moved: Date)
    requires date.Valid()
    ensures moved == Date(EquivalentYear(date.year), date.month, date.day)
    ensures moved.Valid() && YearMonthDayFromDays(DaysFromDate(moved)) == moved
    ensures DaysFromDate(moved) - DayFromYear(moved.year) == DaysFromDate(date) - DayFromYear(date.year)
    ensures 0 <= DaysFromDate(moved) < 24837
  {
    EquivalentYearMatches(date.year);
    moved := Date(EquivalentYear(date.year), date.month, date.day);
    DateUnique(YearMonthDayFromDays(DaysFromDate(moved)), moved);
    RecentDays(moved);
  }

  lemma {:induction false} MovedWeekday(date: Date, moved: Date)
    requires date.Valid() && moved.Valid() && moved.year == EquivalentYear(date.year)
    requires DaysFromDate(moved) - DayFromYear(moved.year) == DaysFromDate(date) - DayFromYear(date.year)
    ensures Weekday(DaysFromDate(moved)) == Weekday(DaysFromDate(date))
  {
    EquivalentYearMatches(date.year);
    var a, b := DayFromYear(date.year), DayFromYear(moved.year);
    ShiftedWeekday(a, b, DaysFromDate(date) - a);
  }

  lemma {:induction false} EquivalentDayIs(days: int, date: Date, moved: Date)
    requires YearMonthDayFromDays(days) == date
    requires moved.Valid() && moved == Date(EquivalentYear(date.year), date.month, date.day)
    ensures EquivalentDay(days) == DaysFromDate(moved)
  {
  }

  /** What the equivalent day keeps, and the range it lands in. */
  lemma {:induction false} EquivalentDayKeeps(days: int)
    ensures var date := YearMonthDayFromDays(days);
            YearMonthDayFromDays(EquivalentDay(days)) == Date(EquivalentYear(date.year), date.month, date.day)
    ensures Weekday(EquivalentDay(days)) == Weekday(days)
    ensures 0 <= EquivalentDay(days) < 24837
  {
    var date := YearMonthDayFromDays(days);
    var moved := MovedDate(date);
    MovedWeekday(date, moved);
    EquivalentDayIs(days, date, moved);
  }

  lemma {:induction false} EquivalentDayIdempotent(days: int)
    ensures EquivalentDay(EquivalentDay(days)) == EquivalentDay(days)
  {
    EquivalentDayKeeps(days);
    EquivalentYearIdempotent(YearMonthDayFromDays(days).year);
  }

  lemma {:induction false} EquivalentTimeParts(time: int)
    ensures DaysFromTime(EquivalentTime(time)) == EquivalentDay(DaysFromTime(time))
    ensures TimeInDay(EquivalentTime(time), EquivalentDay(DaysFromTime(time))) == TimeInDay(time, DaysFromTime(time))
  {
    DaysFromTimeIsFloor(time);
    DayOfTime(EquivalentDay(DaysFromTime(time)), TimeInDay(time, DaysFromTime(time)));
  }

  /** The equivalent time keeps the month, the day of the month, the weekday and the time of the day, and can
      be handed to the operating system. */
  lemma {:induction false} EquivalentTimeKeeps(time: int)
    ensures var days, newDays := DaysFromTime(time), DaysFromTime(EquivalentTime(time));
            var date := YearMonthDayFromDays(days);
            && YearMonthDayFromDays(newDays) == Date(EquivalentYear(date.year), date.month, date.day)
            && Weekday(newDays) == Weekday(days)
            && TimeInDay(EquivalentTime(time), newDays) == TimeInDay(time, days)
    ensures 0 <= EquivalentTime(time) <= MAX_EPOCH_TIME_IN_MS
  {
    EquivalentTimeParts(time);
    EquivalentDayKeeps(DaysFromTime(time));
    DaysFromTimeIsFloor(time);
    EquivalentTimeInRange(EquivalentDay(DaysFromTime(time)), TimeInDay(time, DaysFromTime(time)));
  }

  lemma {:induction false} EquivalentTimeInRange(days: int, inDay: int)
    requires 0 <= days < 24837 && 0 <= inDay < MS_PER_DAY
    ensures 0 <= days * MS_PER_DAY + inDay <= MAX_EPOCH_TIME_IN_MS
  {
  }

  lemma {:induction false} EquivalentTimeIdempotent(time: int)
    ensures EquivalentTime(EquivalentTime(time)) == EquivalentTime(time)
  {
    EquivalentTimeParts(time);
    EquivalentDayIdempotent(DaysFromTime(time));
  }

  /** A time is kept exactly if it lies in a representative year. */
  lemma {:induction false} WhenTimeIsKept(time: int)
    ensures EquivalentTime(time) == time <==>
            YearMonthDayFromDays(DaysFromTime(time)).year in REPRESENTATIVE_YEARS
  {
    var days := DaysFromTime(time);
    EquivalentTimeKeeps(time);
    WhenYearIsKept(YearMonthDayFromDays(days).year);
    if EquivalentYear(YearMonthDayFromDays(days).year) == YearMonthDayFromDays(days).year {
      SameDateSameTime(time);
    }
  }

  lemma {:induction false} SameDateSameTime(time: int)
    requires var days, newDays := DaysFromTime(time), DaysFromTime(EquivalentTime(time));
             && YearMonthDayFromDays(newDays) == YearMonthDayFromDays(days)
             && TimeInDay(EquivalentTime(time), newDays) == TimeInDay(time, days)
    ensures EquivalentTime(time) == time
  {
  }

  lemma {:induction false} FirstDay(days: int)
    requires days == 0
    ensures YearMonthDayFromDays(days) == Date(1970, 0, 1)
  {
    var epoch := Date(1970, 0, 1);
    assert DaysFromDate(epoch) == 0;
    DateUnique(YearMonthDayFromDays(days), epoch);
  }

  lemma {:induction false} FirstDayIsZero(time: int)
    requires 0 <= time < MS_PER_DAY
    ensures DaysFromTime(time) == 0
  {
  }

  lemma {:induction false} YearOfFirstDay(time: int, days: int)
    requires days == DaysFromTime(time) && 0 <= time < MS_PER_DAY
    ensures YearMonthDayFromDays(days).year == 1970
  {
    FirstDayIsZero(time);
    FirstDay(days);
  }

  lemma {:induction false} MovedFromYear(time: int, year: int)
    requires YearMonthDayFromDays(DaysFromTime(time)).year == year && year !in REPRESENTATIVE_YEARS
    ensures EquivalentTime(time) != time
  {
    WhenTimeIsKept(time);
  }

  /** A time of the first day of the epoch is moved to another year, though the operating system accepts it. */
  lemma {:induction false} EpochIsMoved(time: int)
    requires 0 <= time < MS_PER_DAY
    ensures YearMonthDayFromDays(DaysFromTime(time)).year == 1970
    ensures EquivalentTime(time) != time && TimeForTimezone(time) == time
  {
    YearOfFirstDay(time, DaysFromTime(time));
    MovedFromYear(time, 1970);
  }

  lemma {:induction false} RecentDays(date: Date)
    requires date.Valid() && 2008 <= date.year <= 2035
    ensures 0 <= DaysFromDate(date) < 24837
  {
    DateWithinYear(date);
    assert DayFromYear(2036) == 24106 && DayFromYear(2008) == 13879;
    if date.year < 2036 { LaterYear(date.year, 2036); }
    if 2008 < date.year { LaterYear(2008, date.year); }
  }

  /** The time that LocalTimezone hands to the operating system. */
  function TimeForTimezone(time: int): (r: int)
    ensures 0 <= r <= MAX_EPOCH_TIME_IN_MS
  {
    EquivalentTimeKeeps(time);
    if time < 0 || time > MAX_EPOCH_TIME_IN_MS then EquivalentTime(time) else time
  }

  // ----- local time -----

  /** Daylight saving is either off or one hour. */
  ghost predicate IsDst(dst: int -> int) {
    forall t :: dst(t) == 0 || dst(t) == MS_PER_HOUR
  }

  function LocalTime(offset: int, dst: int -> int, time: int): int {
    time + offset + dst(time)
  }

  function UtcTime(offset: int, dst: int -> int, time: int): int {
    var t := time - offset;
    t - dst(t - MS_PER_HOUR)
  }

  /** Local time is ahead of UTC by the offset and the daylight saving. */
  lemma {:induction false} LocalIsAhead(offset: int, dst: int -> int, time: int)
    ensures LocalTime(offset, dst, time) - time == offset + dst(time)
    ensures time - UtcTime(offset, dst, time) == offset + dst(time - offset - MS_PER_HOUR)
  {
  }

  /** A time survives the trip to local time and back unless it repeats a local time of the hour before,
      which is what comes back then. */
  lemma UtcOfLocal(offset: int, dst: int -> int, t: int)
    requires IsDst(dst)
    ensures var repeated := dst(t) == 0 && dst(t - MS_PER_HOUR) == MS_PER_HOUR;
            UtcTime(offset, dst, LocalTime(offset, dst, t)) == if repeated then t - MS_PER_HOUR else t
  {
    assert t + dst(t) - MS_PER_HOUR == t || t + dst(t) - MS_PER_HOUR == t - MS_PER_HOUR;
  }

  /** Every local time that exists survives the trip to UTC and back. */
  lemma LocalOfUtcOfLocal(offset: int, dst: int -> int, t: int)
    requires IsDst(dst)
    ensures var local := LocalTime(offset, dst, t);
            LocalTime(offset, dst, UtcTime(offset, dst, local)) == local
  {
    UtcOfLocal(offset, dst, t);
  }

  /** The local times that do not survive are those that the clock skips, and they move on by an hour. */
  lemma LocalOfUtc(offset: int, dst: int -> int, local: int)
    requires IsDst(dst)
    ensures var back := LocalTime(offset, dst, UtcTime(offset, dst, local));
            && (back == local <==> exists t :: LocalTime(offset, dst, t) == local)
            && (back != local ==> back == local + MS_PER_HOUR)
  {
    var u := UtcTime(offset, dst, local);
    assert LocalTime(offset, dst, u) == u + offset + dst(u);
    if t :| LocalTime(offset, dst, t) == local {
      LocalOfUtcOfLocal(offset, dst, t);
    }
  }

  /** The offset of the time zone is asked of the operating system once. */
  class DateCache {
    const INVALID_LOCAL_OFFSET: int := 0x7fff_ffff
    var localOffset: int

    ghost function Offset(os: int): int
      reads this
    {
      if localOffset == INVALID_LOCAL_OFFSET then os else localOffset
    }

    method LocalOffsetInMs(os: int) returns (r: int)
      modifies this
      ensures r == old(Offset(os))
      ensures r == if old(localOffset) == INVALID_LOCAL_OFFSET then os else old(localOffset)
      ensures forall later :: os != INVALID_LOCAL_OFFSET ==> Offset(later) == r
    {
      if localOffset == INVALID_LOCAL_OFFSET {
        localOffset := os;
      }
      r := localOffset;
    }

    method ToLocal(time: int, os: int, dst: int -> int) returns (r: int)
      modifies this
      ensures r == LocalTime(old(Offset(os)), dst, time)
      ensures r - time == old(Offset(os)) + dst(time)
      ensures forall later :: os != INVALID_LOCAL_OFFSET ==> Offset(later) == old(Offset(os))
    {
      var offset := LocalOffsetInMs(os);
      r := time + offset + dst(time);
    }

    method ToUTC(time: int, os: int, dst: int -> int) returns (r: int)
      modifies this
      ensures r == UtcTime(old(Offset(os)), dst, time)
      ensures time - r == old(Offset(os)) + dst(time - old(Offset(os)) - MS_PER_HOUR)
      ensures forall later :: os != INVALID_LOCAL_OFFSET ==> Offset(later) == old(Offset(os))
    {
      var t := time;
      var offset := LocalOffsetInMs(os);
      t := t - offset;
      r := t - dst(t - MS_PER_HOUR);
    }
  }
}
