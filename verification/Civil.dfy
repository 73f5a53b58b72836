/**
 The days-to-civil algorithm of the timestamp formatter: exact for every day number, by division
 alone, with no table and no loop.
 */
module Civil {
  datatype Date = Date(year: int, month: int, day: int)

  // ---------------------------------------------------------------------------------------
  // The calendar: proleptic Gregorian, as ISO 8601:2004 section 3.2.1 has it
  // ---------------------------------------------------------------------------------------

  predicate IsLeap(year: int) {
    year % 4 == 0 && (year % 100 != 0 || year % 400 == 0)
  }

  function MonthLength(year: int, month: int): int {
    if month == 2 then if IsLeap(year) then 29 else 28
    else if month == 4 || month == 6 || month == 9 || month == 11 then 30
    else 31
  }

  predicate IsDate(d: Date) {
    1 <= d.month <= 12 && 1 <= d.day <= MonthLength(d.year, d.month)
  }

  function Tomorrow(d: Date): Date {
    if d.day < MonthLength(d.year, d.month) then d.(day := d.day + 1)
    else if d.month < 12 then Date(d.year, d.month + 1, 1)
    else Date(d.year + 1, 1, 1)
  }

  /** The date `n` days after `d`. */
  function After(d: Date, n: nat): Date {
    if n == 0 then d else Tomorrow(After(d, n - 1))
  }

  // ---------------------------------------------------------------------------------------
  // The algorithm
  // ---------------------------------------------------------------------------------------

  /** Signed division of the source language: toward zero. */
  function Quotient(a: int, b: int): int
    requires b > 0
  {
    if a >= 0 then a / b else -(-a / b)
  }

  function YearOfEra(doe: int): int {
    (doe - doe / 1460 + doe / 36524 - doe / 146_096) / 365
  }

  /** The day of the shifted year, which starts on the first of March. */
  function DayOfYear(doe: int): int {
    var yoe := YearOfEra(doe);
    doe - (365 * yoe + yoe / 4 - yoe / 100)
  }

  /** Month and day of a day of the shifted year. */
  function MonthAndDay(doy: int): (int, int) {
    var mp := (5 * doy + 2) / 153;
    (if mp < 10 then mp + 3 else mp - 9, doy - (153 * mp + 2) / 5 + 1)
  }

  /** January and February belong to the next civil year. */
  function FromShifted(y: int, doy: int): Date {
    var (m, d) := MonthAndDay(doy);
    Date(if m <= 2 then y + 1 else y, m, d)
  }

  function EraOf(z: int): int {
    Quotient(if z >= 0 then z else z - 146_096, 146_097)
  }

  function FromEra(era: int, doe: int): Date {
    FromShifted(YearOfEra(doe) + era * 400, DayOfYear(doe))
  }

  function CivilFromDays(days: int): Date {
    var z := days + 719_468;
    var era := EraOf(z);
    FromEra(era, z - era * 146_097)
  }

  // ---------------------------------------------------------------------------------------
  // Year of era
  // ---------------------------------------------------------------------------------------

  /** Days of an era before a shifted year of it; the last year ends the era. */
  function DaysBeforeYear(yoe: int): int {
    365 * yoe + yoe / 4 - yoe / 100 + yoe / 400
  }

  /** A day is placed by its century, four-year cycle and rest; the three corrections drop just the
      leap days before it. */
  lemma YearOfEraInCentury(c: int, q: int, r: int)
    requires 0 <= c <= 3 && 0 <= q <= 24 && 0 <= r < 1461 && 1461 * q + r < 36524 + (if c == 3 then 1 else 0)
    ensures YearOfEra(36524 * c + 1461 * q + r) == 100 * c + 4 * q + (if r == 1460 then 3 else r / 365)
  {
    var doe := 36524 * c + 1461 * q + r;
    var e := if 24 * c + q + r >= 1460 then 1 else 0;
    var f := if doe == 146_096 then 1 else 0;
    assert doe / 1460 == 25 * c + q + e;
    assert doe / 36524 == c + f;
    assert doe / 146_096 == f;
    assert doe - doe / 1460 + doe / 36524 - doe / 146_096 == 365 * (100 * c + 4 * q) + (r - e);
    assert (r - e) / 365 == if r == 1460 then 3 else r / 365;
  }

  /** Where the shifted year of a century, cycle and place in the cycle begins and ends. */
  lemma YearBounds(c: int, q: int, k: int)
    requires 0 <= c <= 3 && 0 <= q <= 24 && 0 <= k <= 3
    ensures var yoe, first := 100 * c + 4 * q + k, 36524 * c + 1461 * q + 365 * k;
            && DaysBeforeYear(yoe) == first
            && DaysBeforeYear(yoe + 1)
               == first + (if k < 3 then 365 else if q < 24 then 366 else if c < 3 then 365 else 366)
  {
    var yoe := 100 * c + 4 * q + k;
    assert yoe / 4 == 25 * c + q && yoe / 100 == c && yoe / 400 == 0;
    assert (yoe + 1) / 4 == 25 * c + q + (if k < 3 then 0 else 1);
    assert (yoe + 1) / 100 == c + (if k < 3 || q < 24 then 0 else 1);
    assert (yoe + 1) / 400 == if k < 3 || q < 24 || c < 3 then 0 else 1;
  }

  /** Century, four-year cycle, and rest of a day of an era. */
  lemma PlaceInEra(doe: int) returns (c: int, q: int, r: int)
    requires 0 <= doe < 146_097
    ensures 0 <= c <= 3 && 0 <= q <= 24 && 0 <= r < 1461 && doe == 36524 * c + 1461 * q + r
    ensures 1461 * q + r < 36524 + (if c == 3 then 1 else 0)
  {
    c := if doe == 146_096 then 3 else doe / 36524;
    var rest := doe - 36524 * c;
    q, r := rest / 1461, rest % 1461;
  }

  lemma YearOfEraExact(doe: int)
    requires 0 <= doe < 146_097
    ensures 0 <= YearOfEra(doe) <= 399
    ensures DaysBeforeYear(YearOfEra(doe)) <= doe < DaysBeforeYear(YearOfEra(doe) + 1)
  {
    hide YearOfEra, DaysBeforeYear;
    var c, q, r := PlaceInEra(doe);
    YearOfEraInCentury(c, q, r);
    var k := if r == 1460 then 3 else r / 365;
    assert 0 <= k <= 3 && 365 * k <= r && (k < 3 ==> r < 365 * k + 365);
    YearBounds(c, q, k);
  }

  lemma {:induction false} DaysBeforeYearGrows(a: int, b: int)
    requires a <= b
    ensures DaysBeforeYear(a) <= DaysBeforeYear(b)
    decreases b - a
  {
    if a < b {
      DaysBeforeYearGrows(a, b - 1);
    }
  }

  /** The closed form of the inverse. */
  function DaysFromCivil(d: Date): int {
    var y := if d.month <= 2 then d.year - 1 else d.year;
    var mp := if d.month > 2 then d.month - 3 else d.month + 9;
    DaysBeforeYear(y) + (153 * mp + 2) / 5 + d.day - 1 - 719_468
  }

  // ---------------------------------------------------------------------------------------
  // Shifted years over all eras
  // ---------------------------------------------------------------------------------------

  /** February of shifted year `y` is in civil year `y + 1`, which decides its length. */
  lemma ShiftedYearLength(y: int)
    ensures DaysBeforeYear(y + 1) - DaysBeforeYear(y) == if IsLeap(y + 1) then 366 else 365
  {
    var b := (y + 1) / 400;
    var r := (y + 1) % 400;
    assert (y + 1) / 4 == 100 * b + r / 4 && (y + 1) / 100 == 4 * b + r / 100;
    assert y / 4 == if r % 4 == 0 then (y + 1) / 4 - 1 else (y + 1) / 4;
    assert y / 100 == if r % 100 == 0 then (y + 1) / 100 - 1 else (y + 1) / 100;
    assert y / 400 == if r == 0 then b - 1 else b;
  }

  lemma DaysBeforeYearOfEra(era: int, yoe: int)
    requires 0 <= yoe <= 400
    ensures DaysBeforeYear(400 * era + yoe) == 146_097 * era + DaysBeforeYear(yoe)
  {
    var y := 400 * era + yoe;
    assert y / 4 == 100 * era + yoe / 4 && y / 100 == 4 * era + yoe / 100 && y / 400 == era + yoe / 400;
  }

  /** The adjustment before the truncating division makes it round down. */
  lemma EraRoundsDown(z: int)
    ensures 0 <= z - EraOf(z) * 146_097 < 146_097
  {
  }

  lemma DayOfYearIsRest(doe: int)
    requires 0 <= YearOfEra(doe) <= 399
    ensures DayOfYear(doe) == doe - DaysBeforeYear(YearOfEra(doe))
  {
    hide YearOfEra;
    assert YearOfEra(doe) / 400 == 0;
  }

  lemma SplitEra(z: int, era: int, doe: int) returns (y: int, doy: int)
    requires z == era * 146_097 + doe && 0 <= doe < 146_097
    ensures z == DaysBeforeYear(y) + doy && 0 <= doy < DaysBeforeYear(y + 1) - DaysBeforeYear(y)
    ensures FromEra(era, doe) == FromShifted(y, doy)
  {
    hide YearOfEra, DayOfYear, DaysBeforeYear, FromShifted;
    var yoe := YearOfEra(doe);
    YearOfEraExact(doe);
    DayOfYearIsRest(doe);
    DaysBeforeYearOfEra(era, yoe);
    DaysBeforeYearOfEra(era, yoe + 1);
    y, doy := yoe + era * 400, DayOfYear(doe);
    assert y == 400 * era + yoe && y + 1 == 400 * era + (yoe + 1);
  }

  /** The year and the day of it that the algorithm splits a day number into. */
  lemma Split(days: int) returns (y: int, doy: int)
    ensures days + 719_468 == DaysBeforeYear(y) + doy
    ensures 0 <= doy < DaysBeforeYear(y + 1) - DaysBeforeYear(y)
    ensures CivilFromDays(days) == FromShifted(y, doy)
  {
    hide YearOfEra, DayOfYear, DaysBeforeYear, FromShifted;
    var z := days + 719_468;
    EraRoundsDown(z);
    y, doy := SplitEra(z, EraOf(z), z - EraOf(z) * 146_097);
  }

  lemma MonthAndDayExact(doy: int)
    requires 0 <= doy <= 365
    ensures var (m, d) := MonthAndDay(doy);
            var mp := if m > 2 then m - 3 else m + 9;
            && 1 <= m <= 12 && (153 * mp + 2) / 5 + d - 1 == doy
            && 1 <= d <= (if m == 2 then (if doy == 365 then 29 else 28) else MonthLength(0, m))
  {
  }

  /** A month's place in the shifted year gives back month and day. */
  lemma MonthAndDayInverse(m: int, d: int)
    requires 1 <= m <= 12 && 1 <= d <= (if m == 2 then 29 else MonthLength(0, m))
    ensures var doy := (153 * (if m > 2 then m - 3 else m + 9) + 2) / 5 + d - 1;
            MonthAndDay(doy) == (m, d) && 0 <= doy <= 365 && (doy == 365 <==> m == 2 && d == 29)
  {
  }

  // ---------------------------------------------------------------------------------------
  // Results
  // ---------------------------------------------------------------------------------------

  /** Every day number gives a date of the calendar, and the closed formula gives it back. */
  lemma CivilIsExact(days: int)
    ensures IsDate(CivilFromDays(days)) && DaysFromCivil(CivilFromDays(days)) == days
  {
    hide CivilFromDays;
    var y, doy := Split(days);
    ShiftedYearLength(y);
    MonthAndDayExact(doy);
  }

  lemma ShiftedYearIsUnique(y: int, doy: int, y': int, doy': int)
    requires DaysBeforeYear(y) + doy == DaysBeforeYear(y') + doy'
    requires 0 <= doy < DaysBeforeYear(y + 1) - DaysBeforeYear(y)
    requires 0 <= doy' < DaysBeforeYear(y' + 1) - DaysBeforeYear(y')
    ensures y == y' && doy == doy'
  {
    if y < y' {
      DaysBeforeYearGrows(y + 1, y');
    } else if y' < y {
      DaysBeforeYearGrows(y' + 1, y);
    }
  }

  lemma Shift(d: Date, days: int) returns (y: int, doy: int)
    requires IsDate(d) && days == DaysFromCivil(d)
    ensures days + 719_468 == DaysBeforeYear(y) + doy
    ensures 0 <= doy < DaysBeforeYear(y + 1) - DaysBeforeYear(y)
    ensures FromShifted(y, doy) == d
  {
    y := if d.month <= 2 then d.year - 1 else d.year;
    doy := days + 719_468 - DaysBeforeYear(y);
    MonthAndDayInverse(d.month, d.day);
    ShiftedYearLength(y);
  }

  /** Every date of the calendar is the date of its day number. */
  lemma CivilIsOnto(d: Date, days: int)
    requires IsDate(d) && days == DaysFromCivil(d)
    ensures CivilFromDays(days) == d
  {
    var y, doy := Split(days);
    var y', doy' := Shift(d, days);
    ShiftedYearIsUnique(y, doy, y', doy');
  }

  lemma TomorrowIsNext(d: Date)
    requires IsDate(d)
    ensures IsDate(Tomorrow(d)) && DaysFromCivil(Tomorrow(d)) == DaysFromCivil(d) + 1
  {
    hide DaysBeforeYear;
    if d.month == 2 {
      ShiftedYearLength(d.year - 1);
    }
  }

  /** The next day number gives the next day of the calendar, over all eras, before and after zero. */
  lemma SuccessorIsTomorrow(days: int)
    ensures CivilFromDays(days + 1) == Tomorrow(CivilFromDays(days))
  {
    CivilIsExact(days);
    var today := CivilFromDays(days);
    TomorrowIsNext(today);
    CivilIsOnto(Tomorrow(today), days + 1);
  }

  lemma {:induction false} AfterSteps(f: int -> Date, days: int, n: nat)
    requires forall k {:trigger Tomorrow(f(k))} :: f(k + 1) == Tomorrow(f(k))
    ensures After(f(days), n) == f(days + n)
  {
    if n > 0 {
      AfterSteps(f, days, n - 1);
      assert f(days + n - 1 + 1) == Tomorrow(f(days + n - 1));
    }
  }

  /** Day zero is the first of January 1970, and every day number counts calendar days from it, in
      both directions. */
  lemma CountsDaysFromTheEpoch(days: int)
    ensures var epoch := Date(1970, 1, 1);
            if days >= 0 then CivilFromDays(days) == After(epoch, days)
            else After(CivilFromDays(days), -days) == epoch
  {
    assert CivilFromDays(0) == Date(1970, 1, 1);
    hide CivilFromDays, Tomorrow;
    forall k ensures CivilFromDays(k + 1) == Tomorrow(CivilFromDays(k)) {
      SuccessorIsTomorrow(k);
    }
    if days >= 0 {
      AfterSteps(CivilFromDays, 0, days);
    } else {
      AfterSteps(CivilFromDays, days, -days);
    }
  }
}
