/** Calendar arithmetic of the C runtime: day numbers since 1970-01-01 and dates of the
    proleptic Gregorian calendar. C's truncating division, unsigned wrap-around and the
    conversion to a 32-bit int are written out, and so is where signed arithmetic
    overflows, which leaves a C program without a defined result. */
module CivilTime {
  const TWO32 := 0x1_0000_0000

  datatype Date = Date(y: int, m: int, d: int)

  // ---- C arithmetic ----------------------------------------------------------

  function U32(x: int): int { x % TWO32 }

  /** Conversion to int. */
  function I32(x: int): int {
    var r := x % TWO32;
    if r >= 0x8000_0000 then r - TWO32 else r
  }

  function CDiv(a: int, b: int): int
    requires b > 0
  {
    if a >= 0 then a / b else -(-a / b)
  }

  function CRem(a: int, b: int): int
    requires b > 0
  {
    a - b * CDiv(a, b)
  }

  const INT_MIN := -0x8000_0000
  const INT_MAX := 0x7FFF_FFFF

  predicate FitsInt(x: int) { INT_MIN <= x <= INT_MAX }

  predicate FitsLong(x: int) { -0x8000_0000_0000_0000 <= x < 0x8000_0000_0000_0000 }

  /** What a C function returns, unless signed arithmetic overflows on the way. */
  datatype Returned<T> = Overflow | Value(value: T)

  // ---- the code --------------------------------------------------------------

  function DaysFromCivil(date: Date): int {
    var y := if date.m <= 2 then date.y - 1 else date.y;
    var era := CDiv(if y >= 0 then y else y - 399, 400);
    var yoe := U32(y - era * 400);
    var doe := U32(yoe * 365 + yoe / 4 - yoe / 100 + DayOfYear(date.m, date.d));
    era * 146097 + doe - 719468
  }

  /** Day of the year that starts on 1 March. */
  function DayOfYear(m: int, d: int): int {
    var mp := U32(m + (if m > 2 then TWO32 - 3 else 9));
    U32(U32(153 * mp + 2) / 5 + d - 1)
  }

  /** Year of the era, from the day of the era. */
  function YearOfEra(doe: nat): int { (doe - doe / 1460 + doe / 36524 - doe / 146096) / 365 }

  /** The date of day `doy` of the year `y` that starts on 1 March. */
  function FromMarch(y: int, doy: int): Date {
    var mp := (5 * doy + 2) / 153;
    var d := doy - (153 * mp + 2) / 5 + 1;
    var m := U32(mp + (if mp < 10 then 3 else TWO32 - 9));
    Date(if m <= 2 then y + 1 else y, m, d)
  }

  function CivilFromDays(days: int): Date {
    var z := days + 719468;
    var era := CDiv(if z >= 0 then z else z - 146096, 146097);
    var doe: nat := U32(z - era * 146097);
    var yoe := YearOfEra(doe);
    FromMarch(I32(yoe + era * 400), doe - (365 * yoe + yoe / 4 - yoe / 100))
  }

  /** `days_from_civil` on an int: the March year, and 399 less of a negative one, must
      still be ints. */
  function DaysInC(date: Date): Returned<int>
    requires FitsInt(date.y)
  {
    var y := if date.m <= 2 then date.y - 1 else date.y;
    if !FitsInt(y) || (y < 0 && !FitsInt(y - 399)) then Overflow else Value(DaysFromCivil(date))
  }

  /** `civil_from_days`: the year, which is one more in January and February, must be an
      int. */
  function CivilInC(days: int): Returned<Date>
    requires FitsLong(days)
  {
    var z := days + 719468;
    var date := CivilFromDays(days);
    if !FitsLong(z) || (z < 0 && !FitsLong(z - 146096)) || !FitsInt(date.y) then Overflow else Value(date)
  }

  // ---- the calendar ----------------------------------------------------------

  predicate Leap(y: int) { y % 4 == 0 && (y % 100 != 0 || y % 400 == 0) }

  function DaysInMonth(y: int, m: int): int {
    if m == 2 then (if Leap(y) then 29 else 28)
    else if m in {4, 6, 9, 11} then 30
    else 31
  }

  predicate ValidDate(date: Date) {
    1 <= date.m <= 12 && 1 <= date.d <= DaysInMonth(date.y, date.m)
  }

  function NextDate(date: Date): Date {
    if date.d < DaysInMonth(date.y, date.m) then date.(d := date.d + 1)
    else if date.m < 12 then Date(date.y, date.m + 1, 1)
    else Date(date.y + 1, 1, 1)
  }

  // ---- inside a 400-year era, years starting on 1 March ----------------------

  /** Days of the era before its year `yoe`. */
  function DaysBeforeYear(yoe: nat): int { yoe * 365 + yoe / 4 - yoe / 100 }

  /** The last day of the year of the era `yoe`, which ends with February. */
  function LastDay(yoe: nat): int { if Leap(yoe + 1) then 365 else 364 }

  /** Days before month `mp`, counted from March. */
  function DaysBeforeMonth(mp: int): int { (153 * mp + 2) / 5 }

  lemma YearParts(c: nat, q: nat, r: nat)
    requires c < 4 && q < 25 && r < 4
    ensures DaysBeforeYear(100 * c + 4 * q + r) == 36524 * c + 1461 * q + 365 * r
    ensures Leap(100 * c + 4 * q + r + 1) <==> r == 3 && (q < 24 || c == 3)
  {
    var yoe := 100 * c + 4 * q + r;
    assert yoe / 4 == 25 * c + q;
    assert yoe / 100 == c;
    assert (yoe + 1) % 4 == 0 <==> r == 3;
    assert (yoe + 1) % 100 == 0 <==> q == 24 && r == 3;
    assert (yoe + 1) % 400 == 0 <==> c == 3 && q == 24 && r == 3;
  }

  /** The divisions by 1460, 36524 and 146096 find the year of the era. */
  lemma YearOfEraParts(c: nat, q: nat, r: nat, doy: nat)
    requires c < 4 && q < 25 && r < 4
    requires doy <= 364 || (doy == 365 && r == 3 && (q < 24 || c == 3))
    ensures YearOfEra(36524 * c + 1461 * q + 365 * r + doy) == 100 * c + 4 * q + r
  {
    var doe := 36524 * c + 1461 * q + 365 * r + doy;
    assert doe / 36524 - doe / 146096 == c;
    var e := if 24 * c + q + 365 * r + doy >= 1460 then 1 else 0;
    assert doe / 1460 == 25 * c + q + e;
    assert doe - doe / 1460 + c == 365 * (100 * c + 4 * q + r) + (doy - e);
    assert 0 <= doy - e <= 364;
  }

  /** Day of the era from year of the era and day of the year, and back. */
  lemma YearOfEraInverts(yoe: nat, doy: nat)
    requires yoe < 400 && doy <= LastDay(yoe)
    ensures 0 <= DaysBeforeYear(yoe) + doy <= 146096
    ensures YearOfEra(DaysBeforeYear(yoe) + doy) == yoe
  {
    var c, q, r := yoe / 100, yoe % 100 / 4, yoe % 4;
    assert yoe == 100 * c + 4 * q + r;
    YearParts(c, q, r);
    YearOfEraParts(c, q, r, doy);
  }

  /** Every day of the era is a day of one of its years. */
  lemma DayHasYear(doe: nat)
    requires doe <= 146096
    ensures var yoe := YearOfEra(doe);
            0 <= yoe < 400 && 0 <= doe - DaysBeforeYear(yoe) <= LastDay(yoe)
  {
    var c := if doe / 36524 < 4 then doe / 36524 else 3;
    var k := doe - 36524 * c;
    var q := if k / 1461 < 25 then k / 1461 else 24;
    var j := k - 1461 * q;
    var r := if j / 365 < 4 then j / 365 else 3;
    YearParts(c, q, r);
    YearOfEraParts(c, q, r, j - 365 * r);
  }

  /** The month formulas are inverse: month and day from day of year, and back. */
  lemma MonthInverts(mp: nat, d: nat)
    requires mp < 12 && 1 <= d
    requires d <= (if mp == 11 then 29 else if mp in {1, 3, 6, 8} then 30 else 31)
    ensures var doy := DaysBeforeMonth(mp) + d - 1; (5 * doy + 2) / 153 == mp && 0 <= doy <= 365
    ensures mp == 11 ==> DaysBeforeMonth(mp) + d - 1 == 336 + d
  {
  }

  lemma DayHasMonth(doy: nat)
    requires doy <= 365
    ensures var mp := (5 * doy + 2) / 153;
            var d := doy - DaysBeforeMonth(mp) + 1;
            0 <= mp < 12 && 1 <= d <= (if mp == 11 then 29 else if mp in {1, 3, 6, 8} then 30 else 31)
            && (mp == 11 ==> doy == 336 + d)
  {
  }

  // ---- dates and days --------------------------------------------------------

  lemma EraIsFloor(y: int)
    ensures CDiv(if y >= 0 then y else y - 399, 400) == y / 400
    ensures U32(y - y / 400 * 400) == y % 400
  {
  }

  lemma DayEraIsFloor(z: int)
    ensures CDiv(if z >= 0 then z else z - 146096, 146097) == z / 146097
    ensures U32(z - z / 146097 * 146097) == z % 146097
  {
  }

  lemma WholeEras(era: int, x: int)
    ensures (400 * era + x) % 4 == x % 4
    ensures (400 * era + x) % 100 == x % 100
    ensures (400 * era + x) % 400 == x % 400
  {
    Multiples4(100 * era, x);
    Multiples100(4 * era, x);
    Multiples400(era, x);
    assert 4 * (100 * era) == 400 * era && 100 * (4 * era) == 400 * era;
  }

  lemma Multiples400(k: int, x: int)
    ensures (400 * k + x) % 400 == x % 400
  {
  }

  lemma Multiples4(k: int, x: int)
    ensures (4 * k + x) % 4 == x % 4
  {
  }

  lemma Multiples100(k: int, x: int)
    ensures (100 * k + x) % 100 == x % 100
  {
  }

  lemma LeapInEra(y: int)
    ensures Leap(y + 1) <==> Leap(y % 400 + 1)
  {
    WholeEras(y / 400, y % 400 + 1);
    assert y + 1 == 400 * (y / 400) + (y % 400 + 1);
  }

  /** Years from March to February, and months counted from March. */
  function MarchYear(date: Date): int { if date.m <= 2 then date.y - 1 else date.y }

  function MarchMonth(date: Date): int { if date.m > 2 then date.m - 3 else date.m + 9 }

  function DayOfMarchYear(date: Date): int { DaysBeforeMonth(MarchMonth(date)) + date.d - 1 }

  lemma DayOfMarchYearRange(date: Date)
    requires ValidDate(date)
    ensures 0 <= DayOfMarchYear(date) <= LastDay(MarchYear(date) % 400)
    ensures (5 * DayOfMarchYear(date) + 2) / 153 == MarchMonth(date) && 0 <= MarchMonth(date) < 12
  {
    LeapInEra(MarchYear(date));
    MonthInverts(MarchMonth(date), date.d);
    hide Leap;
  }

  lemma Unwrapped(x: int)
    requires 0 <= x < TWO32
    ensures U32(x) == x
  {
  }

  lemma DayOfYearExact(date: Date)
    requires ValidDate(date)
    ensures DayOfYear(date.m, date.d) == DayOfMarchYear(date)
  {
    var mp := MarchMonth(date);
    assert U32(date.m + (if date.m > 2 then TWO32 - 3 else 9)) == mp;
    hide U32;
    Unwrapped(153 * mp + 2);
    Unwrapped((153 * mp + 2) / 5 + date.d - 1);
  }

  /** Day number of day `doy` of the year `y` that starts on 1 March. */
  function MarchDay(y: int, doy: int): int {
    y / 400 * 146097 + DaysBeforeYear(y % 400) + doy - 719468
  }

  /** The day number, without wrap-around. */
  lemma DaysFromValid(date: Date)
    requires ValidDate(date)
    ensures DaysFromCivil(date) == MarchDay(MarchYear(date), DayOfMarchYear(date))
  {
    hide U32, CDiv, Leap, DayOfYear, DayOfMarchYear, LastDay, YearOfEra;
    var y := MarchYear(date);
    DayOfYearExact(date);
    DayOfMarchYearRange(date);
    EraIsFloor(y);
    YearOfEraInverts(y % 400, DayOfMarchYear(date));
    Unwrapped(DaysBeforeYear(y % 400) + DayOfMarchYear(date));
  }

  /** The March year of a day, before it is converted to int. */
  function WideYear(days: int): int {
    YearOfEra((days + 719468) % 146097) + (days + 719468) / 146097 * 400
  }

  /** The date of a day, with that year. */
  function WideDate(days: int): Date {
    var doe: nat := (days + 719468) % 146097;
    FromMarch(WideYear(days), doe - DaysBeforeYear(YearOfEra(doe)))
  }

  lemma EraAndDay(era: int, doe: nat)
    requires doe < 146097
    ensures (era * 146097 + doe) / 146097 == era && (era * 146097 + doe) % 146097 == doe
  {
  }

  lemma EraAndYear(era: int, yoe: nat)
    requires yoe < 400
    ensures (yoe + era * 400) / 400 == era && (yoe + era * 400) % 400 == yoe
  {
  }

  /** March coordinates to date: a valid date with these coordinates. */
  lemma FromMarchValid(y: int, doy: int)
    requires 0 <= doy <= LastDay(y % 400)
    ensures var date := FromMarch(y, doy);
            ValidDate(date) && MarchYear(date) == y && DayOfMarchYear(date) == doy
  {
    DayHasMonth(doy);
    LeapInEra(y);
    hide Leap;
  }

  /** Date to March coordinates to date. */
  lemma FromMarchInverts(date: Date)
    requires ValidDate(date)
    ensures FromMarch(MarchYear(date), DayOfMarchYear(date)) == date
  {
    DayOfMarchYearRange(date);
  }

  /** March coordinates to day to March coordinates. */
  lemma MarchDayInverts(y: int, doy: int)
    requires 0 <= doy <= LastDay(y % 400)
    ensures WideYear(MarchDay(y, doy)) == y
    ensures WideDate(MarchDay(y, doy)) == FromMarch(y, doy)
  {
    var era, yoe := y / 400, y % 400;
    var doe := DaysBeforeYear(yoe) + doy;
    assert MarchDay(y, doy) + 719468 == era * 146097 + doe && y == yoe + era * 400;
    YearOfEraInverts(yoe, doy);
    hide DaysBeforeYear, YearOfEra, LastDay, FromMarch, MarchDay;
    EraAndDay(era, doe);
  }

  /** Date to day to date. */
  lemma DateRoundTrip(date: Date)
    requires ValidDate(date)
    ensures WideDate(DaysFromCivil(date)) == date && WideYear(DaysFromCivil(date)) == MarchYear(date)
  {
    DaysFromValid(date);
    DayOfMarchYearRange(date);
    FromMarchInverts(date);
    MarchDayInverts(MarchYear(date), DayOfMarchYear(date));
  }

  /** Day to date: a valid date, whose day it is. */
  lemma DayRoundTrip(days: int)
    ensures ValidDate(WideDate(days)) && DaysFromCivil(WideDate(days)) == days
    ensures MarchYear(WideDate(days)) == WideYear(days)
  {
    var z := days + 719468;
    var yoe: nat := YearOfEra(z % 146097);
    var doy := z % 146097 - DaysBeforeYear(yoe);
    DayHasYear(z % 146097);
    EraAndYear(z / 146097, yoe);
    hide YearOfEra, DaysBeforeYear, LastDay, FromMarch, DaysFromCivil, ValidDate;
    FromMarchValid(WideYear(days), doy);
    DaysFromValid(WideDate(days));
  }

  /** The conversion of the March year to int is the only thing the code adds. */
  lemma CivilIsNarrowed(days: int)
    ensures var doe: nat := (days + 719468) % 146097;
            CivilFromDays(days) == FromMarch(I32(WideYear(days)), doe - DaysBeforeYear(YearOfEra(doe)))
  {
    DayEraIsFloor(days + 719468);
    hide YearOfEra, CDiv, I32, FromMarch, U32;
  }

  lemma NarrowIffFits(x: int)
    ensures I32(x) == x <==> FitsInt(x)
    ensures FitsInt(I32(x))
  {
  }

  /** Narrowing changes the March year and nothing else. */
  lemma NarrowedYear(days: int)
    ensures MarchYear(CivilFromDays(days)) == I32(WideYear(days))
    ensures FitsInt(WideYear(days)) ==> CivilFromDays(days) == WideDate(days)
  {
    var doe: nat := (days + 719468) % 146097;
    CivilIsNarrowed(days);
    NarrowIffFits(WideYear(days));
    DayHasYear(doe);
    DayHasMonth(doe - DaysBeforeYear(YearOfEra(doe)));
    hide YearOfEra, DaysBeforeYear, I32, CivilFromDays, WideYear;
  }

  /** A year within the range of int keeps the day numbers far inside a long long. */
  lemma YearBoundsDays(days: int)
    ensures INT_MIN - 1 <= WideYear(days) <= INT_MAX + 1 ==> -0x100_0000_0000 <= days <= 0x100_0000_0000
  {
    var z := days + 719468;
    DayHasYear(z % 146097);
    hide YearOfEra, DaysBeforeYear;
  }

  /** The code gives the date of the day exactly if both the March year of the date and
      its year are ints. */
  lemma CivilIsRight(days: int)
    requires FitsLong(days)
    ensures CivilInC(days) == Value(WideDate(days)) <==>
            INT_MIN <= WideYear(days) && WideDate(days).y <= INT_MAX
  {
    NarrowedYear(days);
    NarrowIffFits(WideYear(days));
    DayRoundTrip(days);
    YearBoundsDays(days);
    hide CivilFromDays, I32, WideDate, WideYear, ValidDate, DaysFromCivil;
  }

  /** Date to day to date, in C: exactly for the dates that are not among the lowest 399
      years of an int. */
  lemma CivilDateRoundTrip(date: Date)
    requires ValidDate(date) && FitsInt(date.y)
    ensures DaysInC(date).Value? ==> FitsLong(DaysInC(date).value)
    ensures INT_MIN + 399 <= MarchYear(date) <==>
            DaysInC(date).Value? && CivilInC(DaysInC(date).value) == Value(date)
  {
    var days := DaysFromCivil(date);
    DateRoundTrip(date);
    YearBoundsDays(days);
    CivilIsRight(days);
    hide CivilInC, DaysFromCivil, WideDate, WideYear, ValidDate;
  }

  /** Day to date to day, in C: exactly for the days from the end of these years to the
      last day of the year INT_MAX. */
  lemma CivilRoundTrip(days: int)
    requires FitsLong(days)
    ensures INT_MIN + 399 <= WideYear(days) && WideDate(days).y <= INT_MAX <==>
            && CivilInC(days).Value? && ValidDate(CivilInC(days).value)
            && DaysInC(CivilInC(days).value) == Value(days)
  {
    NarrowedYear(days);
    NarrowIffFits(WideYear(days));
    DayRoundTrip(days);
    YearBoundsDays(days);
    hide CivilFromDays, I32, WideDate, WideYear, ValidDate, DaysFromCivil;
    var date := CivilFromDays(days);
    if ValidDate(date) && DaysFromCivil(date) == days {
      DateRoundTrip(date);
    }
  }

  /** January of the year 2^31 is a day whose March year is an int and whose year is not. */
  lemma JanuaryAfterIntMax()
    ensures var days := DaysFromCivil(Date(INT_MAX + 1, 1, 15));
            FitsLong(days) && FitsInt(WideYear(days)) && CivilInC(days) == Overflow
  {
    var date := Date(INT_MAX + 1, 1, 15);
    DateRoundTrip(date);
    var days := DaysFromCivil(date);
    YearBoundsDays(days);
    NarrowedYear(days);
    hide CivilFromDays, DaysFromCivil, WideYear, WideDate;
  }

  // ---- counting days one by one ----------------------------------------------

  lemma DivStep(x: nat)
    ensures (x + 1) / 4 == x / 4 + (if (x + 1) % 4 == 0 then 1 else 0)
    ensures (x + 1) / 100 == x / 100 + (if (x + 1) % 100 == 0 then 1 else 0)
  {
  }

  /** The next year of the era starts after the last day of this one. */
  lemma YearLength(yoe: nat)
    requires yoe < 400
    ensures DaysBeforeYear(yoe) + LastDay(yoe) + 1 == if yoe < 399 then DaysBeforeYear(yoe + 1) else 146097
  {
    DivStep(yoe);
    assert (yoe + 1) % 400 == 0 <==> yoe == 399;
    assert (yoe + 1) % 100 == 0 ==> (yoe + 1) % 4 == 0;
  }

  /** The day after a date is the next day of its March year, or the first of the next. */
  lemma NextInMarchYear(date: Date)
    requires ValidDate(date)
    ensures var next := NextDate(date);
            && ValidDate(next)
            && if DayOfMarchYear(date) < LastDay(MarchYear(date) % 400)
               then MarchYear(next) == MarchYear(date) && DayOfMarchYear(next) == DayOfMarchYear(date) + 1
               else MarchYear(next) == MarchYear(date) + 1 && DayOfMarchYear(next) == 0
  {
    LeapInEra(MarchYear(date));
    hide Leap;
  }

  lemma NextYear(y: int)
    ensures y % 400 < 399 ==> (y + 1) / 400 == y / 400 && (y + 1) % 400 == y % 400 + 1
    ensures y % 400 == 399 ==> (y + 1) / 400 == y / 400 + 1 && (y + 1) % 400 == 0
  {
  }

  lemma MarchDayNext(y: int, doy: int)
    requires 0 <= doy <= LastDay(y % 400)
    ensures doy == LastDay(y % 400) ==> MarchDay(y + 1, 0) == MarchDay(y, doy) + 1
  {
    NextYear(y);
    YearLength(y % 400);
    assert DaysBeforeYear(0) == 0;
    hide DaysBeforeYear, LastDay;
  }

  /** The day numbers are those of counting the calendar's days one after the other. */
  lemma CountsDays(date: Date)
    requires ValidDate(date)
    ensures ValidDate(NextDate(date)) && DaysFromCivil(NextDate(date)) == DaysFromCivil(date) + 1
  {
    NextInMarchYear(date);
    DayOfMarchYearRange(date);
    hide NextDate, DaysFromCivil, MarchYear, DayOfMarchYear, ValidDate, LastDay;
    DaysFromValid(date);
    DaysFromValid(NextDate(date));
    MarchDayNext(MarchYear(date), DayOfMarchYear(date));
    hide DaysBeforeYear;
  }

  lemma EpochIsDayZero()
    ensures DaysFromCivil(Date(1970, 1, 1)) == 0
  {
    hide DaysFromCivil;
    DaysFromValid(Date(1970, 1, 1));
  }

  // ---- seconds since the epoch -----------------------------------------------

  datatype Tm = Tm(year: int, mon: int, mday: int, hour: int, min: int, sec: int, wday: int, yday: int)

  /** time() on the fields of the clock. */
  function TimeInC(date: Date, h: int, mi: int, s: int): Returned<int>
    requires FitsInt(date.y)
  {
    match DaysInC(date)
    case Overflow => Overflow
    case Value(days) => Value(days * 86400 + h * 3600 + mi * 60 + s)
  }

  /** The fields that gmtime_r stores, with an exact year. */
  function GmTime(t: int): Tm {
    var date := CivilFromDays(DayOfTime(t));
    var rem := SecondOfDay(t);
    Tm(date.y - 1900, date.m - 1, date.d, CDiv(rem, 3600), CRem(CDiv(rem, 60), 60), CRem(rem, 60),
       WeekDay(DayOfTime(t)), 0)
  }

  function DayOfTime(t: int): int { if CRem(t, 86400) < 0 then CDiv(t, 86400) - 1 else CDiv(t, 86400) }

  function SecondOfDay(t: int): int { if CRem(t, 86400) < 0 then CRem(t, 86400) + 86400 else CRem(t, 86400) }

  lemma TimeIsSplit(t: int)
    ensures DayOfTime(t) == t / 86400 && SecondOfDay(t) == t % 86400
    ensures FitsLong(t) ==> FitsLong(t / 86400)
  {
  }

  /** gmtime_r: the date and its year less 1900 must not overflow. */
  function GmTimeInC(t: int): Returned<Tm>
    requires FitsLong(t)
  {
    TimeIsSplit(t);
    match CivilInC(DayOfTime(t))
    case Overflow => Overflow
    case Value(date) => if FitsInt(date.y - 1900) then Value(GmTime(t)) else Overflow
  }

  function WeekDay(days: int): int {
    if CRem(days + 4, 7) < 0 then CRem(days + 4, 7) + 7 else CRem(days + 4, 7)
  }

  function DateOf(tm: Tm): Date { Date(tm.year + 1900, tm.mon + 1, tm.mday) }

  predicate ValidClock(h: int, mi: int, s: int) { 0 <= h < 24 && 0 <= mi < 60 && 0 <= s < 60 }

  lemma SplitSeconds(t: int)
    ensures var tm := GmTime(t);
            && DateOf(tm) == CivilFromDays(t / 86400) && tm.wday == WeekDay(t / 86400)
            && ValidClock(tm.hour, tm.min, tm.sec)
            && tm.hour * 3600 + tm.min * 60 + tm.sec == t % 86400
  {
    TimeIsSplit(t);
    hide CivilFromDays, WeekDay, DayOfTime, SecondOfDay;
    ClockParts(t % 86400);
  }

  lemma ClockParts(rem: int)
    requires 0 <= rem < 86400
    ensures ValidClock(CDiv(rem, 3600), CRem(CDiv(rem, 60), 60), CRem(rem, 60))
    ensures CDiv(rem, 3600) * 3600 + CRem(CDiv(rem, 60), 60) * 60 + CRem(rem, 60) == rem
  {
    assert rem / 3600 == rem / 60 / 60;
  }

  /** gmtime_r gives the date of the day exactly from the year INT_MIN + 1900 to the
      year INT_MAX. */
  lemma GmTimeIsRight(t: int)
    requires FitsLong(t)
    ensures INT_MIN + 1900 <= WideDate(t / 86400).y <= INT_MAX <==>
            GmTimeInC(t).Value? && DateOf(GmTimeInC(t).value) == WideDate(t / 86400)
    ensures GmTimeInC(t).Value? ==>
              GmTimeInC(t).value == GmTime(t) && FitsInt(DateOf(GmTime(t)).y) && CivilInC(t / 86400).Value?
  {
    hide CivilFromDays, WideYear, WideDate, ValidDate, DayOfTime, SecondOfDay, CivilInC, GmTime;
    TimeIsSplit(t);
    CivilIsRight(t / 86400);
    DayRoundTrip(t / 86400);
    FieldsOfTime(t);
  }

  lemma FieldsOfTime(t: int)
    requires FitsLong(t)
    ensures GmTime(t).year == CivilFromDays(t / 86400).y - 1900 && DateOf(GmTime(t)) == CivilFromDays(t / 86400)
    ensures FitsLong(t / 86400)
    ensures CivilInC(t / 86400).Value? ==>
              CivilInC(t / 86400).value == CivilFromDays(t / 86400) && FitsInt(CivilFromDays(t / 86400).y)
  {
    hide CivilFromDays, WeekDay, DayOfTime, SecondOfDay;
    TimeIsSplit(t);
  }

  /** Broken-down time is the inverse of time() for exactly these times. */
  lemma GmTimeRoundTrip(t: int)
    requires FitsLong(t)
    ensures INT_MIN + 1900 <= WideDate(t / 86400).y <= INT_MAX <==>
            && GmTimeInC(t).Value?
            && var tm := GmTimeInC(t).value;
               && ValidDate(DateOf(tm)) && FitsInt(DateOf(tm).y)
               && TimeInC(DateOf(tm), tm.hour, tm.min, tm.sec) == Value(t)
  {
    hide GmTime, GmTimeInC, CivilFromDays, DaysFromCivil, WideYear, WideDate, ValidDate, CivilInC, ValidClock;
    SplitSeconds(t);
    GmTimeIsRight(t);
    FieldsOfTime(t);
    CivilIsRight(t / 86400);
    CivilRoundTrip(t / 86400);
    DayRoundTrip(t / 86400);
    MarchYearRange(WideDate(t / 86400));
    var date := CivilFromDays(t / 86400);
    if FitsInt(date.y) && DaysInC(date).Value? {
      SameDay(DaysInC(date).value, t);
    }
  }

  lemma SameDay(days: int, t: int)
    ensures days * 86400 + t % 86400 == t <==> days == t / 86400
  {
    assert t == t / 86400 * 86400 + t % 86400;
  }

  /** And a clock reading is broken down into itself, exactly from the year
      INT_MIN + 1900 on. */
  lemma ClockRoundTrip(date: Date, h: int, mi: int, s: int)
    requires ValidDate(date) && FitsInt(date.y) && ValidClock(h, mi, s)
    ensures TimeInC(date, h, mi, s).Value? ==> FitsLong(TimeInC(date, h, mi, s).value)
    ensures INT_MIN + 1900 <= date.y <==>
            && var time := TimeInC(date, h, mi, s);
            && time.Value? && GmTimeInC(time.value).Value?
            && var tm := GmTimeInC(time.value).value;
               DateOf(tm) == date && tm.hour == h && tm.min == mi && tm.sec == s
  {
    hide GmTime, GmTimeInC, CivilFromDays, DaysFromCivil, WideYear, WideDate, ValidDate, CivilInC, ValidClock;
    var days, rem := DaysFromCivil(date), h * 3600 + mi * 60 + s;
    var t := days * 86400 + rem;
    ClockInDay(h, mi, s);
    DayAndSecond(days, rem);
    DateRoundTrip(date);
    MarchYearRange(date);
    YearBoundsDays(days);
    GmTimeIsRight(t);
    SplitSeconds(t);
    SameClock(h, mi, s, GmTime(t).hour, GmTime(t).min, GmTime(t).sec);
  }

  lemma MarchYearRange(date: Date)
    ensures date.y - 1 <= MarchYear(date) <= date.y
  {
  }

  lemma ClockInDay(h: int, mi: int, s: int)
    requires ValidClock(h, mi, s)
    ensures 0 <= h * 3600 + mi * 60 + s < 86400
  {
  }

  lemma DayAndSecond(days: int, rem: int)
    requires 0 <= rem < 86400
    ensures (days * 86400 + rem) / 86400 == days && (days * 86400 + rem) % 86400 == rem
  {
  }

  lemma SameClock(h: int, mi: int, s: int, h': int, mi': int, s': int)
    requires ValidClock(h, mi, s) && ValidClock(h', mi', s')
    requires h * 3600 + mi * 60 + s == h' * 3600 + mi' * 60 + s'
    ensures h == h' && mi == mi' && s == s'
  {
  }

  /** A date of the year -2147481800 is found, but its year less 1900 is no int. */
  lemma LowYearOverflows()
    ensures var days := DaysFromCivil(Date(-2147481800, 6, 1));
            && FitsLong(days * 86400) && FitsLong(days)
            && CivilInC(days) == Value(Date(-2147481800, 6, 1)) && GmTimeInC(days * 86400) == Overflow
  {
    var date := Date(-2147481800, 6, 1);
    hide DaysFromCivil, CivilFromDays, WideYear, WideDate, GmTime, CivilInC;
    var days := DaysFromCivil(date);
    DateRoundTrip(date);
    YearBoundsDays(days);
    CivilIsRight(days);
    DayAndSecond(days, 0);
    TimeIsSplit(days * 86400);
  }

  /** Day 0 is a Thursday and the days of the week follow each other for ever. */
  lemma WeekDaysFollow(days: int)
    ensures WeekDay(0) == 4
    ensures 0 <= WeekDay(days) < 7 && WeekDay(days + 1) == (WeekDay(days) + 1) % 7
  {
    assert forall z :: WeekDay(z) == (z + 4) % 7;
  }

  /** POSIX wants the days since 1 January in tm_yday; the code always stores 0, which
      is right on 1 January only. */
  lemma YearDayIsRightOnJanuaryFirst(t: int)
    requires FitsLong(t) && INT_MIN + 1900 <= WideDate(t / 86400).y <= INT_MAX
    ensures GmTimeInC(t).Value?
    ensures var tm := GmTimeInC(t).value;
            var date := DateOf(tm);
            tm.yday == DaysFromCivil(date) - DaysFromCivil(Date(date.y, 1, 1)) <==> tm.mon == 0 && tm.mday == 1
  {
    hide DaysFromCivil, CivilFromDays, WideYear, WideDate, GmTimeInC, CivilInC;
    GmTimeIsRight(t);
    DayRoundTrip(t / 86400);
    var date := DateOf(GmTime(t));
    var first := Date(date.y, 1, 1);
    if DaysFromCivil(date) == DaysFromCivil(first) {
      DateRoundTrip(date);
      DateRoundTrip(first);
    }
  }
}
