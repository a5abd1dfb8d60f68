/** Day numbers, civil dates and the names of the per-day log files (src/DayFile.cpp). */
module DayFile {

  const SECONDS_PER_DAY := 86400
  const UINT32 := 0x1_0000_0000

  datatype Date = Date(year: int, month: int, day: int)

  // ---------------------------------------------------------------------------------------
  // The reference: the proleptic Gregorian calendar of ISO 8601, one day at a time.
  // ---------------------------------------------------------------------------------------

  predicate Leap(y: int) {
    y % 4 == 0 && (y % 100 != 0 || y % 400 == 0)
  }

  function DaysInMonth(y: int, m: int): int {
    if m == 2 then (if Leap(y) then 29 else 28)
    else if m == 4 || m == 6 || m == 9 || m == 11 then 30
    else 31
  }

  predicate ValidDate(d: Date) {
    1 <= d.month <= 12 && 1 <= d.day <= DaysInMonth(d.year, d.month)
  }

  function NextDay(d: Date): Date {
    if d.day < DaysInMonth(d.year, d.month) then d.(day := d.day + 1)
    else if d.month < 12 then Date(d.year, d.month + 1, 1)
    else Date(d.year + 1, 1, 1)
  }

  function PreviousDay(d: Date): Date {
    if d.day > 1 then d.(day := d.day - 1)
    else if d.month > 1 then Date(d.year, d.month - 1, DaysInMonth(d.year, d.month - 1))
    else Date(d.year - 1, 12, 31)
  }

  const EPOCH := Date(1970, 1, 1)

  /** The date reached by stepping n days forward from 1970-01-01. */
  function CountForward(n: nat): Date {
    if n == 0 then EPOCH else NextDay(CountForward(n - 1))
  }

  /** Chronological order, which is also the order of the digits YYYYMMDD. */
  predicate Before(a: Date, b: Date) {
    || a.year < b.year
    || (a.year == b.year && a.month < b.month)
    || (a.year == b.year && a.month == b.month && a.day < b.day)
  }

  // ---------------------------------------------------------------------------------------
  // The code's closed form.
  // ---------------------------------------------------------------------------------------

  function DayNumberFromUtc(utc: nat): nat {
    utc / SECONDS_PER_DAY
  }

  /** The intermediate values of the closed form, in the source's own names. */
  datatype Parts = Parts(era: int, doe: int, yoe: int, doy: int, mp: int)

  function PartsOf(z: nat): Parts {
    var era := z / 146097;
    var doe := z - era * 146097;
    var yoe := (doe - doe / 1460 + doe / 36524 - doe / 146096) / 365;
    var doy := doe - (365 * yoe + yoe / 4 - yoe / 100);
    Parts(era, doe, yoe, doy, (5 * doy + 2) / 153)
  }

  function DateOfParts(p: Parts): Date {
    var d := p.doy - (153 * p.mp + 2) / 5 + 1;
    var m := if p.mp < 10 then p.mp + 3 else p.mp - 9;
    Date(p.yoe + p.era * 400 + (if m <= 2 then 1 else 0), m, d)
  }

  function CivilFromDays(days: nat): Date {
    DateOfParts(PartsOf(days + 719468))
  }

  // ---------------------------------------------------------------------------------------
  // The closed form is the calendar.
  // ---------------------------------------------------------------------------------------

  /** Days from the start of an era (1 March of a year divisible by 400) to year yoe of it. */
  function YearStart(yoe: int): int {
    365 * yoe + yoe / 4 - yoe / 100
  }

  /** Length of the March-to-February year yoe of an era: it ends in February of yoe + 1. */
  function YearLength(yoe: int): int {
    if Leap(yoe + 1) then 366 else 365
  }

  /** Days from 1 March to the first of month mp (March is 0). */
  function MonthStart(mp: int): int {
    (153 * mp + 2) / 5
  }

  /** Days to a year, by century, leap cycle and year within the cycle. */
  lemma YearStartByCycle(c: int, q: int, t: int)
    requires 0 <= c <= 3 && 0 <= q <= 24 && 0 <= t <= 3
    ensures var yoe := 100 * c + 4 * q + t;
      yoe / 4 == 25 * c + q && yoe / 100 == c && YearStart(yoe) == 36524 * c + 1461 * q + 365 * t
  {
  }

  /** Only the last year of a cycle is long, and not in the last cycle of a short century. */
  lemma LongYear(c: int, q: int, t: int)
    requires 0 <= c <= 3 && 0 <= q <= 24 && 0 <= t <= 3 && Leap(100 * c + 4 * q + t + 1)
    ensures t == 3 && (q == 24 ==> c == 3)
  {
  }

  /** Short centuries are told by division, the long one by the correction for its last day. */
  lemma CenturyOfDay(c: int, rest: int)
    requires 0 <= c <= 3 && 0 <= rest && (rest < 36524 || (c == 3 && rest == 36524))
    ensures (36524 * c + rest) / 36524 - (36524 * c + rest) / 146096 == c
  {
    if c == 0 {
    } else if c == 1 {
    } else if c == 2 {
    } else {
    }
  }

  /** Leap cycles are told by division, one too many near their end. */
  lemma CyclesOfDay(n: int, extra: int)
    requires 0 <= extra < 2 * 1460
    ensures (1460 * n + extra) / 1460 == n + if extra < 1460 then 0 else 1
  {
    if extra < 1460 {
      DivisionIsUnique(1460 * n + extra, 1460, n, extra);
    } else {
      DivisionIsUnique(1460 * n + extra, 1460, n + 1, extra - 1460);
    }
  }

  /** The closed form on the days, with the calendar's shape of a year already used. */
  lemma YearByDivision(c: int, q: int, t: int, doy: int)
    requires 0 <= c <= 3 && 0 <= q <= 24 && 0 <= t <= 3 && 0 <= doy <= 365
    requires doy == 365 ==> t == 3 && (q == 24 ==> c == 3)
    ensures var doe := 36524 * c + 1461 * q + 365 * t + doy;
      0 <= doe <= 146096 && (doe - doe / 1460 + doe / 36524 - doe / 146096) / 365 == 100 * c + 4 * q + t
  {
    var doe := 36524 * c + 1461 * q + 365 * t + doy;
    var extra := 24 * c + q + 365 * t + doy;
    var early := if extra < 1460 then 0 else 1;
    CenturyOfDay(c, 1461 * q + 365 * t + doy);
    CyclesOfDay(25 * c + q, extra);
    DivisionIsUnique(doe - doe / 1460 + doe / 36524 - doe / 146096, 365, 100 * c + 4 * q + t, doy - early);
  }

  /** The closed form finds the year of the era. */
  lemma YearOfEraFormula(c: int, q: int, t: int, doy: int)
    requires 0 <= c <= 3 && 0 <= q <= 24 && 0 <= t <= 3
    requires 0 <= doy < YearLength(100 * c + 4 * q + t)
    ensures var yoe := 100 * c + 4 * q + t; var doe := YearStart(yoe) + doy;
      0 <= doe <= 146096 && (doe - doe / 1460 + doe / 36524 - doe / 146096) / 365 == yoe
  {
    if Leap(100 * c + 4 * q + t + 1) {
      LongYear(c, q, t);
    }
    YearStartByCycle(c, q, t);
    hide Leap, YearStart;
    YearByDivision(c, q, t, doy);
  }

  lemma CycleDigits(yoe: int)
    requires 0 <= yoe <= 399
    ensures var c, q, t := yoe / 100, yoe % 100 / 4, yoe % 4;
      0 <= c <= 3 && 0 <= q <= 24 && 0 <= t <= 3 && yoe == 100 * c + 4 * q + t
  {
  }

  /** The era, year and day of an era-relative day are unique, and PartsOf finds them. */
  lemma PartsUnique(era: nat, yoe: int, doy: int)
    requires 0 <= yoe <= 399 && 0 <= doy < YearLength(yoe)
    ensures 0 <= YearStart(yoe) + doy <= 146096
    ensures var z := era * 146097 + YearStart(yoe) + doy;
      PartsOf(z) == Parts(era, YearStart(yoe) + doy, yoe, doy, (5 * doy + 2) / 153)
  {
    var doe := YearStart(yoe) + doy;
    assert 365 * yoe + yoe / 4 - yoe / 100 == YearStart(yoe);
    hide Leap, YearStart, YearLength;
    CycleDigits(yoe);
    YearOfEraFormula(yoe / 100, yoe % 100 / 4, yoe % 4, doy);
    DivisionIsUnique(era * 146097 + doe, 146097, era, doe);
  }

  /** Every day of an era lies in one year of one leap cycle of one century. */
  lemma YearOfEraExists(doe: int) returns (yoe: int, doy: int)
    requires 0 <= doe <= 146096
    ensures 0 <= yoe <= 399 && 0 <= doy < YearLength(yoe) && YearStart(yoe) + doy == doe
  {
    var c := if doe < 109572 then doe / 36524 else 3;
    var inCentury := doe - 36524 * c;
    var q := inCentury / 1461;
    var inCycle := inCentury - 1461 * q;
    var t := if inCycle < 1095 then inCycle / 365 else 3;
    yoe, doy := 100 * c + 4 * q + t, inCycle - 365 * t;
    assert yoe / 4 == 25 * c + q && yoe / 100 == c;
  }

  /** The commented ranges of the source: doe, yoe, doy and mp, and what each of them means. */
  lemma PartsRanges(z: nat)
    ensures var p := PartsOf(z);
      && 0 <= p.era && 0 <= p.doe <= 146096 && z == p.era * 146097 + p.doe
      && 0 <= p.yoe <= 399 && 0 <= p.doy < YearLength(p.yoe) <= 366
      && p.doe == YearStart(p.yoe) + p.doy
      && p.mp == (5 * p.doy + 2) / 153
      && 0 <= p.mp <= 11 && MonthStart(p.mp) <= p.doy < MonthStart(p.mp + 1)
  {
    hide PartsOf, YearStart;
    var era, doe := z / 146097, z % 146097;
    var yoe, doy := YearOfEraExists(doe);
    PartsUnique(era, yoe, doy);
  }

  lemma Shift(y: int, k: int, d: int)
    requires d > 0
    ensures (y + d * k) % d == y % d
  {
    var q := y / d + k;
    assert y + d * k == d * q + y % d by {
      assert d * q == d * (y / d) + d * k;
    }
    DivisionIsUnique(y + d * k, d, q, y % d);
  }

  lemma DivisionIsUnique(a: int, d: int, q: int, r: int)
    requires d > 0 && 0 <= r < d && a == d * q + r
    ensures a / d == q && a % d == r
  {
    var e := a / d - q;
    assert d * e == r - a % d;
    NoSmallMultiple(d, e);
  }

  lemma NoSmallMultiple(d: int, e: int)
    requires -d < d * e < d
    ensures e == 0
  {
  }

  lemma LeapIsPeriodic(y: int, k: int)
    ensures Leap(y + 400 * k) == Leap(y)
  {
    Shift(y, 100 * k, 4);
    Shift(y, 4 * k, 100);
    Shift(y, k, 400);
  }

  lemma YearStartStep(yoe: int)
    requires 0 <= yoe < 399
    ensures YearStart(yoe + 1) == YearStart(yoe) + YearLength(yoe)
    ensures YearLength(yoe + 1) >= 365
  {
    QuotientStep(yoe, 4);
    QuotientStep(yoe, 100);
  }

  lemma QuotientStep(y: int, d: int)
    requires 0 <= y && d > 0
    ensures (y + 1) / d == y / d + (if (y + 1) % d == 0 then 1 else 0)
  {
    if y % d + 1 < d {
      DivisionIsUnique(y + 1, d, y / d, y % d + 1);
    } else {
      DivisionIsUnique(y + 1, d, y / d + 1, 0);
    }
  }

  lemma LastYearOfEra()
    ensures YearStart(399) + YearLength(399) == 146097 && YearStart(0) == 0 && YearLength(0) >= 365
  {
  }

  /** How the parts move from one day to the next. */
  lemma PartsStep(z: nat)
    ensures var p := PartsOf(z); var next := PartsOf(z + 1);
      if p.doy + 1 < YearLength(p.yoe) then
        next.era == p.era && next.yoe == p.yoe && next.doy == p.doy + 1
      else
        next.doy == 0 && next.yoe + 400 * next.era == p.yoe + 400 * p.era + 1
  {
    hide PartsOf, YearStart, YearLength;
    PartsRanges(z);
    var p := PartsOf(z);
    if p.doy + 1 < YearLength(p.yoe) {
      PartsUnique(p.era, p.yoe, p.doy + 1);
    } else if p.yoe < 399 {
      YearStartStep(p.yoe);
      PartsUnique(p.era, p.yoe + 1, 0);
    } else {
      LastYearOfEra();
      PartsUnique(p.era + 1, 0, 0);
    }
  }

  /** Within a March-to-February year the months are cut where the calendar cuts them. */
  lemma MonthStep(p: Parts)
    requires 0 <= p.yoe <= 399 && 0 <= p.doy && p.doy + 1 < YearLength(p.yoe)
    requires p.mp == (5 * p.doy + 2) / 153
    ensures var next := p.(doe := p.doe + 1, doy := p.doy + 1, mp := (5 * (p.doy + 1) + 2) / 153);
      ValidDate(DateOfParts(p)) && DateOfParts(next) == NextDay(DateOfParts(p))
  {
    LeapIsPeriodic(p.yoe + 1, p.era);
    hide Leap, DateOfParts, NextDay, ValidDate, MonthStart;
    MonthOfDay(p.doy);
    MonthOfDay(p.doy + 1);
    var mp := (5 * (p.doy + 1) + 2) / 153;
    if p.doy + 1 < MonthStart(p.mp + 1) {
      MonthIsUnique(p.mp, mp, p.doy + 1);
      InsideMonth(p);
    } else {
      NextMonth(p.mp, mp, p.doy);
      EndOfMonth(p);
    }
  }

  lemma MonthIsUnique(mp: int, other: int, doy: int)
    requires MonthStart(mp) <= doy < MonthStart(mp + 1) && MonthStart(other) <= doy < MonthStart(other + 1)
    ensures mp == other
  {
  }

  lemma NextMonth(mp: int, next: int, doy: int)
    requires MonthStart(mp) <= doy && doy + 1 == MonthStart(mp + 1) && 0 <= next <= 11
    requires MonthStart(next) <= doy + 1 < MonthStart(next + 1)
    ensures next == mp + 1 && mp <= 10
  {
    assert MonthStart(mp + 1) < MonthStart(mp + 2);
    MonthIsUnique(mp + 1, next, doy + 1);
  }

  lemma InsideMonth(p: Parts)
    requires 0 <= p.mp <= 11 && MonthStart(p.mp) <= p.doy && p.doy + 1 < MonthStart(p.mp + 1)
    requires p.doy + 1 < YearLength(p.yoe) && Leap(p.yoe + 1) == Leap(p.yoe + 1 + 400 * p.era)
    ensures ValidDate(DateOfParts(p))
    ensures DateOfParts(p.(doe := p.doe + 1, doy := p.doy + 1)) == NextDay(DateOfParts(p))
  {
    hide Leap;
    MonthStartTable();
  }

  lemma EndOfMonth(p: Parts)
    requires 0 <= p.mp <= 10 && p.doy + 1 == MonthStart(p.mp + 1)
    ensures ValidDate(DateOfParts(p))
    ensures DateOfParts(p.(doe := p.doe + 1, doy := p.doy + 1, mp := p.mp + 1)) == NextDay(DateOfParts(p))
  {
    MonthStartTable();
  }

  lemma MonthStartTable()
    ensures MonthStart(0) == 0 && MonthStart(1) == 31 && MonthStart(2) == 61 && MonthStart(3) == 92
    ensures MonthStart(4) == 122 && MonthStart(5) == 153 && MonthStart(6) == 184 && MonthStart(7) == 214
    ensures MonthStart(8) == 245 && MonthStart(9) == 275 && MonthStart(10) == 306 && MonthStart(11) == 337
  {
  }

  lemma MonthOfDay(doy: int)
    requires 0 <= doy <= 365
    ensures var mp := (5 * doy + 2) / 153;
      0 <= mp <= 11 && MonthStart(mp) <= doy < MonthStart(mp + 1)
  {
  }

  /** The last day of a March-to-February year is the end of February. */
  lemma LastDayOfYear(p: Parts)
    requires 0 <= p.yoe <= 399 && p.doy + 1 == YearLength(p.yoe)
    requires p.mp == (5 * p.doy + 2) / 153
    ensures var d := DateOfParts(p);
      d.year == p.yoe + 400 * p.era + 1 && d.month == 2 && d.day == DaysInMonth(d.year, 2)
  {
    LeapIsPeriodic(p.yoe + 1, p.era);
  }

  lemma FirstOfMarch(p: Parts, next: Parts)
    requires var d := DateOfParts(p);
      d.year == p.yoe + 400 * p.era + 1 && d.month == 2 && d.day == DaysInMonth(d.year, 2)
    requires next.doy == 0 && next.mp == 0 && next.yoe + 400 * next.era == p.yoe + 400 * p.era + 1
    ensures ValidDate(DateOfParts(p)) && DateOfParts(next) == NextDay(DateOfParts(p))
  {
  }

  /** The closed form steps as the calendar does, and always yields a date that exists. */
  lemma CivilStep(n: nat)
    ensures ValidDate(CivilFromDays(n))
    ensures CivilFromDays(n + 1) == NextDay(CivilFromDays(n))
  {
    hide PartsOf, DateOfParts, NextDay, YearLength, YearStart, MonthStart, ValidDate, DaysInMonth;
    var z := n + 719468;
    var p, next := PartsOf(z), PartsOf(z + 1);
    PartsRanges(z);
    PartsRanges(z + 1);
    PartsStep(z);
    if p.doy + 1 < YearLength(p.yoe) {
      MonthStep(p);
    } else {
      LastDayOfYear(p);
      FirstOfMarch(p, next);
    }
  }

  lemma CivilAtEpoch()
    ensures CivilFromDays(0) == EPOCH
  {
    hide PartsOf;
    PartsUnique(4, 369, 306);
  }

  /** Main result: the closed form is counting forward from the epoch, for every day number. */
  lemma {:induction false} CivilIsCalendar(n: nat)
    ensures CivilFromDays(n) == CountForward(n)
    ensures ValidDate(CivilFromDays(n))
  {
    hide CivilFromDays, NextDay;
    CivilStep(n);
    if n == 0 {
      CivilAtEpoch();
    } else {
      CivilIsCalendar(n - 1);
      CivilStep(n - 1);
    }
  }

  lemma NextDayIsLater(d: Date)
    requires ValidDate(d)
    ensures ValidDate(NextDay(d)) && Before(d, NextDay(d))
  {
  }

  /** Later days have later dates. */
  lemma {:induction false} CivilIsMonotone(a: nat, b: nat)
    requires a < b
    ensures Before(CivilFromDays(a), CivilFromDays(b))
    decreases b
  {
    hide CivilFromDays, NextDay;
    CivilStep(b - 1);
    NextDayIsLater(CivilFromDays(b - 1));
    if a < b - 1 {
      CivilIsMonotone(a, b - 1);
    }
  }

  lemma PreviousThenNext(d: Date)
    requires ValidDate(d)
    ensures NextDay(PreviousDay(d)) == d && ValidDate(PreviousDay(d)) && Before(PreviousDay(d), d)
    ensures Before(EPOCH, d) ==> !Before(PreviousDay(d), EPOCH)
  {
  }

  /** Every date from the epoch on is the date of a day number; with monotonicity, of exactly one. */
  lemma {:induction false} EveryDateIsReached(d: Date) returns (n: nat)
    requires ValidDate(d) && !Before(d, EPOCH)
    ensures CivilFromDays(n) == d
    decreases d.year, d.month, d.day
  {
    hide CivilFromDays, NextDay, PreviousDay, ValidDate;
    if d == EPOCH {
      CivilAtEpoch();
      n := 0;
    } else {
      var p := PreviousDay(d);
      PreviousThenNext(d);
      var m := EveryDateIsReached(p);
      CivilStep(m);
      n := m + 1;
    }
  }

  // ---------------------------------------------------------------------------------------
  // File names.
  // ---------------------------------------------------------------------------------------

  datatype Option<+T> = None | Some(value: T)

  function Digit(n: nat): char
    requires n < 10
  {
    '0' + (n as char)
  }

  /** What printf writes for %lu. */
  function Decimal(n: nat): string {
    if n < 10 then [Digit(n)] else Decimal(n / 10) + [Digit(n % 10)]
  }

  /** What printf writes for %0<width>lu. */
  function ZeroPadded(n: nat, width: nat): string {
    var digits := Decimal(n);
    if |digits| < width then seq(width - |digits|, _ => '0') + digits else digits
  }

  /** The text of the snprintf calls, before any truncation. */
  function Name(prefix: string, utc: nat): string {
    if utc == 0 then prefix + "-noclock.csv"
    else
      var d := CivilFromDays(DayNumberFromUtc(utc));
      CivilStep(DayNumberFromUtc(utc));
      YearIsPositive(DayNumberFromUtc(utc));
      prefix + "-" + ZeroPadded(d.year, 4) + ZeroPadded(d.month, 2) + ZeroPadded(d.day, 2) + ".csv"
  }

  lemma YearIsPositive(n: nat)
    ensures CivilFromDays(n).year >= 1970
  {
    hide CivilFromDays, NextDay;
    CivilAtEpoch();
    if n > 0 {
      CivilIsMonotone(0, n);
    }
  }

  lemma YearRange(utc: nat)
    requires utc < UINT32
    ensures 1970 <= CivilFromDays(DayNumberFromUtc(utc)).year <= 2106
  {
    var n := DayNumberFromUtc(utc);
    assert n <= 49710;
    YearRangeOfDay(n);
  }

  lemma YearRangeOfDay(n: nat)
    requires n <= 49710
    ensures 1970 <= CivilFromDays(n).year <= 2106
  {
    LastDay();
    YearIsPositive(n);
    if n < 49710 {
      hide CivilFromDays;
      CivilIsMonotone(n, 49710);
    }
  }

  lemma LastDay()
    ensures CivilFromDays(49710) == Date(2106, 2, 7)
  {
    hide PartsOf;
    PartsUnique(5, 105, 343);
  }

  /** The last `width` decimal digits of n. */
  function Fixed(n: nat, width: nat): (s: string)
    ensures |s| == width
  {
    if width == 0 then "" else Fixed(n / 10, width - 1) + [Digit(n % 10)]
  }

  function Pow10(k: nat): nat {
    if k == 0 then 1 else 10 * Pow10(k - 1)
  }

  lemma {:induction false} FixedZero(width: nat)
    ensures Fixed(0, width) == seq(width, _ => '0')
  {
    if width > 0 {
      FixedZero(width - 1);
    }
  }

  lemma {:induction false} PaddedIsFixed(n: nat, width: nat)
    requires width > 0 && n < Pow10(width)
    ensures ZeroPadded(n, width) == Fixed(n, width)
  {
    if n < 10 {
      FixedZero(width - 1);
    } else {
      PaddedIsFixed(n / 10, width - 1);
    }
  }

  predicate LexLess(a: string, b: string) {
    if a == [] || b == [] then a == [] && b != []
    else a[0] < b[0] || (a[0] == b[0] && LexLess(a[1..], b[1..]))
  }

  lemma {:induction false} LexPrefix(p: string, a: string, b: string)
    ensures LexLess(p + a, p + b) == LexLess(a, b)
  {
    if p == [] {
      assert p + a == a && p + b == b;
    } else {
      LexPrefix(p[1..], a, b);
      assert (p + a)[1..] == p[1..] + a && (p + b)[1..] == p[1..] + b;
    }
  }

  /** Among strings with heads of one length, the heads decide unless they are equal. */
  lemma {:induction false} LexHeads(a: string, b: string, s: string, t: string)
    requires |a| == |b| && a != b
    ensures LexLess(a + s, b + t) == LexLess(a, b)
  {
    assert (a + s)[0] == a[0] && (b + t)[0] == b[0];
    assert (a + s)[1..] == a[1..] + s && (b + t)[1..] == b[1..] + t;
    if a[0] == b[0] {
      assert a == [a[0]] + a[1..] && b == [b[0]] + b[1..];
      LexHeads(a[1..], b[1..], s, t);
    }
  }

  lemma LexSingle(c: char, d: char)
    ensures LexLess([c], [d]) == (c < d)
  {
  }

  /** Digits of one width sort as the numbers do. */
  lemma {:induction false} FixedOrder(x: nat, y: nat, width: nat)
    requires x < Pow10(width) && y < Pow10(width)
    ensures LexLess(Fixed(x, width), Fixed(y, width)) == (x < y)
    ensures Fixed(x, width) == Fixed(y, width) <==> x == y
  {
    if width > 0 {
      assert x / 10 < Pow10(width - 1) && y / 10 < Pow10(width - 1);
      FixedOrder(x / 10, y / 10, width - 1);
      var a, b := Fixed(x / 10, width - 1), Fixed(y / 10, width - 1);
      var c, d := [Digit(x % 10)], [Digit(y % 10)];
      LexSingle(c[0], d[0]);
      assert (a + c)[..width - 1] == a && (b + d)[..width - 1] == b;
      assert (a + c)[width - 1] == c[0] && (b + d)[width - 1] == d[0];
      if a == b {
        LexPrefix(a, c, d);
      } else {
        LexHeads(a, b, c, d);
      }
    }
  }

  /** Eight digits YYYYMMDD. */
  function DateDigits(d: Date): (s: string)
    requires 0 <= d.year && 0 <= d.month && 0 <= d.day
    ensures |s| == 8
  {
    Fixed(d.year, 4) + Fixed(d.month, 2) + Fixed(d.day, 2)
  }

  predicate FourDigitDate(d: Date) {
    0 <= d.year < 10000 && ValidDate(d)
  }

  lemma DateDigitsOrder(a: Date, b: Date)
    requires FourDigitDate(a) && FourDigitDate(b)
    ensures LexLess(DateDigits(a), DateDigits(b)) == Before(a, b)
    ensures DateDigits(a) == DateDigits(b) <==> a == b
  {
    assert Pow10(2) == 100 && Pow10(4) == 10000;
    FixedOrder(a.year, b.year, 4);
    FixedOrder(a.month, b.month, 2);
    FixedOrder(a.day, b.day, 2);
    var y1, m1, d1 := Fixed(a.year, 4), Fixed(a.month, 2), Fixed(a.day, 2);
    var y2, m2, d2 := Fixed(b.year, 4), Fixed(b.month, 2), Fixed(b.day, 2);
    assert DateDigits(a) == y1 + (m1 + d1) && DateDigits(b) == y2 + (m2 + d2);
    ThreeParts(y1, m1, d1, y2, m2, d2);
  }

  lemma ThreeParts(a: string, b: string, c: string, x: string, y: string, z: string)
    requires |a| == |x| && |b| == |y| && |c| == |z|
    ensures LexLess(a + (b + c), x + (y + z)) ==
            if a != x then LexLess(a, x) else if b != y then LexLess(b, y) else LexLess(c, z)
    ensures a + (b + c) == x + (y + z) <==> a == x && b == y && c == z
  {
    var s, t := a + (b + c), x + (y + z);
    assert s[..|a|] == a && t[..|a|] == x && s[|a|..] == b + c && t[|a|..] == y + z;
    assert (b + c)[..|b|] == b && (y + z)[..|b|] == y && (b + c)[|b|..] == c && (y + z)[|b|..] == z;
    if a != x {
      LexHeads(a, x, b + c, y + z);
    } else {
      LexPrefix(a, b + c, y + z);
      if b != y {
        LexHeads(b, y, c, z);
      } else {
        LexPrefix(b, c, z);
      }
    }
  }

  /** A dated name is the prefix, a dash, eight digits and the extension. */
  lemma NameShape(prefix: string, utc: nat)
    requires 0 < utc < UINT32
    ensures var d := CivilFromDays(DayNumberFromUtc(utc));
      FourDigitDate(d) && Name(prefix, utc) == prefix + ("-" + (DateDigits(d) + ".csv"))
  {
    hide CivilFromDays;
    YearRange(utc);
    CivilStep(DayNumberFromUtc(utc));
    var d := CivilFromDays(DayNumberFromUtc(utc));
    assert Pow10(2) == 100 && Pow10(4) == 10000;
    PaddedIsFixed(d.year, 4);
    PaddedIsFixed(d.month, 2);
    PaddedIsFixed(d.day, 2);
  }

  /** What a buffer of `size` bytes holds of a text after snprintf: all of it, or a cut. */
  function Kept(text: string, size: nat): string
    requires size > 0
  {
    if |text| < size then text else text[..size - 1]
  }

  /** The code's own size check (line 34): room for the no-clock name, and for that one only. */
  predicate CodeAccepts(prefix: string, size: nat) {
    size >= |prefix| + |"-noclock.csv"| + 1
  }

  /**
   * The check at line 34 promises a complete name. It keeps that promise exactly when there is
   * no clock or the buffer has one byte more than the check asks for.
   */
  lemma NameIsComplete(prefix: string, utc: nat, size: nat)
    requires utc < UINT32 && CodeAccepts(prefix, size)
    ensures Kept(Name(prefix, utc), size) == Name(prefix, utc) <==> utc == 0 || size >= |prefix| + 14
  {
    if utc != 0 {
      NameShape(prefix, utc);
    }
  }

  /** A buffer the check accepts, and a name that loses its last character in it. */
  lemma NameCanBeCut()
    ensures CodeAccepts("gnss", 17)
    ensures |Kept(Name("gnss", 1_800_000_000), 17)| == 16 < |Name("gnss", 1_800_000_000)|
  {
    NameShape("gnss", 1_800_000_000);
  }

  /** The digits are never what a name loses. */
  lemma DigitsAreKept(prefix: string, digits: string, size: nat)
    requires |digits| == 8 && CodeAccepts(prefix, size)
    ensures var kept := Kept(prefix + ("-" + (digits + ".csv")), size); var p := |prefix|;
      |kept| >= p + 9 && kept[p + 1..p + 9] == digits
  {
    var kept, p := Kept(prefix + ("-" + (digits + ".csv")), size), |prefix|;
    forall i | 0 <= i < 8
      ensures kept[p + 1..p + 9][i] == digits[i]
    {
    }
  }

  /** Dated names are equal exactly for the same day, whether or not the buffer cuts them. */
  lemma NamesTellDaysApart(prefix: string, u1: nat, u2: nat, size: nat)
    requires 0 < u1 < UINT32 && 0 < u2 < UINT32 && CodeAccepts(prefix, size)
    ensures Kept(Name(prefix, u1), size) == Kept(Name(prefix, u2), size)
            <==> DayNumberFromUtc(u1) == DayNumberFromUtc(u2)
  {
    hide CivilFromDays, NextDay;
    NameShape(prefix, u1);
    NameShape(prefix, u2);
    var n1, n2 := DayNumberFromUtc(u1), DayNumberFromUtc(u2);
    var d1, d2 := CivilFromDays(n1), CivilFromDays(n2);
    DateDigitsOrder(d1, d2);
    DigitsAreKept(prefix, DateDigits(d1), size);
    DigitsAreKept(prefix, DateDigits(d2), size);
    if n1 < n2 {
      CivilIsMonotone(n1, n2);
    } else if n2 < n1 {
      CivilIsMonotone(n2, n1);
    }
  }

  /** Names of one prefix sort as the days do. */
  lemma NamesSortAsDays(prefix: string, u1: nat, u2: nat)
    requires 0 < u1 < UINT32 && 0 < u2 < UINT32
    ensures LexLess(Name(prefix, u1), Name(prefix, u2)) <==> DayNumberFromUtc(u1) < DayNumberFromUtc(u2)
  {
    hide CivilFromDays, NextDay;
    NameShape(prefix, u1);
    NameShape(prefix, u2);
    var n1, n2 := DayNumberFromUtc(u1), DayNumberFromUtc(u2);
    var s1, s2 := DateDigits(CivilFromDays(n1)), DateDigits(CivilFromDays(n2));
    DateDigitsOrder(CivilFromDays(n1), CivilFromDays(n2));
    LexPrefix(prefix, "-" + (s1 + ".csv"), "-" + (s2 + ".csv"));
    LexPrefix("-", s1 + ".csv", s2 + ".csv");
    if n1 < n2 {
      CivilIsMonotone(n1, n2);
      LexHeads(s1, s2, ".csv", ".csv");
    } else if n2 < n1 {
      CivilIsMonotone(n2, n1);
      LexHeads(s1, s2, ".csv", ".csv");
    } else {
      LexIrreflexive(s1 + ".csv");
    }
  }

  lemma {:induction false} LexIrreflexive(s: string)
    ensures !LexLess(s, s)
  {
    if s != [] {
      LexIrreflexive(s[1..]);
    }
  }

  // ---------------------------------------------------------------------------------------
  // Filling the caller's buffer.
  // ---------------------------------------------------------------------------------------

  /** The C string a buffer holds: everything before its first NUL. */
  function CString(buffer: seq<char>): string {
    if buffer == [] || buffer[0] == '\0' then [] else [buffer[0]] + CString(buffer[1..])
  }

  lemma {:induction false} CStringOfText(text: string, rest: seq<char>)
    requires '\0' !in text
    ensures CString(text + ['\0'] + rest) == text
  {
    var b := text + ['\0'] + rest;
    if text != [] {
      assert b[1..] == text[1..] + ['\0'] + rest;
      CStringOfText(text[1..], rest);
    }
  }

  /** snprintf with the formatted text already known. */
  method Snprintf(out: array<char>, text: string)
    requires out.Length > 0
    modifies out
    ensures var kept := Kept(text, out.Length);
      out[..] == kept + ['\0'] + old(out[..])[|kept| + 1..]
  {
    var n := if |text| < out.Length then |text| else out.Length - 1;
    for i := 0 to n
      invariant forall k :: 0 <= k < i ==> out[k] == text[k]
      invariant forall k :: i <= k < out.Length ==> out[k] == old(out[k])
    {
      out[i] := text[i];
    }
    out[n] := '\0';
    assert out[..n] == text[..n];
    assert out[..] == out[..n] + [out[n]] + out[n + 1..];
  }

  lemma {:induction false} DecimalHasNoNul(n: nat)
    ensures '\0' !in Decimal(n)
  {
    if n >= 10 {
      DecimalHasNoNul(n / 10);
    }
  }

  lemma NameHasNoNul(prefix: string, utc: nat, size: nat)
    requires '\0' !in prefix && size > 0
    ensures '\0' !in Name(prefix, utc) && '\0' !in Kept(Name(prefix, utc), size)
  {
    hide CivilFromDays;
    if utc != 0 {
      CivilStep(DayNumberFromUtc(utc));
      YearIsPositive(DayNumberFromUtc(utc));
      var d := CivilFromDays(DayNumberFromUtc(utc));
      DecimalHasNoNul(d.year);
      DecimalHasNoNul(d.month);
      DecimalHasNoNul(d.day);
    }
  }

  method DayFileName(prefix: Option<string>, utc: nat, out: array?<char>) returns (ok: bool)
    requires utc < UINT32
    requires prefix.Some? ==> '\0' !in prefix.value
    modifies out
    ensures ok <==> prefix.Some? && out != null && CodeAccepts(prefix.value, out.Length)
    ensures ok ==> CString(out[..]) == Kept(Name(prefix.value, utc), out.Length)
    ensures ok && (utc == 0 || out.Length >= |prefix.value| + 14) ==> CString(out[..]) == Name(prefix.value, utc)
    ensures !ok && out != null ==> out[..] == old(out[..])
  {
    if prefix.None? || out == null {
      return false;
    }
    var needed := |prefix.value| + |"-noclock.csv"| + 1;
    if out.Length < needed {
      return false;
    }
    var text: string;
    if utc == 0 {
      text := prefix.value + "-noclock.csv";
    } else {
      CivilStep(DayNumberFromUtc(utc));
      YearIsPositive(DayNumberFromUtc(utc));
      var d := CivilFromDays(DayNumberFromUtc(utc));
      text := prefix.value + "-" + ZeroPadded(d.year, 4) + ZeroPadded(d.month, 2) + ZeroPadded(d.day, 2) + ".csv";
    }
    Snprintf(out, text);
    NameHasNoNul(prefix.value, utc, out.Length);
    CStringOfText(Kept(text, out.Length), old(out[..])[|Kept(text, out.Length)| + 1..]);
    NameIsComplete(prefix.value, utc, out.Length);
    return true;
  }
}
