/** Timestamps as civil dates: the day-count arithmetic behind absolute times. */
module CivilDate {

  datatype Date = Date(year: int, month: int, day: int)

  datatype DateTime = DateTime(date: Date, hour: int, minute: int, second: int)

  const ERA_DAYS := 146097

  // ---------------------------------------------------------------- the arithmetic of the source

  function YearOfEra(doe: nat): int {
    (doe - doe / 1460 + doe / 36524 - doe / 146096) / 365
  }

  function YearStart(yoe: int): int {
    365 * yoe + yoe / 4 - yoe / 100
  }

  function Civil(days: nat): Date {
    var epochDays := days + 719468;
    var era := epochDays / ERA_DAYS;
    var doe := epochDays - era * ERA_DAYS;
    var yoe := YearOfEra(doe);
    MarchDate(yoe + era * 400, doe - YearStart(yoe))
  }

  /** The day `doy` of the year that starts on 1 March of `y`. */
  function MarchDate(y: int, doy: int): Date {
    var mp := (5 * doy + 2) / 153;
    var d := doy - (153 * mp + 2) / 5 + 1;
    var m := if mp < 10 then mp + 3 else mp - 9;
    Date(if m <= 2 then y + 1 else y, m, d)
  }

  function AbsoluteTime(tsMs: nat): DateTime {
    var secs := tsMs / 1000;
    DateTime(Civil(secs / 86400), secs % 86400 / 3600, secs % 3600 / 60, secs % 60)
  }

  // ---------------------------------------------------------------- the calendar

  /** The leap rule of RFC 3339, Appendix C. */
  predicate Leap(y: int) {
    y % 4 == 0 && (y % 100 != 0 || y % 400 == 0)
  }

  /** The month lengths of RFC 3339, section 5.7. */
  function MonthLength(y: int, m: int): int {
    if m == 2 then (if Leap(y) then 29 else 28)
    else if m == 4 || m == 6 || m == 9 || m == 11 then 30
    else 31
  }

  predicate ValidDate(t: Date) {
    1 <= t.month <= 12 && 1 <= t.day <= MonthLength(t.year, t.month)
  }

  function NextDate(t: Date): Date {
    if t.day < MonthLength(t.year, t.month) then t.(day := t.day + 1)
    else if t.month < 12 then Date(t.year, t.month + 1, 1)
    else Date(t.year + 1, 1, 1)
  }

  /** Counting forward from 1970-01-01, one calendar day at a time. */
  function DateAfter(days: nat): Date {
    if days == 0 then Date(1970, 1, 1) else NextDate(DateAfter(days - 1))
  }

  // ---------------------------------------------------------------- years

  /** The first day of the era behind the March-based year `yoe`. */
  function YearEnd(yoe: int): int {
    if yoe == 399 then ERA_DAYS else YearStart(yoe + 1)
  }

  predicate InYear(doe: int, yoe: int) {
    0 <= yoe < 400 && YearStart(yoe) <= doe < YearEnd(yoe)
  }

  /** `p` centuries, `q` leap cycles, `s` years and `k` days into the era. */
  predicate Parts(p: int, q: int, s: int, k: int) {
    0 <= p <= 3 && 0 <= q <= 24 && 0 <= s <= 3 &&
    (0 <= k <= 364 || (k == 365 && s == 3 && (q < 24 || p == 3)))
  }

  function DayFromParts(p: int, q: int, s: int, k: int): int {
    36524 * p + 1461 * q + 365 * s + k
  }

  lemma YearFromParts(p: int, q: int, s: int, k: int)
    requires Parts(p, q, s, k)
    ensures 0 <= DayFromParts(p, q, s, k)
    ensures YearOfEra(DayFromParts(p, q, s, k)) == 100 * p + 4 * q + s
  {
    var doe := DayFromParts(p, q, s, k);
    var cycles := 24 * p + q + 365 * s + k;
    assert doe == 1460 * (25 * p + q) + cycles && 0 <= cycles < 2 * 1460;
    var e := if cycles < 1460 then 0 else 1;
    assert doe / 1460 == 25 * p + q + e;
    var last := if k == 365 && q == 24 then 1 else 0;
    assert doe == 36524 * p + (1461 * q + 365 * s + k) && 0 <= 1461 * q + 365 * s + k <= 36524;
    assert doe / 36524 == p + last;
    assert doe / 146096 == last;
    var y := 100 * p + 4 * q + s;
    assert doe - doe / 1460 + doe / 36524 - doe / 146096 == 365 * y + (k - e);
    assert 0 <= k - e <= 364;
  }

  lemma YearStartFromParts(p: int, q: int, s: int)
    requires 0 <= p <= 3 && 0 <= q <= 24 && 0 <= s <= 3
    ensures YearStart(100 * p + 4 * q + s) == 36524 * p + 1461 * q + 365 * s
  {
    var y := 100 * p + 4 * q + s;
    assert y / 4 == 25 * p + q;
    assert y / 100 == p;
  }

  lemma DayHasParts(doe: nat) returns (p: int, q: int, s: int, k: int)
    requires doe < ERA_DAYS
    ensures Parts(p, q, s, k) && doe == DayFromParts(p, q, s, k)
  {
    p := if doe == 146096 then 3 else doe / 36524;
    var r := doe - 36524 * p;
    assert 0 <= r <= 36524 && (r == 36524 ==> p == 3);
    q := if r == 36524 then 24 else r / 1461;
    var t := r - 1461 * q;
    assert 0 <= t <= 1460 && (t == 1460 ==> q < 24 || p == 3);
    s := if t == 1460 then 3 else t / 365;
    k := t - 365 * s;
  }

  /** The first day of the next year, in parts. */
  lemma NextYearStart(p: int, q: int, s: int)
    requires 0 <= p <= 3 && 0 <= q <= 24 && 0 <= s <= 3
    ensures YearEnd(100 * p + 4 * q + s) ==
            36524 * p + 1461 * q + 365 * s + if s == 3 && (q < 24 || p == 3) then 366 else 365
  {
    var y := 100 * p + 4 * q + s;
    hide YearStart;
    if s < 3 {
      YearStartFromParts(p, q, s + 1);
      assert y + 1 == 100 * p + 4 * q + (s + 1);
    } else if q < 24 {
      YearStartFromParts(p, q + 1, 0);
      assert y + 1 == 100 * p + 4 * (q + 1);
    } else if p < 3 {
      YearStartFromParts(p + 1, 0, 0);
      assert y + 1 == 100 * (p + 1);
    }
  }

  lemma YearOfEraIsRight(doe: nat)
    requires doe < ERA_DAYS
    ensures InYear(doe, YearOfEra(doe))
  {
    var p, q, s, k := DayHasParts(doe);
    YearFromParts(p, q, s, k);
    YearStartFromParts(p, q, s);
    NextYearStart(p, q, s);
    hide YearOfEra, YearStart, YearEnd;
  }

  lemma YearIsUnique(doe: int, y: int, z: int)
    requires InYear(doe, y) && InYear(doe, z)
    ensures y == z
  {
  }

  lemma LeapPeriodic(y: int, era: nat)
    ensures Leap(y + era * 400) == Leap(y)
  {
    assert y + era * 400 == y + 4 * (100 * era) == y + 100 * (4 * era);
    assert (y + 4 * (100 * era)) % 4 == y % 4;
    assert (y + 100 * (4 * era)) % 100 == y % 100;
    assert (y + 400 * era) % 400 == y % 400;
  }

  lemma YearLength(yoe: int, era: nat)
    requires 0 <= yoe < 400
    ensures YearEnd(yoe) - YearStart(yoe) == if Leap(yoe + 1 + era * 400) then 366 else 365
  {
    LeapPeriodic(yoe + 1, era);
    var n := yoe + 1;
    assert n / 4 - (n - 1) / 4 == if n % 4 == 0 then 1 else 0;
    assert n / 100 - (n - 1) / 100 == if n % 100 == 0 then 1 else 0;
    assert n % 400 == 0 <==> n == 400;
    assert n % 100 == 0 ==> n % 4 == 0;
  }

  // ---------------------------------------------------------------- days within a year

  /** The first day of March-based month `mp`. */
  function MonthStart(mp: int): int {
    (153 * mp + 2) / 5
  }

  lemma MarchMonths(doy: int)
    requires 0 <= doy <= 365
    ensures var mp := (5 * doy + 2) / 153; 0 <= mp <= 11 && MonthStart(mp) <= doy < MonthStart(mp + 1)
  {
  }

  lemma MarchMonthLength(y: int, mp: int)
    requires 0 <= mp <= 10
    ensures MonthStart(mp + 1) - MonthStart(mp)
            == MonthLength(if mp < 10 then y else y + 1, if mp < 10 then mp + 3 else mp - 9)
  {
    if mp == 0 { } else if mp == 1 { } else if mp == 2 { } else if mp == 3 { } else if mp == 4 { }
    else if mp == 5 { } else if mp == 6 { } else if mp == 7 { } else if mp == 8 { } else if mp == 9 { } else { }
  }

  lemma MarchDateIsValid(y: int, doy: int)
    requires 0 <= doy <= (if Leap(y + 1) then 365 else 364)
    ensures ValidDate(MarchDate(y, doy))
  {
    var mp := (5 * doy + 2) / 153;
    MarchMonths(doy);
    if mp <= 10 { MarchMonthLength(y, mp); } else { assert MonthStart(11) == 337; }
  }

  lemma MonthOfDay(doy: int, mp: int)
    requires 0 <= doy <= 365 && 0 <= mp <= 11
    requires MonthStart(mp) <= doy < MonthStart(mp + 1)
    ensures (5 * doy + 2) / 153 == mp
  {
  }

  lemma MarchDateSuccessor(y: int, doy: int)
    requires 0 <= doy < (if Leap(y + 1) then 365 else 364)
    ensures MarchDate(y, doy + 1) == NextDate(MarchDate(y, doy))
  {
    var mp := (5 * doy + 2) / 153;
    MarchMonths(doy);
    if doy + 1 < MonthStart(mp + 1) {
      MonthOfDay(doy + 1, mp);
      if mp <= 10 { MarchMonthLength(y, mp); } else { assert MonthStart(11) == 337; }
      hide Leap;
    } else {
      assert mp <= 10 by { assert MonthStart(12) == 367; }
      assert MonthStart(mp + 1) < MonthStart(mp + 2);
      MonthOfDay(doy + 1, mp + 1);
      MarchMonthLength(y, mp);
      hide Leap;
    }
  }

  lemma MarchDateYearTurn(y: int)
    ensures NextDate(MarchDate(y, if Leap(y + 1) then 365 else 364)) == MarchDate(y + 1, 0)
  {
    assert MonthStart(11) == 337 && MonthStart(12) == 367;
    MonthOfDay(if Leap(y + 1) then 365 else 364, 11);
  }

  // ---------------------------------------------------------------- every day

  lemma EraOfDay(days: nat) returns (era: nat, doe: nat)
    ensures days + 719468 == era * ERA_DAYS + doe && doe < ERA_DAYS
  {
    era := (days + 719468) / ERA_DAYS;
    doe := days + 719468 - era * ERA_DAYS;
  }

  lemma CivilFromEra(days: nat, era: nat, doe: nat, yoe: int)
    requires days + 719468 == era * ERA_DAYS + doe
    requires doe < ERA_DAYS && InYear(doe, yoe)
    ensures Civil(days) == MarchDate(yoe + era * 400, doe - YearStart(yoe))
  {
    hide MarchDate, YearOfEra, YearStart;
    assert (days + 719468) / ERA_DAYS == era;
    YearOfEraIsRight(doe);
    YearIsUnique(doe, YearOfEra(doe), yoe);
  }

  lemma CivilIsValid(days: nat)
    ensures ValidDate(Civil(days))
  {
    hide Civil, MarchDate, YearOfEra, YearStart, Leap, ValidDate;
    var era, doe := EraOfDay(days);
    var yoe := YearOfEra(doe);
    YearOfEraIsRight(doe);
    CivilFromEra(days, era, doe, yoe);
    YearLength(yoe, era);
    MarchDateIsValid(yoe + era * 400, doe - YearStart(yoe));
  }

  lemma YearBounds(yoe: int)
    requires 0 <= yoe < 400
    ensures YearStart(0) == 0
    ensures YearStart(yoe) < YearEnd(yoe) <= ERA_DAYS
    ensures yoe < 399 ==> YearEnd(yoe) == YearStart(yoe + 1) < YearEnd(yoe + 1) <= ERA_DAYS
  {
  }

  /** Consecutive day numbers are consecutive calendar days. */
  lemma CivilSuccessor(days: nat)
    ensures Civil(days + 1) == NextDate(Civil(days))
  {
    hide Civil, MarchDate, YearOfEra, YearStart, YearEnd, Leap, NextDate;
    var era, doe := EraOfDay(days);
    var yoe := YearOfEra(doe);
    var y := yoe + era * 400;
    YearOfEraIsRight(doe);
    CivilFromEra(days, era, doe, yoe);
    YearLength(yoe, era);
    YearBounds(yoe);
    YearBounds(0);
    if doe + 1 < YearEnd(yoe) {
      CivilFromEra(days + 1, era, doe + 1, yoe);
      MarchDateSuccessor(y, doe - YearStart(yoe));
    } else {
      MarchDateYearTurn(y);
      if yoe == 399 {
        assert doe + 1 == ERA_DAYS by { LastYearEnd(); }
        CivilFromEra(days + 1, era + 1, 0, 0);
      } else {
        CivilFromEra(days + 1, era, doe + 1, yoe + 1);
      }
    }
  }

  lemma LastYearEnd()
    ensures YearEnd(399) == ERA_DAYS
  {
  }

  lemma EpochDate()
    ensures InYear(135080, 369) && YearStart(369) == 134774
    ensures MarchDate(1969, 306) == Date(1970, 1, 1)
  {
  }

  lemma CivilEpoch()
    ensures Civil(0) == Date(1970, 1, 1)
  {
    hide Civil, MarchDate, YearStart;
    EpochDate();
    CivilFromEra(0, 4, 135080, 369);
  }

  /** The closed formula counts calendar days from 1970-01-01. */
  lemma {:induction false} CivilCountsDays(days: nat)
    ensures Civil(days) == DateAfter(days)
  {
    hide Civil, NextDate;
    if days == 0 {
      CivilEpoch();
    } else {
      CivilCountsDays(days - 1);
      CivilSuccessor(days - 1);
    }
  }

  // ---------------------------------------------------------------- and back

  function DaysBeforeYear(y: int): int {
    365 * (y - 1) + (y - 1) / 4 - (y - 1) / 100 + (y - 1) / 400
  }

  function DaysBeforeMonth(y: int, m: int): int
    decreases m
  {
    if m <= 1 then 0 else DaysBeforeMonth(y, m - 1) + MonthLength(y, m - 1)
  }

  /** Days since 1970-01-01, counted year by year and month by month. */
  function DayNumber(t: Date): int {
    DaysBeforeYear(t.year) + DaysBeforeMonth(t.year, t.month) + t.day - 1 - DaysBeforeYear(1970)
  }

  lemma DaysInYear(y: int)
    ensures DaysBeforeYear(y + 1) - DaysBeforeYear(y) == if Leap(y) then 366 else 365
  {
    QuotientStep4(y);
    QuotientStep100(y);
    QuotientStep400(y);
  }

  /** Quotient and remainder by one of the divisors of the calendar and the clock are unique. */
  lemma Quotient(x: int, d: int, q: int, r: int)
    requires d in {4, 60, 100, 400, 3600} && x == d * q + r && 0 <= r < d
    ensures x / d == q && x % d == r
  {
    if d == 4 { assert x / 4 == q; }
    else if d == 60 { assert x / 60 == q; }
    else if d == 100 { assert x / 100 == q; }
    else if d == 400 { assert x / 400 == q; }
    else { assert x / 3600 == q; }
  }

  lemma QuotientStep4(y: int)
    ensures y / 4 - (y - 1) / 4 == if y % 4 == 0 then 1 else 0
  {
  }

  lemma QuotientStep100(y: int)
    ensures y / 100 - (y - 1) / 100 == if y % 100 == 0 then 1 else 0
    ensures y % 100 == 0 ==> y % 4 == 0
  {
    var q, r := y / 100, y % 100;
    assert y == 100 * q + r;
    Quotient(y - 1, 100, if r == 0 then q - 1 else q, if r == 0 then 99 else r - 1);
    if r == 0 { Quotient(y, 4, 25 * q, 0); }
  }

  lemma QuotientStep400(y: int)
    ensures y / 400 - (y - 1) / 400 == if y % 400 == 0 then 1 else 0
    ensures y % 400 == 0 ==> y % 100 == 0
  {
    var q, r := y / 400, y % 400;
    assert y == 400 * q + r;
    Quotient(y - 1, 400, if r == 0 then q - 1 else q, if r == 0 then 399 else r - 1);
    if r == 0 { Quotient(y, 100, 4 * q, 0); }
  }

  lemma DaysInTwelveMonths(y: int)
    ensures DaysBeforeMonth(y, 13) == if Leap(y) then 366 else 365
  {
    assert DaysBeforeMonth(y, 3) == 31 + MonthLength(y, 2);
    assert DaysBeforeMonth(y, 5) == DaysBeforeMonth(y, 3) + 61;
    assert DaysBeforeMonth(y, 7) == DaysBeforeMonth(y, 5) + 61;
    assert DaysBeforeMonth(y, 9) == DaysBeforeMonth(y, 7) + 62;
    assert DaysBeforeMonth(y, 11) == DaysBeforeMonth(y, 9) + 61;
    assert DaysBeforeMonth(y, 13) == DaysBeforeMonth(y, 11) + 61;
  }

  lemma JanuaryFirst(y: int)
    ensures DaysBeforeMonth(y, 1) == 0
  {
  }

  lemma DayNumberOfNext(t: Date)
    requires ValidDate(t)
    ensures DayNumber(NextDate(t)) == DayNumber(t) + 1
  {
    DaysInYear(t.year);
    DaysInTwelveMonths(t.year);
    hide Leap, DaysBeforeYear;
  }

  lemma {:induction false} DayNumberOfCivil(days: nat)
    ensures DayNumber(Civil(days)) == days
  {
    hide Civil, NextDate, ValidDate, DaysBeforeMonth, DaysBeforeYear;
    if days == 0 {
      CivilEpoch();
      assert DaysBeforeMonth(1970, 1) == 0 by { JanuaryFirst(1970); }
    } else {
      DayNumberOfCivil(days - 1);
      CivilIsValid(days - 1);
      CivilSuccessor(days - 1);
      DayNumberOfNext(Civil(days - 1));
    }
  }

  predicate Before(t: Date, u: Date) {
    t.year < u.year || (t.year == u.year && (t.month < u.month || (t.month == u.month && t.day < u.day)))
  }

  lemma {:induction false} YearsAscend(y: int, z: int)
    requires y < z
    ensures DaysBeforeYear(y) + (if Leap(y) then 366 else 365) <= DaysBeforeYear(z)
    decreases z - y
  {
    DaysInYear(z - 1);
    if y < z - 1 { YearsAscend(y, z - 1); }
  }

  lemma {:induction false} MonthsAscend(y: int, m: int, n: int)
    requires 1 <= m < n
    ensures DaysBeforeMonth(y, m) + MonthLength(y, m) <= DaysBeforeMonth(y, n)
    decreases n - m
  {
    if m < n - 1 { MonthsAscend(y, m, n - 1); }
  }

  /** Earlier dates have smaller day numbers, so the day number determines the date. */
  lemma DayNumberAscends(t: Date, u: Date)
    requires ValidDate(t) && ValidDate(u)
    ensures Before(t, u) <==> DayNumber(t) < DayNumber(u)
    ensures t == u <==> DayNumber(t) == DayNumber(u)
  {
    if Before(t, u) { DayNumberAscendsOneWay(t, u); }
    if Before(u, t) { DayNumberAscendsOneWay(u, t); }
  }

  lemma DayNumberAscendsOneWay(t: Date, u: Date)
    requires ValidDate(t) && ValidDate(u) && Before(t, u)
    ensures DayNumber(t) < DayNumber(u)
  {
    if t.year < u.year {
      YearsAscend(t.year, u.year);
      DaysInTwelveMonths(t.year);
      MonthsAscend(t.year, t.month, 13);
      assert DaysBeforeMonth(u.year, u.month) >= 0 by {
        if u.month > 1 { MonthsAscend(u.year, 1, u.month); }
      }
    } else if t.month < u.month {
      MonthsAscend(t.year, t.month, u.month);
    }
  }

  /** Every valid date from the epoch on is hit, by its own day number. */
  lemma CivilOfDayNumber(t: Date)
    requires ValidDate(t) && DayNumber(t) >= 0
    ensures Civil(DayNumber(t)) == t
  {
    DayNumberOfCivil(DayNumber(t));
    CivilIsValid(DayNumber(t));
    DayNumberAscends(t, Civil(DayNumber(t)));
  }

  // ---------------------------------------------------------------- timestamps

  predicate AtMost(t: DateTime, u: DateTime) {
    Before(t.date, u.date) ||
    (t.date == u.date && 3600 * t.hour + 60 * t.minute + t.second <= 3600 * u.hour + 60 * u.minute + u.second)
  }

  lemma ClockAddsUp(secs: nat)
    ensures secs == 86400 * (secs / 86400) + 3600 * (secs % 86400 / 3600) + 60 * (secs % 3600 / 60) + secs % 60
  {
    var days, r := secs / 86400, secs % 86400;
    var hours, q := r / 3600, r % 3600;
    var minutes, s := q / 60, q % 60;
    assert secs == 86400 * days + r && r == 3600 * hours + q && q == 60 * minutes + s;
    Quotient(secs, 3600, 24 * days + hours, q);
    Quotient(secs, 60, 1440 * days + 60 * hours + minutes, s);
  }

  /** The fields are a valid date and time, and determine the timestamp's second. */
  lemma TimestampFields(tsMs: nat)
    ensures var t := AbsoluteTime(tsMs);
            && ValidDate(t.date)
            && 0 <= t.hour < 24 && 0 <= t.minute < 60 && 0 <= t.second < 60
            && 86400 * DayNumber(t.date) + 3600 * t.hour + 60 * t.minute + t.second == tsMs / 1000
  {
    hide Civil, ValidDate, DayNumber;
    var secs := tsMs / 1000;
    ClockAddsUp(secs);
    CivilIsValid(secs / 86400);
    DayNumberOfCivil(secs / 86400);
  }

  /** Later timestamps never print as earlier dates or times. */
  lemma TimestampsAscend(a: nat, b: nat)
    requires a <= b
    ensures AtMost(AbsoluteTime(a), AbsoluteTime(b))
  {
    TimestampFields(a);
    TimestampFields(b);
    DayNumberAscends(AbsoluteTime(a).date, AbsoluteTime(b).date);
  }
}
