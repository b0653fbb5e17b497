/** The era-based civil-calendar arithmetic, against the Gregorian calendar stated as rules.

    `IsLeap`, `DaysInMonth`, `IsDate` and `Tomorrow` are the calendar; the two conversions are the code. */
module CivilCalendar {
  datatype Date = Date(year: int, month: int, day: int)

  predicate IsLeap(year: int) {
    year % 4 == 0 && (year % 100 != 0 || year % 400 == 0)
  }

  function DaysInMonth(year: int, month: int): int {
    if month == 2 then (if IsLeap(year) then 29 else 28)
    else if month in {4, 6, 9, 11} then 30
    else 31
  }

  predicate IsDate(d: Date) {
    1 <= d.month <= 12 && 1 <= d.day <= DaysInMonth(d.year, d.month)
  }

  function Tomorrow(d: Date): Date {
    if d.day < DaysInMonth(d.year, d.month) then d.(day := d.day + 1)
    else if d.month < 12 then Date(d.year, d.month + 1, 1)
    else Date(d.year + 1, 1, 1)
  }

  predicate Before(a: Date, b: Date) {
    a.year < b.year
    || (a.year == b.year && (a.month < b.month || (a.month == b.month && a.day < b.day)))
  }

  /** Rust's integer division, which truncates toward zero; Dafny's `/` does not for negative dividends. */
  function Quot(a: int, b: int): int
    requires b > 0
  {
    if a >= 0 then a / b else -((-a) / b)
  }

  function CivilFromDays(days: int): Date {
    var z := days + 719468;
    var era := Quot(if z >= 0 then z else z - 146096, 146097);
    CivilFromEra(era, z - era * 146097)
  }

  /** The rest of `CivilFromDays`, from the day of a 400-year era that starts on a March 1. */
  function CivilFromEra(era: int, doe: int): Date {
    var yoe := Quot(doe - Quot(doe, 1460) + Quot(doe, 36524) - Quot(doe, 146096), 365);
    CivilFromYear(yoe + era * 400, doe - (365 * yoe + Quot(yoe, 4) - Quot(yoe, 100)))
  }

  function CivilFromYear(year: int, doy: int): Date {
    var mp := Quot(5 * doy + 2, 153);
    var day := doy - Quot(153 * mp + 2, 5) + 1;
    var month := if mp < 10 then mp + 3 else mp - 9;
    Date(if month <= 2 then year + 1 else year, month, day)
  }

  function DaysFromCivil(year: int, month: int, day: int): int {
    var y := if month <= 2 then year - 1 else year;
    var era := Quot(if y >= 0 then y else y - 399, 400);
    var yoe := y - era * 400;
    var doy := Quot(153 * (if month > 2 then month - 3 else month + 9) + 2, 5) + day - 1;
    var doe := yoe * 365 + Quot(yoe, 4) - Quot(yoe, 100) + doy;
    era * 146097 + doe - 719468
  }

  function DaysOf(d: Date): int {
    DaysFromCivil(d.year, d.month, d.day)
  }

  // The truncating divisions, with the branch that corrects them for negative dividends, floor.

  lemma EraFloors(a: int, b: int)
    requires b > 0
    ensures Quot(if a >= 0 then a else a - (b - 1), b) == a / b
  {
    if a < 0 {
      var q, r := a / b, a % b;
      assert a == b * q + r;
      var m := -(a - (b - 1));
      assert m == b * (-q) + (b - 1 - r);
      DivisionIsUnique(m, b, -q, b - 1 - r);
    }
  }

  lemma DivisionIsUnique(m: int, b: int, q: int, r: int)
    requires b > 0 && m == b * q + r && 0 <= r < b
    ensures m / b == q
  {
    var d := m / b - q;
    assert b * d == r - m % b;
    assert d >= 1 ==> b * d >= b;
    assert d <= -1 ==> b * d <= -b;
  }

  /** First day, counted from the era's March 1, of the era's year `y`. */
  function YearStart(y: int): int {
    365 * y + y / 4 - y / 100
  }

  function YearOfEra(doe: int): int {
    (doe - doe / 1460 + doe / 36524 - doe / 146096) / 365
  }

  /** The formula on the day of century `k`, four-year block `a`, day `s` of the block. */
  lemma YearOfBlock(k: int, a: int, s: int)
    requires 0 <= k < 4 && 0 <= a < 25 && 0 <= s <= 1460
    requires a == 24 && k < 3 ==> s < 1460
    ensures YearOfEra(36524 * k + 1461 * a + s) == 100 * k + 4 * a + (if s < 1460 then s / 365 else 3)
  {
    var doe := 36524 * k + 1461 * a + s;
    var e := if 24 * k + a + s >= 1460 then 1 else 0;
    assert doe / 1460 == 25 * k + a + e;
    assert doe / 36524 - doe / 146096 == k;
    assert doe - doe / 1460 + k == 36500 * k + 1460 * a + s - e;
  }

  /** The year formula brackets every day of an era: no year is entered early or left late. */
  lemma YearOfEraBrackets(doe: int)
    requires 0 <= doe < 146097
    ensures 0 <= YearOfEra(doe) < 400 && YearStart(YearOfEra(doe)) <= doe
    ensures YearOfEra(doe) == 399 || doe < YearStart(YearOfEra(doe) + 1)
  {
    hide YearOfEra, YearStart;
    var k := if doe == 146096 then 3 else doe / 36524;
    var a := (doe - 36524 * k) / 1461;
    var s := doe - 36524 * k - 1461 * a;
    YearOfBlock(k, a, s);
    var j := 4 * a + if s < 1460 then s / 365 else 3;
    assert 0 <= j < 100 && j / 4 == a;
    YearStartOf(k, j);
  }

  lemma YearStartOf(k: int, j: int)
    requires 0 <= k < 4 && 0 <= j < 100
    ensures YearStart(100 * k + j) == 36524 * k + 365 * j + j / 4
    ensures YearStart(100 * k + j + 1) ==
      36524 * k + 365 * (j + 1) + (j + 1) / 4 + (if j == 99 then -1 else 0)
  {
    assert (100 * k + j) / 4 == 25 * k + j / 4;
    assert (100 * k + j) / 100 == k;
    assert (100 * k + j + 1) / 4 == 25 * k + (j + 1) / 4;
    assert (100 * k + j + 1) / 100 == if j == 99 then k + 1 else k;
  }

  function MonthOfYear(doy: int): int {
    (5 * doy + 2) / 153
  }

  /** First day, counted from March 1, of the month `mp` months after March. */
  function MonthStart(mp: int): int {
    (153 * mp + 2) / 5
  }

  function MonthNumber(mp: int): int {
    if mp < 10 then mp + 3 else mp - 9
  }

  lemma MonthOfYearBrackets(doy: int)
    requires 0 <= doy <= 365
    ensures 0 <= MonthOfYear(doy) <= 11
    ensures MonthStart(MonthOfYear(doy)) <= doy < MonthStart(MonthOfYear(doy) + 1)
  {
  }

  lemma MonthLengths(mp: int, year: int)
    requires 0 <= mp <= 10
    ensures MonthStart(mp + 1) - MonthStart(mp) == DaysInMonth(year, MonthNumber(mp))
  {
    assert mp in {0, 1, 2, 3, 4, 5, 6, 7, 8, 9, 10};
  }

  /** The March-based decomposition both conversions share. */
  ghost predicate Decomposes(days: int, era: int, yoe: int, mp: int, day: int) {
    && 0 <= yoe < 400 && 0 <= mp <= 11 && 1 <= day
    && days + 719468 == 146097 * era + YearStart(yoe) + MonthStart(mp) + day - 1
    && (if mp < 11 then day <= MonthStart(mp + 1) - MonthStart(mp)
        else day <= (if IsLeap(400 * era + yoe + 1) then 29 else 28))
  }

  function DateOf(era: int, yoe: int, mp: int, day: int): Date {
    Date(400 * era + yoe + (if mp >= 10 then 1 else 0), MonthNumber(mp), day)
  }

  lemma ModShift(m: int, k: int, y: int)
    requires m > 0
    ensures (m * k + y) % m == y % m
  {
    DivisionIsUnique(m * k + y, m, k + y / m, y % m);
  }

  lemma LeapOfEra(era: int, y: int)
    ensures IsLeap(400 * era + y) <==> IsLeap(y)
  {
    ModShift(400, era, y);
    ModShift(100, 4 * era, y);
    ModShift(4, 100 * era, y);
  }

  lemma LeapYearsAreLonger(y: int)
    requires 0 <= y < 400
    ensures IsLeap(y + 1) <==> y == 399 || YearStart(y + 1) - YearStart(y) == 366
    ensures y < 399 && !IsLeap(y + 1) ==> YearStart(y + 1) - YearStart(y) == 365
  {
    assert (y + 1) / 4 - y / 4 == if (y + 1) % 4 == 0 then 1 else 0;
    assert (y + 1) / 100 - y / 100 == if (y + 1) % 100 == 0 then 1 else 0;
  }

  lemma LeapMeans366(era: int, yoe: int)
    requires 0 <= yoe < 400
    ensures IsLeap(400 * era + yoe + 1) <==>
      (yoe == 399 || YearStart(yoe + 1) - YearStart(yoe) == 366)
    ensures yoe < 399 && !IsLeap(400 * era + yoe + 1) ==> YearStart(yoe + 1) - YearStart(yoe) == 365
  {
    hide IsLeap, YearStart;
    LeapOfEra(era, yoe + 1);
    LeapYearsAreLonger(yoe);
  }

  lemma QuotFloors(a: int, b: int)
    requires a >= 0 && b > 0
    ensures Quot(a, b) == a / b
  {
  }

  lemma DayOfYearBounds(doe: int)
    requires 0 <= doe < 146097
    ensures 0 <= YearOfEra(doe) < 400 && 0 <= doe - YearStart(YearOfEra(doe)) <= 365
    ensures !IsLeap(YearOfEra(doe) + 1) ==> doe - YearStart(YearOfEra(doe)) < 365
  {
    YearOfEraBrackets(doe);
    LeapMeans366(0, YearOfEra(doe));
    assert YearStart(399) == 145731;
  }

  lemma CivilFromYearDecomposes(year: int, doy: int) returns (mp: int, day: int)
    requires 0 <= doy <= 365
    ensures 0 <= mp <= 11 && 1 <= day && MonthStart(mp) + day - 1 == doy
    ensures mp < 11 ==> day <= MonthStart(mp + 1) - MonthStart(mp)
    ensures mp == 11 ==> day == doy - 336
    ensures CivilFromYear(year, doy) ==
            Date(year + (if mp >= 10 then 1 else 0), MonthNumber(mp), day)
  {
    mp := MonthOfYear(doy);
    MonthOfYearBrackets(doy);
    day := doy - MonthStart(mp) + 1;
  }

  /** The year formula's truncating divisions have non-negative dividends, so they floor. */
  lemma CivilFromEraIsYear(era: int, doe: int)
    requires 0 <= doe < 146097
    ensures CivilFromEra(era, doe) == CivilFromYear(YearOfEra(doe) + era * 400, doe - YearStart(YearOfEra(doe)))
  {
    DayOfYearBounds(doe);
    hide CivilFromYear, IsLeap, YearStart, Quot;
    QuotFloors(doe, 1460);
    QuotFloors(doe, 36524);
    QuotFloors(doe, 146096);
    QuotFloors(doe - doe / 1460 + doe / 36524 - doe / 146096, 365);
    QuotFloors(YearOfEra(doe), 4);
    QuotFloors(YearOfEra(doe), 100);
    YearStartDefinition(YearOfEra(doe));
  }

  lemma YearStartDefinition(y: int)
    ensures YearStart(y) == 365 * y + y / 4 - y / 100
  {
  }

  lemma CivilFromDaysInEra(days: int) returns (era: int, doe: int)
    ensures days + 719468 == 146097 * era + doe && 0 <= doe < 146097
    ensures CivilFromDays(days) == CivilFromEra(era, doe)
  {
    hide CivilFromEra;
    var z := days + 719468;
    era, doe := z / 146097, z % 146097;
    EraFloors(z, 146097);
  }

  lemma CivilFromDaysDecomposes(days: int)
    returns (era: int, yoe: int, mp: int, day: int)
    ensures Decomposes(days, era, yoe, mp, day) && CivilFromDays(days) == DateOf(era, yoe, mp, day)
  {
    hide CivilFromDays, CivilFromEra, CivilFromYear, YearOfEra, IsLeap, YearStart, MonthStart;
    var doe;
    era, doe := CivilFromDaysInEra(days);
    CivilFromEraIsYear(era, doe);
    yoe := YearOfEra(doe);
    DayOfYearBounds(doe);
    LeapOfEra(era, yoe + 1);
    mp, day := CivilFromYearDecomposes(yoe + era * 400, doe - YearStart(yoe));
  }

  lemma DaysOfDecomposed(days: int, era: int, yoe: int, mp: int, day: int)
    requires Decomposes(days, era, yoe, mp, day)
    ensures IsDate(DateOf(era, yoe, mp, day)) && DaysOf(DateOf(era, yoe, mp, day)) == days
  {
    var d := DateOf(era, yoe, mp, day);
    if mp < 11 { MonthLengths(mp, d.year); }
    var y := if d.month <= 2 then d.year - 1 else d.year;
    assert y == 400 * era + yoe;
    DivisionIsUnique(y, 400, era, yoe);
    EraFloors(y, 400);
  }

  lemma DateDecomposes(d: Date) returns (era: int, yoe: int, mp: int)
    requires IsDate(d)
    ensures Decomposes(DaysOf(d), era, yoe, mp, d.day) && DateOf(era, yoe, mp, d.day) == d
  {
    var y := if d.month <= 2 then d.year - 1 else d.year;
    era, yoe := y / 400, y % 400;
    mp := if d.month > 2 then d.month - 3 else d.month + 9;
    EraFloors(y, 400);
    if mp < 11 { MonthLengths(mp, d.year); }
  }

  /** A decomposition is unique, so the formulas of `CivilFromDays` find the one a date was built from. */
  lemma DecompositionIsUnique(days: int, era: int, yoe: int, mp: int, day: int,
                              era': int, yoe': int, mp': int, day': int)
    requires Decomposes(days, era, yoe, mp, day) && Decomposes(days, era', yoe', mp', day')
    ensures era == era' && yoe == yoe' && mp == mp' && day == day'
  {
    DayOfEraBound(era, yoe, mp, day);
    DayOfEraBound(era', yoe', mp', day');
    assert era == era';
    if yoe < yoe' { YearStartGrows(yoe + 1, yoe'); }
    if yoe' < yoe { YearStartGrows(yoe' + 1, yoe); }
    assert yoe == yoe';
    assert mp < mp' ==> MonthStart(mp + 1) <= MonthStart(mp');
    assert mp' < mp ==> MonthStart(mp' + 1) <= MonthStart(mp);
  }

  lemma YearStartGrows(a: int, b: int)
    requires 0 <= a <= b
    ensures YearStart(a) <= YearStart(b)
  {
  }

  lemma DayOfEraBound(era: int, yoe: int, mp: int, day: int)
    requires 0 <= yoe < 400 && 0 <= mp <= 11 && 1 <= day
    requires if mp < 11 then day <= MonthStart(mp + 1) - MonthStart(mp)
             else day <= (if IsLeap(400 * era + yoe + 1) then 29 else 28)
    ensures var doy := MonthStart(mp) + day - 1;
            0 <= doy && YearStart(yoe) + doy < 146097
            && (yoe < 399 ==> YearStart(yoe) + doy < YearStart(yoe + 1))
  {
    LeapMeans366(era, yoe);
    assert mp < 11 ==> MonthStart(mp + 1) <= 337;
    assert YearStart(yoe) <= YearStart(399) by { YearStartGrows(yoe, 399); }
  }

  /** Every integer day names a date of the Gregorian calendar, and the date names that day. */
  lemma DaysRoundTrip(days: int)
    ensures IsDate(CivilFromDays(days)) && DaysOf(CivilFromDays(days)) == days
  {
    var era, yoe, mp, day := CivilFromDaysDecomposes(days);
    DaysOfDecomposed(days, era, yoe, mp, day);
  }

  lemma DateRoundTrip(d: Date)
    requires IsDate(d)
    ensures CivilFromDays(DaysOf(d)) == d
  {
    var era, yoe, mp := DateDecomposes(d);
    var era', yoe', mp', day' := CivilFromDaysDecomposes(DaysOf(d));
    DecompositionIsUnique(DaysOf(d), era, yoe, mp, d.day, era', yoe', mp', day');
  }

  /** What is not a date never survives the trip, which is the test the parser makes. */
  lemma RoundTripsExactlyDates(d: Date)
    ensures CivilFromDays(DaysOf(d)) == d <==> IsDate(d)
  {
    DaysRoundTrip(DaysOf(d));
    if IsDate(d) { DateRoundTrip(d); }
  }

  lemma NextDecomposition(days: int, era: int, yoe: int, mp: int, day: int)
    returns (era': int, yoe': int, mp': int, day': int)
    requires Decomposes(days, era, yoe, mp, day)
    ensures Decomposes(days + 1, era', yoe', mp', day')
    ensures DateOf(era', yoe', mp', day') == Tomorrow(DateOf(era, yoe, mp, day))
  {
    var d := DateOf(era, yoe, mp, day);
    if mp < 11 { MonthLengths(mp, d.year); }
    LeapMeans366(era, yoe);
    era', yoe', mp', day' :=
      if day < DaysInMonth(d.year, d.month) then era else if mp < 11 then era else if yoe < 399 then era else era + 1,
      if day < DaysInMonth(d.year, d.month) || mp < 11 then yoe else if yoe < 399 then yoe + 1 else 0,
      if day < DaysInMonth(d.year, d.month) then mp else if mp < 11 then mp + 1 else 0,
      if day < DaysInMonth(d.year, d.month) then day + 1 else 1;
  }

  lemma TomorrowIsTheNextDay(d: Date)
    requires IsDate(d)
    ensures IsDate(Tomorrow(d)) && DaysOf(Tomorrow(d)) == DaysOf(d) + 1
  {
    var era, yoe, mp := DateDecomposes(d);
    var era', yoe', mp', day' := NextDecomposition(DaysOf(d), era, yoe, mp, d.day);
    DaysOfDecomposed(DaysOf(d) + 1, era', yoe', mp', day');
  }

  lemma DayZeroIsTheEpoch()
    ensures CivilFromDays(0) == Date(1970, 1, 1)
  {
    assert DaysOf(Date(1970, 1, 1)) == 0;
    hide CivilFromDays, DaysOf;
    DateRoundTrip(Date(1970, 1, 1));
  }

  /** `CivilFromDays` walks the calendar: the epoch at zero, and one calendar day per day, both directions. */
  lemma CivilFromDaysIsTheCalendar(days: int)
    ensures CivilFromDays(0) == Date(1970, 1, 1)
    ensures CivilFromDays(days + 1) == Tomorrow(CivilFromDays(days))
  {
    hide CivilFromDays, DaysOf, Tomorrow, IsDate;
    DayZeroIsTheEpoch();
    DaysRoundTrip(days);
    TomorrowIsTheNextDay(CivilFromDays(days));
    DateRoundTrip(Tomorrow(CivilFromDays(days)));
  }

  /** Any numbering of the days that starts at the epoch and steps one calendar day is this one. */
  lemma {:induction false} CalendarIsUnique(f: int -> Date, days: int)
    requires f(0) == Date(1970, 1, 1)
    requires forall n: int :: IsDate(f(n)) && f(n + 1) == Tomorrow(f(n))
    ensures f(days) == CivilFromDays(days)
    decreases if days >= 0 then days else -days
  {
    CivilFromDaysIsTheCalendar(days);
    hide CivilFromDays, DaysFromCivil;
    if days > 0 {
      CalendarIsUnique(f, days - 1);
      CivilFromDaysIsTheCalendar(days - 1);
      assert f(days - 1 + 1) == Tomorrow(f(days - 1));
    } else if days < 0 {
      CalendarIsUnique(f, days + 1);
      assert f(days + 1) == Tomorrow(f(days));
      TomorrowIsTheNextDay(f(days));
      DaysRoundTrip(days + 1);
      DateRoundTrip(f(days));
    }
  }

  lemma BeforeTomorrow(d: Date)
    requires IsDate(d)
    ensures Before(d, Tomorrow(d))
  {
  }

  lemma {:induction false} LaterDaysAreLaterDates(a: int, b: int)
    requires a < b
    ensures Before(CivilFromDays(a), CivilFromDays(b))
    decreases b - a
  {
    hide CivilFromDays, DaysOf, DaysFromCivil, Tomorrow, IsDate;
    DaysRoundTrip(b - 1);
    CivilFromDaysIsTheCalendar(b - 1);
    BeforeTomorrow(CivilFromDays(b - 1));
    if a < b - 1 { LaterDaysAreLaterDates(a, b - 1); }
  }

  lemma DateOrderIsDayOrder(a: int, b: int)
    ensures a < b <==> Before(CivilFromDays(a), CivilFromDays(b))
  {
    if a < b { LaterDaysAreLaterDates(a, b); }
    if b < a { LaterDaysAreLaterDates(b, a); }
  }
}
