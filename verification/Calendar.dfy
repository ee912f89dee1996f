/** Civil dates and day numbers, as the log readers, the audit log and `apply` convert them. */
module Calendar {
  import opened Text

  /** Division that rounds toward zero, as the source's `/` does. */
  function TruncDiv(a: int, b: int): int
    requires b > 0
  {
    if a >= 0 then a / b else -(-a / b)
  }

  datatype Date = Date(year: int, month: int, day: int)

  /** Days since 1970-01-01 of a date in the proleptic Gregorian calendar. */
  function DaysFromCivil(year: int, m: int, d: int): int {
    var y := if m <= 2 then year - 1 else year;
    var era := TruncDiv(if y >= 0 then y else y - 399, 400);
    var yoe := y - era * 400;
    var doy := TruncDiv(153 * (if m > 2 then m - 3 else m + 9) + 2, 5) + d - 1;
    var doe := yoe * 365 + yoe / 4 - yoe / 100 + doy;
    era * 146097 + doe - 719468
  }

  const I32_MIN := -0x8000_0000
  const I32_MAX := 0x7FFF_FFFF
  const I64_MIN := -0x8000_0000_0000_0000
  const I64_MAX := 0x7FFF_FFFF_FFFF_FFFF

  function CheckedI64(n: int): Option<int> {
    if I64_MIN <= n <= I64_MAX then Some(n) else None
  }

  /** Wrap-around to 32 bits. */
  function AsI32(n: int): int {
    (n + 0x8000_0000) % 0x1_0000_0000 - 0x8000_0000
  }

  /** The log parser's last steps, in checked arithmetic, from the March-based year on. */
  function CheckedDays(y: int, m: int, d: int): Option<int> {
    var era := TruncDiv(if y >= 0 then y else y - 399, 400);
    var yoe := y - era * 400;
    var doy := TruncDiv(153 * (if m > 2 then m - 3 else m + 9) + 2, 5) + d - 1;
    var doe := yoe * 365 + yoe / 4 - yoe / 100 + doy;
    match CheckedI64(era * 146097)
    case None => None
    case Some(a) =>
      match CheckedI64(a + doe)
      case None => None
      case Some(b) => CheckedI64(b - 719468)
  }

  /** The copy in the log parser, which takes a 32-bit year and does the last steps in checked arithmetic; its first
      subtraction wraps where overflow is not trapped. */
  function CheckedDaysFromCivil(year: int, m: int, d: int): Option<int> {
    CheckedDays(if m <= 2 then AsI32(year - 1) else year, m, d)
  }

  /** The 400-year era of day `z`, the year within an era of day `doe`, and the day within that year;
      days and years are counted from 1 March of year 0. */
  function Era(z: int): int {
    TruncDiv(if z >= 0 then z else z - 146096, 146097)
  }

  function YearOfEra(doe: int): int {
    (doe - doe / 1460 + doe / 36524 - doe / 146096) / 365
  }

  function DayOfYear(doe: int, yoe: int): int {
    doe - (365 * yoe + yoe / 4 - yoe / 100)
  }

  /** Day `doy` of the year that begins on 1 March of year `y`. */
  function DateInYear(y: int, doy: int): Date {
    var mp := (5 * doy + 2) / 153;
    var d := doy - (153 * mp + 2) / 5 + 1;
    var m := if mp < 10 then mp + 3 else mp - 9;
    Date(if m <= 2 then y + 1 else y, m, d)
  }

  /** The date of a day number. */
  function CivilFromDays(days: int): Date {
    var z := days + 719468;
    var era := Era(z);
    var doe := z - era * 146097;
    var yoe := YearOfEra(doe);
    DateInYear(yoe + era * 400, DayOfYear(doe, yoe))
  }

  // ----- the Gregorian calendar by its own rules

  predicate IsLeap(y: int) {
    y % 4 == 0 && (y % 100 != 0 || y % 400 == 0)
  }

  function DaysInMonth(y: int, m: int): int {
    if m == 2 then (if IsLeap(y) then 29 else 28)
    else if m == 4 || m == 6 || m == 9 || m == 11 then 30
    else 31
  }

  predicate Valid(t: Date) {
    1 <= t.month <= 12 && 1 <= t.day <= DaysInMonth(t.year, t.month)
  }

  function NextDay(t: Date): Date {
    if t.day < DaysInMonth(t.year, t.month) then t.(day := t.day + 1)
    else if t.month < 12 then Date(t.year, t.month + 1, 1)
    else Date(t.year + 1, 1, 1)
  }

  predicate Before(a: Date, b: Date) {
    || a.year < b.year
    || (a.year == b.year && a.month < b.month)
    || (a.year == b.year && a.month == b.month && a.day < b.day)
  }

  function Days(t: Date): int {
    DaysFromCivil(t.year, t.month, t.day)
  }

  // ----- both conversions in terms of years that begin on 1 March

  /** Day number, from 0000-03-01, of 1 March of year `y`. */
  function YearStart(y: int): int {
    365 * y + y / 4 - y / 100 + y / 400
  }

  /** Days from 1 March to the first day of the `mp`-th month after March. */
  function MonthStart(mp: int): int {
    (153 * mp + 2) / 5
  }

  function MarchYear(t: Date): int {
    if t.month <= 2 then t.year - 1 else t.year
  }

  function MarchMonth(t: Date): int {
    if t.month > 2 then t.month - 3 else t.month + 9
  }

  lemma DaysClosedForm(t: Date)
    requires 1 <= t.month <= 12
    ensures Days(t) == YearStart(MarchYear(t)) + MonthStart(MarchMonth(t)) + t.day - 1 - 719468
  {
    var y := MarchYear(t);
    var era := TruncDiv(if y >= 0 then y else y - 399, 400);
    assert era == y / 400;
    var yoe := y - era * 400;
    assert 0 <= yoe < 400 && yoe / 4 == y / 4 - 100 * era && yoe / 100 == y / 100 - 4 * era;
  }

  lemma Quarters(y: int)
    ensures (y + 1) / 4 - y / 4 == if (y + 1) % 4 == 0 then 1 else 0
  {
  }

  lemma Centuries(y: int)
    ensures (y + 1) / 100 - y / 100 == if (y + 1) % 100 == 0 then 1 else 0
    ensures (y + 1) % 100 == 0 ==> (y + 1) % 4 == 0
  {
  }

  lemma Eras(y: int)
    ensures (y + 1) / 400 - y / 400 == if (y + 1) % 400 == 0 then 1 else 0
    ensures (y + 1) % 400 == 0 ==> (y + 1) % 100 == 0
  {
  }

  lemma YearLength(y: int)
    ensures YearStart(y + 1) - YearStart(y) == if IsLeap(y + 1) then 366 else 365
  {
    Quarters(y);
    Centuries(y);
    Eras(y);
  }

  lemma {:induction false} YearStartIncreases(a: int, b: int)
    requires a < b
    ensures YearStart(a + 1) <= YearStart(b)
    decreases b - a
  {
    if a + 1 < b {
      YearStartIncreases(a, b - 1);
      YearLength(b - 1);
    }
  }

  /** A valid date lies inside its March-based month and year. */
  lemma DateInMonth(t: Date)
    requires Valid(t)
    ensures 0 <= MarchMonth(t) <= 11
    ensures var s := MonthStart(MarchMonth(t)) + t.day - 1;
            && MonthStart(MarchMonth(t)) <= s
            && (MarchMonth(t) < 11 ==> s < MonthStart(MarchMonth(t) + 1))
            && s < YearStart(MarchYear(t) + 1) - YearStart(MarchYear(t))
  {
    YearLength(MarchYear(t));
  }

  // ----- theorems

  lemma Epoch()
    ensures Days(Date(1970, 1, 1)) == 0
  {
    assert YearStart(1969) == 719162;
    DaysClosedForm(Date(1970, 1, 1));
  }

  /** Counting from the epoch one day at a time by the Gregorian rules gives the day numbers. */
  lemma DaysFollowTheCalendar(t: Date)
    requires Valid(t)
    ensures Days(Date(1970, 1, 1)) == 0
    ensures Valid(NextDay(t)) && Days(NextDay(t)) == Days(t) + 1
  {
    hide Days, YearStart, IsLeap;
    Epoch();
    DaysClosedForm(t);
    DaysClosedForm(NextDay(t));
    YearLength(t.year - 1);
  }

  lemma DaysIncreaseOneWay(a: Date, b: Date)
    requires Valid(a) && Valid(b) && Before(a, b)
    ensures Days(a) < Days(b)
  {
    hide Days, YearStart, IsLeap;
    DaysClosedForm(a); DaysClosedForm(b);
    DateInMonth(a); DateInMonth(b);
    if MarchYear(a) < MarchYear(b) {
      YearStartIncreases(MarchYear(a), MarchYear(b));
    }
  }

  /** Day numbers order dates as the calendar does. */
  lemma DaysIncrease(a: Date, b: Date)
    requires Valid(a) && Valid(b)
    ensures Days(a) < Days(b) <==> Before(a, b)
  {
    if Before(a, b) {
      DaysIncreaseOneWay(a, b);
    } else if Before(b, a) {
      DaysIncreaseOneWay(b, a);
    } else {
      assert a == b;
    }
  }

  /** Every four-year cycle but the last of most centuries ends with a leap year. */
  lemma LastOfCycle(c: int, q: int)
    requires 0 <= c <= 3 && 0 <= q <= 24
    ensures IsLeap(100 * c + 4 * q + 4) <==> (q == 24 ==> c == 3)
  {
    var y := 100 * c + 4 * q + 4;
    assert y % 4 == 0;
    assert y % 100 == if q == 24 then 0 else 4 * q + 4;
  }

  /** Century, four-year cycle and day within the cycle of a day of an era. */
  lemma SplitEra(doe: int) returns (c: int, q: int, s: int)
    requires 0 <= doe < 146097
    ensures 0 <= c <= 3 && 0 <= q <= 24 && 0 <= s <= 1460 && doe == 36524 * c + 1461 * q + s
    ensures q == 24 && s == 1460 ==> c == 3
  {
    c := if doe == 146096 then 3 else doe / 36524;
    var r := doe - 36524 * c;
    q := if r == 36524 then 24 else r / 1461;
    s := r - 1461 * q;
  }

  lemma YearOfParts(doe: int, c: int, q: int, s: int, late: int)
    requires 0 <= c <= 3 && 0 <= q <= 24 && 0 <= s <= 1460 && doe == 36524 * c + 1461 * q + s
    requires q == 24 && s == 1460 ==> c == 3
    requires late == if 24 * c + q + s >= 1460 then 1 else 0
    ensures 0 <= (s - late) / 365 <= 3
    ensures YearOfEra(doe) == 100 * c + 4 * q + (s - late) / 365
  {
    assert doe / 1460 == 25 * c + q + late;
    assert doe / 36524 - doe / 146096 == c;
    var days := 365 * (100 * c + 4 * q) + (s - late);
    assert doe - doe / 1460 + doe / 36524 - doe / 146096 == days;
    assert days / 365 == 100 * c + 4 * q + (s - late) / 365;
  }

  /** The year-of-era formula finds the year that contains day `doe` of a 400-year era. */
  lemma YearOfEraContains(doe: int)
    requires 0 <= doe < 146097
    ensures var yoe := YearOfEra(doe);
            0 <= yoe < 400 && 0 <= DayOfYear(doe, yoe) < if IsLeap(yoe + 1) then 366 else 365
  {
    hide IsLeap;
    var c, q, s := SplitEra(doe);
    var late := if 24 * c + q + s >= 1460 then 1 else 0;
    var k := (s - late) / 365;
    var yoe := 100 * c + 4 * q + k;
    YearOfParts(doe, c, q, s, late);
    assert yoe / 4 == 25 * c + q && yoe / 100 == c;
    assert DayOfYear(doe, yoe) == s - 365 * k <= 365;
    if s - 365 * k == 365 {
      assert k == 3;
      LastOfCycle(c, q);
    }
  }

  /** The month that the formulas find for day `doy` of a March-based year contains it. */
  lemma MonthOfYear(doy: int, year: int)
    requires 0 <= doy < if IsLeap(year) then 366 else 365
    ensures var mp := (5 * doy + 2) / 153;
            && 0 <= mp <= 11
            && 0 <= doy - MonthStart(mp) < DaysInMonth(year, if mp < 10 then mp + 3 else mp - 9)
  {
    hide IsLeap;
    var mp := (5 * doy + 2) / 153;
    assert 0 <= mp <= 11;
    assert MonthStart(mp) <= doy && (mp < 11 ==> doy < MonthStart(mp + 1));
    assert mp < 11 ==> MonthStart(mp + 1) - MonthStart(mp) == DaysInMonth(year, if mp < 10 then mp + 3 else mp - 9);
  }

  lemma EraShift(era: int, yoe: int, doe: int)
    requires 0 <= yoe < 400
    ensures era * 146097 + doe == YearStart(yoe + era * 400) + DayOfYear(doe, yoe)
  {
    var y := yoe + era * 400;
    assert y / 4 == yoe / 4 + 100 * era && y / 100 == yoe / 100 + 4 * era && y / 400 == era;
  }

  lemma LeapShift(y: int, era: int)
    ensures IsLeap(y + era * 400) == IsLeap(y)
  {
    var n := y + era * 400;
    assert n / 4 == y / 4 + 100 * era && n % 4 == n - n / 4 * 4 && y % 4 == y - y / 4 * 4;
    assert n / 100 == y / 100 + 4 * era && n % 100 == n - n / 100 * 100 && y % 100 == y - y / 100 * 100;
    assert n / 400 == y / 400 + era && n % 400 == n - n / 400 * 400 && y % 400 == y - y / 400 * 400;
  }

  lemma FloorEra(z: int)
    ensures Era(z) == z / 146097 && 0 <= z - Era(z) * 146097 < 146097
  {
  }

  lemma DateInYearCorrect(y: int, doy: int)
    requires 0 <= doy < if IsLeap(y + 1) then 366 else 365
    ensures var t := DateInYear(y, doy); Valid(t) && Days(t) == YearStart(y) + doy - 719468
  {
    hide Days, YearStart, IsLeap;
    var mp, t := (5 * doy + 2) / 153, DateInYear(y, doy);
    MonthOfYear(doy, y + 1);
    DaysClosedForm(t);
    assert t.month != 2 ==> DaysInMonth(t.year, t.month) == DaysInMonth(y + 1, t.month);
  }

  /** The date found for a day number is a real date and has that number. */
  lemma CivilFromDaysInverts(days: int)
    ensures Valid(CivilFromDays(days)) && Days(CivilFromDays(days)) == days
  {
    hide Days, Valid, DateInYear, YearStart, IsLeap, Era, YearOfEra, DayOfYear;
    var z := days + 719468;
    var doe := z - Era(z) * 146097;
    var yoe := YearOfEra(doe);
    FloorEra(z);
    YearOfEraContains(doe);
    EraShift(Era(z), yoe, doe);
    LeapShift(yoe + 1, Era(z));
    assert yoe + 1 + Era(z) * 400 == yoe + Era(z) * 400 + 1;
    DateInYearCorrect(yoe + Era(z) * 400, DayOfYear(doe, yoe));
  }

  /** And a date survives the conversion to a day number and back. */
  lemma DaysInvert(t: Date)
    requires Valid(t)
    ensures CivilFromDays(Days(t)) == t
  {
    hide CivilFromDays, Days;
    var u := CivilFromDays(Days(t));
    CivilFromDaysInverts(Days(t));
    DaysIncrease(t, u);
    DaysIncrease(u, t);
  }

  lemma EraBounds(y: int)
    requires I32_MIN - 1 <= y <= I32_MAX
    ensures var era := TruncDiv(if y >= 0 then y else y - 399, 400);
            -0x100_0000 <= era <= 0x100_0000 && 0 <= y - era * 400 < 400
  {
  }

  lemma DayBounds(n: nat)
    ensures 0 <= TruncDiv(n, 5) <= n
  {
  }

  lemma InRange(era: int, yoe: int, doy: int)
    requires -0x100_0000 <= era <= 0x100_0000 && 0 <= yoe < 400 && -1 <= doy <= 0x1_0000_0000_0000
    ensures var doe := yoe * 365 + yoe / 4 - yoe / 100 + doy;
            && CheckedI64(era * 146097).Some? && CheckedI64(era * 146097 + doe).Some?
            && CheckedI64(era * 146097 + doe - 719468).Some?
  {
  }

  lemma CheckedDaysAgree(y: int, m: int, d: int)
    requires I32_MIN - 1 <= y <= I32_MAX && 0 <= m <= 0xFFFF_FFFF && 0 <= d <= 0xFFFF_FFFF
    ensures CheckedDays(y, m, d) == Some(DaysFromCivil(if m <= 2 then y + 1 else y, m, d))
  {
    var era := TruncDiv(if y >= 0 then y else y - 399, 400);
    var doy := TruncDiv(153 * (if m > 2 then m - 3 else m + 9) + 2, 5) + d - 1;
    EraBounds(y);
    DayBounds(153 * (if m > 2 then m - 3 else m + 9) + 2);
    InRange(era, y - era * 400, doy);
    hide TruncDiv;
  }

  /** The wrapped year is far in the future. */
  lemma LeastYearWraps(m: int, d: int)
    requires 0 <= m <= 2 && 0 <= d <= 0xFFFF_FFFF
    ensures DaysFromCivil(I32_MAX + 1, m, d) > DaysFromCivil(I32_MIN, m, d)
  {
    var late, early := TruncDiv(I32_MAX, 400), TruncDiv(I32_MIN - 1 - 399, 400);
    assert late > 0 > early;
  }

  /** On the 32-bit fields it is given, the log parser's copy agrees with the others and never overflows, but for the
      first two months of the least year. */
  lemma CopiesAgree(year: int, m: int, d: int)
    requires I32_MIN <= year <= I32_MAX && 0 <= m <= 0xFFFF_FFFF && 0 <= d <= 0xFFFF_FFFF
    ensures CheckedDaysFromCivil(year, m, d) == Some(DaysFromCivil(year, m, d)) <==> !(year == I32_MIN && m <= 2)
  {
    hide CheckedDays, DaysFromCivil;
    CheckedDaysAgree(if m <= 2 then AsI32(year - 1) else year, m, d);
    if year == I32_MIN && m <= 2 {
      assert AsI32(year - 1) == I32_MAX;
      LeastYearWraps(m, d);
    }
  }
}
