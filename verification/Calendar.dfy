/**
 Calendar arithmetic of `vkey.rs` and `credential.rs`: day counts and civil dates, against the rules
 of the proleptic Gregorian calendar.
 */
module Calendar {

  datatype Date = Date(year: int, month: int, day: int)

  // ----- the calendar itself

  predicate IsLeap(y: int) {
    y % 4 == 0 && (y % 100 != 0 || y % 400 == 0)
  }

  function DaysInMonth(y: int, m: int): int {
    if m == 2 then (if IsLeap(y) then 29 else 28)
    else if m == 4 || m == 6 || m == 9 || m == 11 then 30
    else 31
  }

  predicate ValidDate(d: Date) {
    1 <= d.month <= 12 && 1 <= d.day <= DaysInMonth(d.year, d.month)
  }

  /** The day after `d`. */
  function NextDay(d: Date): Date {
    if d.day < DaysInMonth(d.year, d.month) then d.(day := d.day + 1)
    else if d.month < 12 then Date(d.year, d.month + 1, 1)
    else Date(d.year + 1, 1, 1)
  }

  // ----- the code

  /** Integer division as Rust does it on signed operands: towards zero. */
  function TruncDiv(a: int, b: int): int
    requires b > 0
  {
    if a >= 0 then a / b else -((-a) / b)
  }

  /** `days_from_civil` of `vkey.rs`. */
  function DaysFromCivil(year: int, m: int, d: int): int {
    var y := if m <= 2 then year - 1 else year;
    var era := TruncDiv(if y >= 0 then y else y - 399, 400);
    var yoe := y - era * 400;
    var doy := TruncDiv(153 * (if m > 2 then m - 3 else m + 9) + 2, 5) + d - 1;
    var doe := yoe * 365 + TruncDiv(yoe, 4) - TruncDiv(yoe, 100) + doy;
    era * 146097 + doe - 719468
  }

  /** Both `civil_from_days` share everything after the era: the date of day `doe` of an era. */
  function DateInEra(era: int, doe: int): Date
  {
    var yoe := TruncDiv(doe - TruncDiv(doe, 1460) + TruncDiv(doe, 36524) - TruncDiv(doe, 146096), 365);
    var y := yoe + era * 400;
    var doy := doe - (365 * yoe + TruncDiv(yoe, 4) - TruncDiv(yoe, 100));
    var mp := TruncDiv(5 * doy + 2, 153);
    var d := doy - TruncDiv(153 * mp + 2, 5) + 1;
    var m := if mp < 10 then mp + 3 else mp - 9;
    Date(if m <= 2 then y + 1 else y, m, d)
  }

  /** `civil_from_days` of `vkey.rs`, with its truncating era. */
  function CivilFromDays(z0: int): Date {
    var z := z0 + 719468;
    var era := TruncDiv(if z >= 0 then z else z - 146096, 146097);
    DateInEra(era, z - era * 146097)
  }

  /** `civil_from_days` of `credential.rs`, with its Euclidean era. */
  function CivilFromDaysEuclid(days: int): Date {
    var z := days + 719468;
    DateInEra(z / 146097, z % 146097)
  }

  /** The two conversions agree on every day, before and after the epoch. */
  lemma TwoCivilsAgree(z: int)
    ensures CivilFromDays(z) == CivilFromDaysEuclid(z)
  {
    hide DateInEra, TruncDiv;
    FloorByTruncation(z + 719468);
  }

  /** The sign adjustment turns truncation into flooring. */
  lemma FloorByTruncation(n: int)
    ensures TruncDiv(if n >= 0 then n else n - 146096, 146097) == n / 146097
  {
    if n < 0 {
      var k := (146096 - n) / 146097;
      assert 146097 * k <= 146096 - n < 146097 * k + 146097;
      assert 0 <= n + 146097 * k < 146097;
      assert n / 146097 == -k;
    }
  }

  // ----- years of an era, months of a year

  /** Days of the era before year `y` of it. */
  function YearStart(y: int): int {
    365 * y + y / 4 - y / 100
  }

  /** Days of a March-based year before its month `mp`. */
  function MonthStart(mp: int): int {
    (153 * mp + 2) / 5
  }

  function YearOf(doe: int): int {
    (doe - doe / 1460 + doe / 36524 - doe / 146096) / 365
  }

  lemma YearOfBounds(doe: int)
    requires 0 <= doe < 146097
    ensures 0 <= YearOf(doe) < 400
    ensures YearStart(YearOf(doe)) <= doe
    ensures doe < YearStart(YearOf(doe) + 1) || (YearOf(doe) == 399 && doe == 146096)
  {
    if doe < 146096 {
      var c, q := doe / 36524, doe / 1460;
      var num := doe - q + c;
      var y := num / 365;
      assert y == YearOf(doe);
      Century(doe, c, q, num);
      assert y / 100 == c;
      Olympiad(doe, c, q, num, y);
      if (y + 1) / 100 != c {
        assert y + 1 == 100 * (c + 1);
        assert YearStart(y + 1) == 36524 * (c + 1);
      }
    }
  }

  lemma Century(doe: int, c: int, q: int, num: int)
    requires 0 <= doe < 146096 && c == doe / 36524 && q == doe / 1460 && num == doe - q + c
    ensures 0 <= c < 4 && 36500 * c <= num < 36500 * (c + 1)
  {
    assert 1460 * q <= doe < 1460 * q + 1460;
    assert 36524 * c <= doe < 36524 * c + 36524;
    if c == 0 {} else if c == 1 {} else if c == 2 {} else {}
  }

  lemma Olympiad(doe: int, c: int, q: int, num: int, y: int)
    requires 0 <= doe < 146096 && 0 <= c < 4 && q == doe / 1460 && num == doe - q + c && y == num / 365
    requires 36500 * c <= num < 36500 * (c + 1)
    ensures y / 4 <= q && 4 * q <= y + 1
  {
    assert 1460 * q <= doe < 1460 * q + 1460;
    assert 365 * y <= num < 365 * y + 365;
  }

  /** Days in the March-based year that starts in year `yoe` of an era; it ends with the next February. */
  function YearLength(yoe: int): int {
    if IsLeap(yoe + 1) then 366 else 365
  }

  lemma YearStartStep(yoe: int)
    requires 0 <= yoe < 400
    ensures yoe < 399 ==> YearStart(yoe + 1) == YearStart(yoe) + YearLength(yoe)
    ensures yoe == 399 ==> YearStart(yoe) + YearLength(yoe) == 146097
  {
  }

  lemma YearStartMonotone(a: int, b: int)
    requires 0 <= a < b <= 400
    ensures YearStart(a) + 365 <= YearStart(b)
  {
  }

  /** The year found for day `doy` of year `yoe` of an era is `yoe`. */
  lemma YearOfUnique(yoe: int, doy: int)
    requires 0 <= yoe < 400 && 0 <= doy < YearLength(yoe)
    ensures 0 <= YearStart(yoe) + doy < 146097
    ensures YearOf(YearStart(yoe) + doy) == yoe
  {
    hide YearOf;
    YearStartStep(yoe);
    if yoe < 399 { YearStartMonotone(yoe, 399); YearStartStep(399); }
    var doe := YearStart(yoe) + doy;
    assert doe >= 0 by { if yoe > 0 { YearStartMonotone(0, yoe); } }
    assert doe < 146097 by { if yoe < 398 { YearStartMonotone(yoe + 1, 399); } }
    YearOfBounds(doe);
    var y := YearOf(doe);
    if y < yoe {
      if y + 1 < yoe { YearStartMonotone(y + 1, yoe); }
    } else if y > yoe {
      if yoe + 1 < y { YearStartMonotone(yoe + 1, y); }
    }
  }

  /** A date counted from March: era, year of the era, month (0 is March), day of the month. */
  datatype MarchDate = MarchDate(era: int, yoe: int, mp: int, day: int)

  predicate ValidMarch(d: MarchDate) {
    0 <= d.yoe < 400 && 0 <= d.mp < 12 && 1 <= d.day <= MarchMonthLength(d.yoe, d.mp)
  }

  function MarchMonthLength(yoe: int, mp: int): int {
    if mp == 11 then YearLength(yoe) - MonthStart(11) else MonthStart(mp + 1) - MonthStart(mp)
  }

  function ToDate(d: MarchDate): Date {
    var m := if d.mp < 10 then d.mp + 3 else d.mp - 9;
    Date(d.yoe + d.era * 400 + (if m <= 2 then 1 else 0), m, d.day)
  }

  function MarchDay(d: MarchDate): int {
    d.era * 146097 + YearStart(d.yoe) + MonthStart(d.mp) + d.day - 1 - 719468
  }

  lemma MonthOfDay(doy: int)
    requires 0 <= doy < 366
    ensures (var mp := (5 * doy + 2) / 153; 0 <= mp < 12 && MonthStart(mp) <= doy && (mp < 11 ==> doy < MonthStart(mp + 1)))
  {
  }

  lemma MonthUnique(mp: int, day: int, yoe: int)
    requires 0 <= mp < 12 && 1 <= day <= MarchMonthLength(yoe, mp)
    ensures (5 * (MonthStart(mp) + day - 1) + 2) / 153 == mp
    ensures 0 <= MonthStart(mp) + day - 1 < YearLength(yoe)
  {
  }

  lemma LeapInEra(era: int, y: int)
    ensures IsLeap(y + 400 * era) == IsLeap(y)
  {
    Shift(y, 400, era);
    Shift(y, 100, 4 * era);
    Shift(y, 4, 100 * era);
  }

  lemma Shift(a: int, m: int, k: int)
    requires m == 400 || m == 100 || m == 4
    ensures (a + m * k) % m == a % m
  {
    if m == 400 {
      assert (a + 400 * k) / 400 == a / 400 + k;
    } else if m == 100 {
      assert (a + 100 * k) / 100 == a / 100 + k;
    } else {
      assert (a + 4 * k) / 4 == a / 4 + k;
    }
  }

  /** Counting from March changes nothing about which dates there are. */
  lemma MarchMonths(d: MarchDate)
    requires 0 <= d.yoe < 400 && 0 <= d.mp < 12
    ensures MarchMonthLength(d.yoe, d.mp) == DaysInMonth(ToDate(d).year, ToDate(d).month)
  {
    LeapInEra(d.era, d.yoe + 1);
    assert ToDate(d).month == 2 ==> ToDate(d).year == d.yoe + 1 + 400 * d.era;
  }

  /** `DateInEra` finds the March date of a day. */
  lemma DateInEraIs(era: int, doe: int)
    requires 0 <= doe < 146097
    ensures (var yoe := YearOf(doe);
             var doy := doe - YearStart(yoe);
             var mp := (5 * doy + 2) / 153;
             var d := MarchDate(era, yoe, mp, doy - MonthStart(mp) + 1);
             ValidMarch(d) && DateInEra(era, doe) == ToDate(d) && MarchDay(d) == era * 146097 + doe - 719468)
  {
    YearOfBounds(doe);
    var yoe := YearOf(doe);
    YearStartStep(yoe);
    var doy := doe - YearStart(yoe);
    MonthOfDay(doy);
    DateInEraForwards(era, doe);
  }

  /** On days of an era no operand of `DateInEra` is negative, so its divisions are plain ones. */
  lemma DateInEraForwards(era: int, doe: int)
    requires 0 <= doe < 146097
    ensures (var yoe := YearOf(doe);
             var doy := doe - YearStart(yoe);
             var mp := (5 * doy + 2) / 153;
             DateInEra(era, doe) == ToDate(MarchDate(era, yoe, mp, doy - MonthStart(mp) + 1)))
  {
    hide YearStart;
    YearOfBounds(doe);
    assert doe - doe / 1460 + doe / 36524 - doe / 146096 >= 0;
    var yoe := TruncDiv(doe - TruncDiv(doe, 1460) + TruncDiv(doe, 36524) - TruncDiv(doe, 146096), 365);
    assert yoe == YearOf(doe);
    YearStartIs(yoe);
  }

  lemma YearStartIs(yoe: int)
    requires yoe >= 0
    ensures 365 * yoe + TruncDiv(yoe, 4) - TruncDiv(yoe, 100) == YearStart(yoe)
  {
  }

  /** The day count of a March date, through the code's `days_from_civil`. */
  lemma DaysFromMarch(d: MarchDate)
    requires 0 <= d.yoe < 400 && 0 <= d.mp < 12
    ensures DaysFromCivil(ToDate(d).year, ToDate(d).month, d.day) == MarchDay(d)
  {
    var y := d.yoe + d.era * 400;
    EraOfYear(d.era, d.yoe);
  }

  lemma EraOfYear(era: int, yoe: int)
    requires 0 <= yoe < 400
    ensures (var y := yoe + era * 400; TruncDiv(if y >= 0 then y else y - 399, 400) == era)
  {
    var y := yoe + era * 400;
    if y < 0 {
      assert (399 - y) / 400 == -era;
    }
  }

  /** Converting a day to a date and back. */
  lemma DayRoundTrip(z: int)
    ensures (var d := CivilFromDays(z); ValidDate(d) && DaysFromCivil(d.year, d.month, d.day) == z)
  {
    hide DateInEra, YearOf, DaysFromCivil, MonthStart, YearStart;
    TwoCivilsAgree(z);
    var n := z + 719468;
    var era, doe := n / 146097, n % 146097;
    DateInEraIs(era, doe);
    var yoe := YearOf(doe);
    var doy := doe - YearStart(yoe);
    var mp := (5 * doy + 2) / 153;
    var d := MarchDate(era, yoe, mp, doy - MonthStart(mp) + 1);
    MarchMonths(d);
    DaysFromMarch(d);
  }

  /** The March date behind a civil month. */
  function FromCivil(year: int, m: int, d: int): MarchDate {
    var y := if m <= 2 then year - 1 else year;
    MarchDate(y / 400, y % 400, if m > 2 then m - 3 else m + 9, d)
  }

  /** A valid March date comes back from its day count. */
  lemma MarchRoundTrip(d: MarchDate)
    requires ValidMarch(d)
    ensures CivilFromDays(MarchDay(d)) == ToDate(d)
  {
    hide DateInEra, YearOf, MonthStart, YearStart;
    MonthUnique(d.mp, d.day, d.yoe);
    var doy := MonthStart(d.mp) + d.day - 1;
    YearOfUnique(d.yoe, doy);
    var z := MarchDay(d);
    TwoCivilsAgree(z);
    var doe := YearStart(d.yoe) + doy;
    assert z + 719468 == d.era * 146097 + doe;
    assert (z + 719468) / 146097 == d.era && (z + 719468) % 146097 == doe;
    DateInEraIs(d.era, doe);
  }

  /**
   A date the parser lets through (any day up to 31 in any month) survives conversion to days and back
   exactly when it is a date of the calendar.
   */
  lemma DateRoundTripIff(y: int, m: int, d: int)
    requires 1 <= m <= 12 && 1 <= d <= 31
    ensures CivilFromDays(DaysFromCivil(y, m, d)) == Date(y, m, d) <==> ValidDate(Date(y, m, d))
  {
    var z := DaysFromCivil(y, m, d);
    DayRoundTrip(z);
    if ValidDate(Date(y, m, d)) {
      hide DaysFromCivil, CivilFromDays;
      var c := FromCivil(y, m, d);
      assert ToDate(c) == Date(y, m, d);
      MarchMonths(c);
      DaysFromMarch(c);
      MarchRoundTrip(c);
    }
  }

  /** Consecutive days have consecutive dates: the conversion is the calendar, anchored at the Unix epoch. */
  lemma ConsecutiveDays(z: int)
    ensures CivilFromDays(0) == Date(1970, 1, 1)
    ensures CivilFromDays(z + 1) == NextDay(CivilFromDays(z))
  {
    hide CivilFromDays, DaysFromCivil;
    EpochDate();
    DayRoundTrip(z);
    var d := CivilFromDays(z);
    NextDayCount(d);
    var n := NextDay(d);
    DateRoundTripIff(n.year, n.month, n.day);
  }

  lemma EpochDate()
    ensures CivilFromDays(0) == Date(1970, 1, 1)
  {
  }

  lemma NextDayCount(d: Date)
    requires ValidDate(d)
    ensures (var n := NextDay(d);
             ValidDate(n) && DaysFromCivil(n.year, n.month, n.day) == DaysFromCivil(d.year, d.month, d.day) + 1)
  {
    hide DaysFromCivil, YearStart;
    var c := FromCivil(d.year, d.month, d.day);
    assert ToDate(c) == d;
    DaysFromMarch(c);
    MarchMonths(c);
    var n := NextDay(d);
    if d.day < DaysInMonth(d.year, d.month) {
      DaysFromMarch(c.(day := d.day + 1));
    } else if c.mp < 11 {
      var next := MarchDate(c.era, c.yoe, c.mp + 1, 1);
      assert ToDate(next) == n;
      DaysFromMarch(next);
    } else {
      YearStartStep(c.yoe);
      var next := if c.yoe < 399 then MarchDate(c.era, c.yoe + 1, 0, 1) else MarchDate(c.era + 1, 0, 0, 1);
      assert ToDate(next) == n;
      assert YearStart(0) == 0 by { YearStartZero(); }
      DaysFromMarch(next);
    }
  }

  lemma YearStartZero()
    ensures YearStart(0) == 0
  {
  }
}
