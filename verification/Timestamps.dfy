/**
 Timestamps and budget periods: `rfc3339_utc_millis` of `credential.rs`, `parse_rfc3339_utc_ms` and
 `period_ordinal` of `vkey.rs`.
 */
module Timestamps {
  import opened Wrappers
  import opened Calendar

  const U32_MAX: int := 0xFFFF_FFFF
  const U64_MAX: int := 0xFFFF_FFFF_FFFF_FFFF
  const I64_MAX: int := 0x7FFF_FFFF_FFFF_FFFF

  // ----- decimal numbers

  predicate IsDigitChar(c: char) {
    '0' <= c <= '9'
  }

  function DigitValue(c: char): int {
    c as int - '0' as int
  }

  function DigitChar(n: int): (c: char)
    requires 0 <= n < 10
    ensures IsDigitChar(c) && DigitValue(c) == n
  {
    ('0' as int + n) as char
  }

  predicate AllDigits(s: string) {
    forall i :: 0 <= i < |s| ==> IsDigitChar(s[i])
  }

  /** The number a digit string spells. */
  function Value(s: string): int {
    if s == "" then 0 else 10 * Value(s[..|s| - 1]) + DigitValue(s[|s| - 1])
  }

  function Decimal(n: nat): string {
    if n < 10 then [DigitChar(n)] else Decimal(n / 10) + [DigitChar(n % 10)]
  }

  function Zeros(n: nat): string {
    if n == 0 then "" else "0" + Zeros(n - 1)
  }

  /** `{n:0width}`: zeros on the left up to `width` digits. */
  function Padded(n: nat, width: nat): string {
    var d := Decimal(n);
    if |d| < width then Zeros(width - |d|) + d else d
  }

  /** Rust's `parse` for an unsigned type: an optional plus, then digits, within range. */
  function ParseUnsigned(s: string, max: int): Option<int> {
    var t := if s != "" && s[0] == '+' then s[1..] else s;
    if t == "" || !AllDigits(t) || Value(t) > max then None else Some(Value(t))
  }

  /** Rust's `parse` for `i64`: an optional sign, then digits, within range. */
  function ParseI64(s: string): Option<int> {
    if s != "" && s[0] == '-' then
      if s[1..] == "" || !AllDigits(s[1..]) || Value(s[1..]) > I64_MAX + 1 then None else Some(-Value(s[1..]))
    else ParseUnsigned(s, I64_MAX)
  }

  // ----- splitting

  function SplitOnce(s: string, c: char): Option<(string, string)> {
    if s == "" then None
    else if s[0] == c then Some(("", s[1..]))
    else
      match SplitOnce(s[1..], c)
      case Some(p) => Some(([s[0]] + p.0, p.1))
      case None => None
  }

  function Split(s: string, c: char): (r: seq<string>)
    ensures r != []
    decreases |s|
  {
    if s == "" then [""]
    else
      var rest := Split(s[1..], c);
      if s[0] == c then [""] + rest else [[s[0]] + rest[0]] + rest[1..]
  }

  // ----- the code

  function Millis(frac: string): Option<int> {
    if frac == "" then Some(0)
    else
      var digits := if |frac| > 3 then frac[..3] else frac;
      if !AllDigits(digits) then None else ParseUnsigned(digits + Zeros(3 - |digits|), U64_MAX)
  }

  function ParseDate(date: string): Option<Date> {
    var parts := Split(date, '-');
    if |parts| != 3 then None
    else
      var year :- ParseI64(parts[0]);
      var month :- ParseUnsigned(parts[1], U32_MAX);
      var day :- ParseUnsigned(parts[2], U32_MAX);
      if 1 <= month <= 12 && 1 <= day <= 31 then Some(Date(year, month, day)) else None
  }

  /** Milliseconds since midnight. */
  function ParseTime(time: string): Option<int> {
    var (hms, frac) := SplitOnce(time, '.').GetOr((time, ""));
    var parts := Split(hms, ':');
    if |parts| != 3 then None
    else
      var hour :- ParseUnsigned(parts[0], U64_MAX);
      var minute :- ParseUnsigned(parts[1], U64_MAX);
      var second :- ParseUnsigned(parts[2], U64_MAX);
      if hour > 23 || minute > 59 || second > 60 then None
      else
        var millis :- Millis(frac);
        Some(hour * 3600000 + minute * 60000 + second * 1000 + millis)
  }

  /** `parse_rfc3339_utc_ms`. */
  function ParseTimestamp(s: string): Option<int> {
    if s == "" || s[|s| - 1] != 'Z' then None
    else
      var (date, time) :- SplitOnce(s[..|s| - 1], 'T');
      var d :- ParseDate(date);
      var ms :- ParseTime(time);
      var days := DaysFromCivil(d.year, d.month, d.day);
      if days < 0 then None else Some(days * 86400000 + ms)
  }

  function DateText(d: Date): string
    requires d.year >= 0 && d.month >= 0 && d.day >= 0
  {
    Padded(d.year, 4) + "-" + Padded(d.month, 2) + "-" + Padded(d.day, 2)
  }

  function TimeText(secs: nat, millis: nat): string {
    Padded(secs / 3600, 2) + ":" + Padded(secs % 3600 / 60, 2) + ":" + Padded(secs % 60, 2) + "." + Padded(millis, 3)
  }

  lemma YearRange(z: int)
    requires 0 <= z
    ensures 0 <= CivilFromDaysEuclid(z).year <= z + 2000
    ensures ValidDate(CivilFromDaysEuclid(z))
  {
    hide DateInEra, YearOf;
    TwoCivilsAgree(z);
    DayRoundTrip(z);
    var n := z + 719468;
    DateInEraIs(n / 146097, n % 146097);
    YearOfBounds(n % 146097);
  }

  /** `rfc3339_utc_millis`. */
  function Timestamp(ms: nat): string {
    var secs := ms / 1000;
    var days := secs / 86400;
    var time := secs % 86400;
    YearRange(days);
    DateText(CivilFromDaysEuclid(days)) + "T" + TimeText(time, ms % 1000) + "Z"
  }

  // ----- printing and reading numbers

  lemma {:induction false} DecimalValue(n: nat)
    ensures AllDigits(Decimal(n)) && Value(Decimal(n)) == n && Decimal(n) != ""
  {
    if n < 10 {
      assert Decimal(n)[..0] == "";
    } else {
      DecimalValue(n / 10);
      assert Decimal(n)[..|Decimal(n)| - 1] == Decimal(n / 10);
    }
  }

  lemma {:induction false} ZerosValue(n: nat, s: string)
    requires AllDigits(s)
    ensures AllDigits(Zeros(n) + s) && Value(Zeros(n) + s) == Value(s)
    decreases n, |s|
  {
    if s == "" {
      ZerosOnly(n);
      assert Zeros(n) + s == Zeros(n);
    } else {
      ZerosValue(n, s[..|s| - 1]);
      assert (Zeros(n) + s)[..|Zeros(n) + s| - 1] == Zeros(n) + s[..|s| - 1];
    }
  }

  lemma {:induction false} ZerosOnly(n: nat)
    ensures |Zeros(n)| == n && AllDigits(Zeros(n)) && Value(Zeros(n)) == 0
  {
    if n > 0 {
      ZerosOnly(n - 1);
      ZerosSnoc(n - 1);
      assert Zeros(n)[..n - 1] == Zeros(n - 1);
    }
  }

  lemma {:induction false} ZerosSnoc(n: nat)
    ensures Zeros(n + 1) == Zeros(n) + "0"
  {
    if n > 0 { ZerosSnoc(n - 1); }
  }

  lemma PaddedValue(n: nat, width: nat)
    ensures AllDigits(Padded(n, width)) && Value(Padded(n, width)) == n && Padded(n, width) != ""
    ensures n < 1000 && width == 3 ==> |Padded(n, width)| == 3
  {
    DecimalValue(n);
    var d := Decimal(n);
    if |d| < width { ZerosValue(width - |d|, d); ZerosOnly(width - |d|); }
    if n < 1000 { SmallDecimal(n); }
  }

  lemma SmallDecimal(n: nat)
    requires n < 1000
    ensures |Decimal(n)| <= 3
  {
    var tens := n / 10;
    assert tens >= 10 ==> |Decimal(tens / 10)| == 1;
    assert |Decimal(tens)| <= 2;
  }

  lemma ParsePadded(n: nat, width: nat, max: int)
    requires n <= max
    ensures ParseUnsigned(Padded(n, width), max) == Some(n)
    ensures max == I64_MAX ==> ParseI64(Padded(n, width)) == Some(n)
  {
    PaddedValue(n, width);
    var s := Padded(n, width);
    assert IsDigitChar(s[0]);
  }

  // ----- joining and splitting

  predicate Free(s: string, c: char) {
    forall i :: 0 <= i < |s| ==> s[i] != c
  }

  lemma {:induction false} SplitOnceAt(a: string, c: char, b: string)
    requires Free(a, c)
    ensures SplitOnce(a + [c] + b, c) == Some((a, b))
  {
    var s := a + [c] + b;
    if a == "" {
      assert s[1..] == b;
    } else {
      SplitOnceAt(a[1..], c, b);
      assert s[1..] == a[1..] + [c] + b;
      assert [a[0]] + a[1..] == a;
    }
  }

  lemma {:induction false} SplitNone(a: string, c: char)
    requires Free(a, c)
    ensures Split(a, c) == [a]
  {
    if a != "" {
      SplitNone(a[1..], c);
      assert [a[0]] + a[1..] == a;
    }
  }

  lemma {:induction false} SplitFirst(a: string, c: char, b: string)
    requires Free(a, c)
    ensures Split(a + [c] + b, c) == [a] + Split(b, c)
  {
    var s := a + [c] + b;
    if a == "" {
      assert s[1..] == b;
    } else {
      SplitFirst(a[1..], c, b);
      assert s[1..] == a[1..] + [c] + b;
      assert [a[0]] + a[1..] == a;
    }
  }

  lemma SplitThree(x: string, y: string, z: string, c: char)
    requires Free(x, c) && Free(y, c) && Free(z, c)
    ensures Split(x + [c] + y + [c] + z, c) == [x, y, z]
  {
    assert x + [c] + y + [c] + z == x + [c] + (y + [c] + z);
    SplitFirst(x, c, y + [c] + z);
    SplitFirst(y, c, z);
    SplitNone(z, c);
  }

  // ----- the round trip

  lemma DateReads(d: Date)
    requires 0 <= d.year <= I64_MAX && ValidDate(d)
    ensures ParseDate(DateText(d)) == Some(d)
    ensures Free(DateText(d), 'T')
  {
    hide Split, Padded, ParseUnsigned, ParseI64;
    var y, m, a := Padded(d.year, 4), Padded(d.month, 2), Padded(d.day, 2);
    PaddedValue(d.year, 4);
    PaddedValue(d.month, 2);
    PaddedValue(d.day, 2);
    SplitThree(y, m, a, '-');
    ParsePadded(d.year, 4, I64_MAX);
    ParsePadded(d.month, 2, U32_MAX);
    ParsePadded(d.day, 2, U32_MAX);
  }

  lemma ClockParts(secs: nat)
    requires secs < 86400
    ensures (var hour, minute, second := secs / 3600, secs % 3600 / 60, secs % 60;
             hour < 24 && minute < 60 && second < 60 && secs == hour * 3600 + minute * 60 + second)
  {
    assert secs % 3600 % 60 == secs % 60;
  }

  /** A clock text with legal parts reads as their sum. */
  lemma ClockReads(hour: nat, minute: nat, second: nat, millis: nat)
    requires hour < 24 && minute < 60 && second < 60 && millis < 1000
    ensures ParseTime(Padded(hour, 2) + ":" + Padded(minute, 2) + ":" + Padded(second, 2) + "." + Padded(millis, 3))
         == Some(hour * 3600000 + minute * 60000 + second * 1000 + millis)
  {
    hide Split, SplitOnce, Padded, ParseUnsigned, Millis;
    var h, m, s, f := Padded(hour, 2), Padded(minute, 2), Padded(second, 2), Padded(millis, 3);
    PaddedFree(hour, 2);
    PaddedFree(minute, 2);
    PaddedFree(second, 2);
    SplitOnceAt(h + ":" + m + ":" + s, '.', f);
    SplitThree(h, m, s, ':');
    ParsePadded(hour, 2, U64_MAX);
    ParsePadded(minute, 2, U64_MAX);
    ParsePadded(second, 2, U64_MAX);
    MillisRead(millis);
  }

  lemma PaddedFree(n: nat, width: nat)
    ensures Free(Padded(n, width), '.') && Free(Padded(n, width), ':')
  {
    hide Padded;
    PaddedValue(n, width);
  }

  lemma TimeReads(secs: nat, millis: nat)
    requires secs < 86400 && millis < 1000
    ensures ParseTime(TimeText(secs, millis)) == Some(secs * 1000 + millis)
  {
    hide ParseTime, Padded;
    ClockParts(secs);
    ClockReads(secs / 3600, secs % 3600 / 60, secs % 60, millis);
  }

  lemma MillisRead(millis: nat)
    requires millis < 1000
    ensures Millis(Padded(millis, 3)) == Some(millis)
  {
    hide Padded;
    PaddedValue(millis, 3);
    ParsePadded(millis, 3, U64_MAX);
    var f := Padded(millis, 3);
    assert f + Zeros(0) == f;
  }

  /** Every millisecond survives being printed by one file and parsed by the other. */
  lemma TimestampRoundTrip(ms: nat)
    requires ms <= U64_MAX
    ensures ParseTimestamp(Timestamp(ms)) == Some(ms)
  {
    hide SplitOnce, DateText, TimeText, ParseDate, ParseTime, DaysFromCivil, CivilFromDaysEuclid, CivilFromDays;
    var secs := ms / 1000;
    var days, time := secs / 86400, secs % 86400;
    YearRange(days);
    var d := CivilFromDaysEuclid(days);
    DateReads(d);
    TimeReads(time, ms % 1000);
    SplitOnceAt(DateText(d), 'T', TimeText(time, ms % 1000));
    var s := Timestamp(ms);
    assert s[..|s| - 1] == DateText(d) + "T" + TimeText(time, ms % 1000);
    TwoCivilsAgree(days);
    DayRoundTrip(days);
    assert ms == days * 86400000 + time * 1000 + ms % 1000;
  }

  // ----- budget periods

  datatype Period = Daily | Weekly | Monthly

  /** `period_ordinal`. */
  function PeriodOrdinal(p: Period, ms: nat): int {
    var days := ms / 86400000;
    match p
    case Daily => days
    case Weekly => days / 7
    case Monthly =>
      var d := CivilFromDays(days);
      d.year * 12 + (d.month - 1)
  }

  /** Days and weeks since the epoch began: each next millisecond starts a new one exactly at its midnight. */
  lemma DailyAndWeeklySteps(ms: nat)
    ensures PeriodOrdinal(Daily, 0) == 0 && PeriodOrdinal(Weekly, 0) == 0
    ensures PeriodOrdinal(Daily, ms + 1) == PeriodOrdinal(Daily, ms) + (if (ms + 1) % 86400000 == 0 then 1 else 0)
    ensures PeriodOrdinal(Weekly, ms + 1) == PeriodOrdinal(Weekly, ms) + (if (ms + 1) % 604800000 == 0 then 1 else 0)
  {
    NextUnit(ms, 86400000);
    NextUnit(ms, 604800000);
    assert forall t: nat :: t / 86400000 / 7 == t / 604800000;
  }

  /** How many whole units have passed, a millisecond later. */
  lemma NextUnit(ms: nat, unit: nat)
    requires unit == 86400000 || unit == 604800000
    ensures (ms + 1) / unit == ms / unit + (if (ms + 1) % unit == 0 then 1 else 0)
  {
  }

  lemma MonthlyDays(days: nat)
    ensures PeriodOrdinal(Monthly, (days + 1) * 86400000)
         == PeriodOrdinal(Monthly, days * 86400000) + (if CivilFromDays(days + 1).day == 1 then 1 else 0)
  {
    hide CivilFromDays;
    DayRoundTrip(days);
    ConsecutiveDays(days);
  }

  /**
   From one millisecond to the next the monthly ordinal steps by one at midnight on day 1, and stays otherwise;
   it starts with the months up to January 1970.
   */
  lemma MonthlySteps(ms: nat)
    ensures PeriodOrdinal(Monthly, 0) == 1970 * 12
    ensures PeriodOrdinal(Monthly, ms + 1)
         == PeriodOrdinal(Monthly, ms)
            + (if (ms + 1) % 86400000 == 0 && CivilFromDays((ms + 1) / 86400000).day == 1 then 1 else 0)
  {
    hide CivilFromDays;
    ConsecutiveDays(0);
    var days := ms / 86400000;
    if (ms + 1) % 86400000 == 0 {
      assert (ms + 1) / 86400000 == days + 1 && (days + 1) * 86400000 / 86400000 == days + 1;
      assert days * 86400000 / 86400000 == days;
      MonthlyDays(days);
    } else {
      assert (ms + 1) / 86400000 == days;
    }
  }

  lemma {:induction false} MonthlyMonotone(x: nat, y: nat)
    requires x <= y
    ensures PeriodOrdinal(Monthly, x * 86400000) <= PeriodOrdinal(Monthly, y * 86400000)
    decreases y
  {
    hide PeriodOrdinal;
    if x < y {
      MonthlyMonotone(x, y - 1);
      MonthlyDays(y - 1);
    }
  }

  /** Periods never run backwards, whichever way the budget is cut. */
  lemma OrdinalMonotone(p: Period, a: nat, b: nat)
    requires a <= b
    ensures PeriodOrdinal(p, a) <= PeriodOrdinal(p, b)
  {
    hide CivilFromDays;
    var x, y := a / 86400000, b / 86400000;
    MonthlyMonotone(x, y);
    assert x * 86400000 / 86400000 == x && y * 86400000 / 86400000 == y;
  }
}
