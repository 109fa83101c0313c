/** Which texts `parse_rfc3339_utc_ms` of `vkey.rs` accepts, against RFC 3339, section 5.6. */
module TimestampForms {
  import opened Wrappers
  import opened Calendar
  import opened Timestamps

  /** The parts of a timestamp text between its separators. */
  datatype Stamp = Stamp(year: string, month: string, day: string,
                         hour: string, minute: string, second: string, frac: Option<string>)

  function DayText(p: Stamp): string {
    p.year + "-" + p.month + "-" + p.day
  }

  function HmsText(p: Stamp): string {
    p.hour + ":" + p.minute + ":" + p.second
  }

  function ClockText(p: Stamp): string {
    match p.frac
    case None => HmsText(p)
    case Some(f) => HmsText(p) + "." + f
  }

  function StampText(p: Stamp): string {
    DayText(p) + "T" + ClockText(p) + "Z"
  }

  // ----- what the parts may be

  function Unsigned(s: string): string {
    if s != "" && s[0] == '+' then s[1..] else s
  }

  /** A number in a range: a plus or none, then one digit or more. */
  predicate Number(s: string, low: int, high: int) {
    Unsigned(s) != "" && AllDigits(Unsigned(s)) && low <= Value(Unsigned(s)) <= high
  }

  function Leading(f: string): string {
    if |f| > 3 then f[..3] else f
  }

  function Fraction(p: Stamp): string {
    Leading(p.frac.GetOr(""))
  }

  /** What the parser asks of the parts. Only three characters of a fraction are looked at. */
  predicate Accepted(p: Stamp) {
    && Number(p.year, 1970, I64_MAX) && Number(p.month, 1, 12) && Number(p.day, 1, 31)
    && Number(p.hour, 0, 23) && Number(p.minute, 0, 59) && Number(p.second, 0, 60)
    && AllDigits(Fraction(p))
  }

  function Num(s: string): int {
    Value(Unsigned(s))
  }

  function StampMillis(p: Stamp): int {
    DaysFromCivil(Num(p.year), Num(p.month), Num(p.day)) * 86400000
    + Num(p.hour) * 3600000 + Num(p.minute) * 60000 + Num(p.second) * 1000
    + Value(Fraction(p) + Zeros(3 - |Fraction(p)|))
  }

  // ----- taking a text apart

  lemma {:induction false} SplitOnceInverse(s: string, c: char)
    ensures SplitOnce(s, c).None? ==> Free(s, c)
    ensures SplitOnce(s, c).Some? ==>
              (var (a, b) := SplitOnce(s, c).value; Free(a, c) && s == a + [c] + b)
  {
    if s != "" && s[0] != c {
      SplitOnceInverse(s[1..], c);
    }
  }

  lemma {:induction false} SplitOnceNone(s: string, c: char)
    requires Free(s, c)
    ensures SplitOnce(s, c).None?
  {
    if s != "" { SplitOnceNone(s[1..], c); }
  }

  /** The first piece, and what the other pieces are cut from. */
  lemma {:induction false} SplitInverse(s: string, c: char) returns (rest: string)
    ensures (var r := Split(s, c);
             && Free(r[0], c)
             && (|r| == 1 ==> s == r[0])
             && (|r| > 1 ==> s == r[0] + [c] + rest && Split(rest, c) == r[1..]))
  {
    rest := "";
    if s != "" {
      if s[0] == c {
        rest := s[1..];
        assert s == "" + [c] + rest;
      } else {
        rest := SplitInverse(s[1..], c);
        hide Free;
        FreeFront(s[0], Split(s[1..], c)[0], c);
        var first := Split(s[1..], c)[0];
        assert s == [s[0]] + s[1..];
        if |Split(s[1..], c)| > 1 {
          assert [s[0]] + (first + [c] + rest) == ([s[0]] + first) + [c] + rest;
        }
      }
    }
  }

  lemma FreeFront(x: char, s: string, c: char)
    requires Free(s, c) && x != c
    ensures Free([x] + s, c)
  {
  }

  lemma ThreePieces(s: string, c: char)
    requires |Split(s, c)| == 3
    ensures (var r := Split(s, c); s == r[0] + [c] + r[1] + [c] + r[2] && Free(r[0], c) && Free(r[1], c) && Free(r[2], c))
  {
    hide Split;
    var r := Split(s, c);
    var a := SplitInverse(s, c);
    var b := SplitInverse(a, c);
    var _ := SplitInverse(b, c);
    assert s == r[0] + [c] + (r[1] + [c] + r[2]);
  }

  // ----- numbers

  lemma UnsignedReads(s: string, max: int)
    ensures ParseUnsigned(s, max).Some? <==> Number(s, 0, max)
    ensures ParseUnsigned(s, max).Some? ==> ParseUnsigned(s, max).value == Num(s)
  {
    if AllDigits(Unsigned(s)) { ValueNotNegative(Unsigned(s)); }
  }

  lemma {:induction false} ValueNotNegative(s: string)
    requires AllDigits(s)
    ensures Value(s) >= 0
  {
    if s != "" { ValueNotNegative(s[..|s| - 1]); }
  }

  lemma NumberFree(s: string, low: int, high: int, c: char)
    requires Number(s, low, high) && c != '+' && !IsDigitChar(c)
    ensures Free(s, c)
  {
    var t := Unsigned(s);
    forall i | 0 <= i < |s|
      ensures s[i] != c
    {
      assert s == t || (s[0] == '+' && (i > 0 ==> s[i] == t[i - 1]));
    }
  }

  // ----- the day a text names

  /** The parser's days are on or after the epoch exactly from the year 1970 on, day 31 of any month included. */
  lemma EpochSign(y: int, m: int, d: int)
    requires 1 <= m <= 12 && 1 <= d <= 31
    ensures DaysFromCivil(y, m, d) >= 0 <==> y >= 1970
  {
    hide DaysFromCivil, YearStart, MonthStart;
    var c := FromCivil(y, m, d);
    assert ToDate(c).year == y && ToDate(c).month == m;
    DaysFromMarch(c);
    MonthBounds(c.mp);
    EraBounds(c.era, c.yoe);
  }

  lemma MonthBounds(mp: int)
    requires 0 <= mp < 12
    ensures 0 <= MonthStart(mp) <= 337
    ensures mp >= 10 <==> MonthStart(mp) >= 306
    ensures mp < 10 <==> MonthStart(mp) <= 275
  {
  }

  /** The March-based year 1969 begins 306 days before the epoch. */
  lemma EraBounds(era: int, yoe: int)
    requires 0 <= yoe < 400
    ensures (var start := era * 146097 + YearStart(yoe) - 719468;
             && (era * 400 + yoe == 1969 ==> start == -306)
             && (era * 400 + yoe > 1969 ==> start >= 59)
             && (era * 400 + yoe < 1969 ==> start <= -306 - 365))
  {
    hide YearStart;
    YearStartIs1969();
    if yoe > 0 { YearStartMonotone(0, yoe); }
    if era == 4 {
      if yoe > 369 { YearStartMonotone(369, yoe); }
      if yoe < 369 { YearStartMonotone(yoe, 369); }
    } else if yoe < 399 {
      YearStartMonotone(yoe, 399);
    }
  }

  lemma YearStartIs1969()
    ensures YearStart(0) == 0 && YearStart(369) == 134774 && YearStart(399) <= 146097 - 365
  {
  }

  // ----- the accepted texts

  lemma DateOfParts(p: Stamp)
    requires Number(p.year, 0, I64_MAX) && Number(p.month, 1, 12) && Number(p.day, 1, 31)
    ensures ParseDate(DayText(p)) == Some(Date(Num(p.year), Num(p.month), Num(p.day)))
    ensures Free(DayText(p), 'T')
  {
    hide Split, ParseUnsigned, Number;
    NumberFree(p.year, 0, I64_MAX, '-');
    NumberFree(p.month, 1, 12, '-');
    NumberFree(p.day, 1, 31, '-');
    NumberFree(p.year, 0, I64_MAX, 'T');
    NumberFree(p.month, 1, 12, 'T');
    NumberFree(p.day, 1, 31, 'T');
    SplitThree(p.year, p.month, p.day, '-');
    NumberWidens(p.year, 0, I64_MAX, I64_MAX);
    NumberWidens(p.month, 1, 12, U32_MAX);
    NumberWidens(p.day, 1, 31, U32_MAX);
  }

  lemma NumberWidens(s: string, low: int, high: int, max: int)
    requires Number(s, low, high) && 0 <= low && high <= max
    ensures ParseUnsigned(s, max) == Some(Num(s)) && low <= Num(s) <= high
  {
  }

  lemma ClockOfParts(p: Stamp)
    requires Accepted(p)
    ensures ParseTime(ClockText(p))
         == Some(Num(p.hour) * 3600000 + Num(p.minute) * 60000 + Num(p.second) * 1000
                 + Value(Fraction(p) + Zeros(3 - |Fraction(p)|)))
  {
    hide Split, SplitOnce, ParseUnsigned, Number, Millis;
    HmsFree(p);
    match p.frac {
      case None => SplitOnceNone(HmsText(p), '.');
      case Some(f) => SplitOnceAt(HmsText(p), '.', f);
    }
    SplitThree(p.hour, p.minute, p.second, ':');
    NumberWidens(p.hour, 0, 23, U64_MAX);
    NumberWidens(p.minute, 0, 59, U64_MAX);
    NumberWidens(p.second, 0, 60, U64_MAX);
    MillisIs(p.frac.GetOr(""));
  }

  lemma HmsFree(p: Stamp)
    requires Accepted(p)
    ensures Free(p.hour, ':') && Free(p.minute, ':') && Free(p.second, ':') && Free(HmsText(p), '.')
  {
    hide Number;
    NumberFree(p.hour, 0, 23, ':');
    NumberFree(p.minute, 0, 59, ':');
    NumberFree(p.second, 0, 60, ':');
    NumberFree(p.hour, 0, 23, '.');
    NumberFree(p.minute, 0, 59, '.');
    NumberFree(p.second, 0, 60, '.');
  }

  /** The fraction's first three characters are its milliseconds, zeros on the right where they are fewer. */
  lemma MillisIs(f: string)
    ensures Millis(f).Some? <==> AllDigits(Leading(f))
    ensures Millis(f).Some? ==> Millis(f).value == Value(Leading(f) + Zeros(3 - |Leading(f)|))
  {
    hide Value, Zeros, ParseUnsigned;
    var d := Leading(f);
    ZerosOnly(3 - |d|);
    ZerosOnly(3);
    assert "" + Zeros(3) == Zeros(3);
    if AllDigits(d) {
      ThreeDigits(d + Zeros(3 - |d|));
    }
  }

  lemma ThreeDigits(t: string)
    requires AllDigits(t) && |t| == 3
    ensures ParseUnsigned(t, U64_MAX) == Some(Value(t)) && 0 <= Value(t) < 1000
  {
    assert IsDigitChar(t[0]);
    var u := t[..2];
    var v := u[..1];
    assert v[..0] == "";
    assert Value(v) == DigitValue(v[0]);
    assert Value(u) == 10 * Value(v) + DigitValue(u[1]);
  }

  /** A text in accepted parts is read as what they say. */
  lemma PartsRead(p: Stamp)
    requires Accepted(p)
    ensures ParseTimestamp(StampText(p)) == Some(StampMillis(p))
  {
    hide Accepted, DayText, ClockText, ParseDate, ParseTime, DaysFromCivil, SplitOnce, Value, Unsigned, Zeros;
    PartsInRange(p);
    DateOfParts(p);
    ClockOfParts(p);
    SplitOnceAt(DayText(p), 'T', ClockText(p));
    var s := StampText(p);
    assert s[..|s| - 1] == DayText(p) + "T" + ClockText(p);
    EpochSign(Num(p.year), Num(p.month), Num(p.day));
  }

  /** A day before 1970 is not read, whatever clock follows it. */
  lemma Before1970(p: Stamp)
    requires Number(p.year, 0, 1969) && Number(p.month, 1, 12) && Number(p.day, 1, 31)
    ensures ParseTimestamp(StampText(p)).None?
  {
    hide DayText, ClockText, ParseDate, ParseTime, DaysFromCivil, SplitOnce, Value, Unsigned, Zeros, AllDigits;
    DateOfParts(p);
    SplitOnceAt(DayText(p), 'T', ClockText(p));
    var s := StampText(p);
    assert s[..|s| - 1] == DayText(p) + "T" + ClockText(p);
    EpochSign(Num(p.year), Num(p.month), Num(p.day));
  }

  lemma PartsInRange(p: Stamp)
    requires Accepted(p)
    ensures Number(p.year, 0, I64_MAX) && Number(p.month, 1, 12) && Number(p.day, 1, 31)
    ensures Num(p.year) >= 1970 && 1 <= Num(p.month) <= 12 && 1 <= Num(p.day) <= 31
  {
  }

  /** A date that is read is three numbers with a dash between them. */
  lemma DateParts(s: string) returns (y: string, m: string, d: string)
    requires ParseDate(s).Some?
    ensures s == y + "-" + m + "-" + d
    ensures Number(y, 0, I64_MAX) && Number(m, 1, 12) && Number(d, 1, 31)
    ensures ParseDate(s) == Some(Date(Num(y), Num(m), Num(d)))
  {
    hide Split, ParseUnsigned;
    var r := Split(s, '-');
    ThreePieces(s, '-');
    y, m, d := r[0], r[1], r[2];
    UnsignedReads(y, I64_MAX);
    UnsignedReads(m, U32_MAX);
    UnsignedReads(d, U32_MAX);
  }

  /** A time that is read is three numbers with a colon between them, and a fraction or none. */
  lemma ClockParts(s: string) returns (p: Stamp)
    requires ParseTime(s).Some?
    ensures s == ClockText(p)
    ensures Number(p.hour, 0, 23) && Number(p.minute, 0, 59) && Number(p.second, 0, 60) && AllDigits(Fraction(p))
  {
    hide Split, SplitOnce, ParseUnsigned, Millis;
    SplitOnceInverse(s, '.');
    var (hms, frac) := SplitOnce(s, '.').GetOr((s, ""));
    var r := Split(hms, ':');
    ThreePieces(hms, ':');
    UnsignedReads(r[0], U64_MAX);
    UnsignedReads(r[1], U64_MAX);
    UnsignedReads(r[2], U64_MAX);
    MillisIs(frac);
    p := Stamp("", "", "", r[0], r[1], r[2], if SplitOnce(s, '.').Some? then Some(frac) else None);
  }

  lemma ReadParts(s: string) returns (p: Stamp)
    requires ParseTimestamp(s).Some?
    ensures StampText(p) == s && Accepted(p)
  {
    hide SplitOnce, ParseDate, ParseTime, DaysFromCivil, Value, Zeros;
    var t := s[..|s| - 1];
    SplitOnceInverse(t, 'T');
    var (date, time) := SplitOnce(t, 'T').value;
    var y, m, d := DateParts(date);
    var c := ClockParts(time);
    p := c.(year := y, month := m, day := d);
    assert Fraction(p) == Fraction(c) && ClockText(p) == ClockText(c);
    EpochSign(Num(y), Num(m), Num(d));
    assert s == t + "Z";
  }

  /** Exactly the accepted texts, and what each is read as. */
  lemma AcceptedIff(s: string, ms: int)
    ensures ParseTimestamp(s) == Some(ms) <==> exists p: Stamp :: StampText(p) == s && Accepted(p) && StampMillis(p) == ms
  {
    hide ParseTimestamp, StampText, Accepted, StampMillis;
    if ParseTimestamp(s).Some? {
      var p := ReadParts(s);
      PartsRead(p);
    }
    forall p: Stamp | StampText(p) == s && Accepted(p)
      ensures ParseTimestamp(s) == Some(StampMillis(p))
    {
      PartsRead(p);
    }
  }

  // ----- against the standard

  predicate Digits(s: string, n: nat) {
    |s| == n && AllDigits(s)
  }

  /** A UTC date-time of RFC 3339, section 5.6, in the capitals it prefers, on a date of the calendar. */
  predicate Rfc3339(p: Stamp) {
    && Digits(p.year, 4) && Digits(p.month, 2) && Digits(p.day, 2)
    && Digits(p.hour, 2) && Digits(p.minute, 2) && Digits(p.second, 2)
    && (p.frac.Some? ==> p.frac.value != "" && AllDigits(p.frac.value))
    && ValidDate(Date(Value(p.year), Value(p.month), Value(p.day)))
    && Value(p.hour) <= 23 && Value(p.minute) <= 59 && Value(p.second) <= 60
  }

  lemma Rfc3339Parts(p: Stamp)
    requires Rfc3339(p)
    ensures Number(p.year, 0, 9999) && Number(p.month, 1, 12) && Number(p.day, 1, 31)
    ensures Value(p.year) >= 1970 <==> Accepted(p)
    ensures Num(p.year) == Value(p.year) && Num(p.month) == Value(p.month) && Num(p.day) == Value(p.day)
    ensures Num(p.hour) == Value(p.hour) && Num(p.minute) == Value(p.minute) && Num(p.second) == Value(p.second)
  {
    hide Value;
    FourDigits(p.year);
    ValueNotNegative(p.hour);
    ValueNotNegative(p.minute);
    ValueNotNegative(p.second);
  }

  lemma FourDigits(t: string)
    requires Digits(t, 4)
    ensures 0 <= Value(t) <= 9999
  {
    ThreeDigits(t[..3]);
  }

  lemma FractionIsSmall(p: Stamp)
    requires AllDigits(Fraction(p))
    ensures 0 <= Value(Fraction(p) + Zeros(3 - |Fraction(p)|)) < 1000
  {
    hide Value;
    ZerosOnly(3 - |Fraction(p)|);
    ThreeDigits(Fraction(p) + Zeros(3 - |Fraction(p)|));
  }

  /**
   Every such text from 1970 on is accepted, and none before; it is read as the milliseconds into the
   calendar day it names, digits behind the third of the fraction dropped.
   */
  lemma Rfc3339Iff(p: Stamp)
    requires Rfc3339(p)
    ensures ParseTimestamp(StampText(p)).Some? <==> Value(p.year) >= 1970
    ensures Value(p.year) >= 1970 && Value(p.second) < 60 ==>
              (var ms := ParseTimestamp(StampText(p)).value;
               && CivilFromDays(ms / 86400000) == Date(Value(p.year), Value(p.month), Value(p.day))
               && ms % 86400000 == Value(p.hour) * 3600000 + Value(p.minute) * 60000 + Value(p.second) * 1000
                                   + Value(Fraction(p) + Zeros(3 - |Fraction(p)|)))
  {
    hide Accepted, Number, StampText, ParseTimestamp, DaysFromCivil, CivilFromDays, Value, Zeros, Fraction, Num, ValidDate;
    Rfc3339Parts(p);
    if Value(p.year) >= 1970 {
      PartsRead(p);
      PartsInRange(p);
      DateRoundTripIff(Value(p.year), Value(p.month), Value(p.day));
      IsDate(p);
      if Value(p.second) < 60 { Clock(p); }
    } else {
      NumberNarrows(p.year);
      Before1970(p);
    }
  }

  lemma IsDate(p: Stamp)
    requires Rfc3339(p)
    ensures ValidDate(Date(Value(p.year), Value(p.month), Value(p.day)))
  {
  }

  lemma NumberNarrows(s: string)
    requires Number(s, 0, 9999) && Num(s) < 1970
    ensures Number(s, 0, 1969)
  {
  }

  lemma Clock(p: Stamp)
    requires Accepted(p) && Num(p.second) < 60
    ensures (var clock := Num(p.hour) * 3600000 + Num(p.minute) * 60000 + Num(p.second) * 1000
                          + Value(Fraction(p) + Zeros(3 - |Fraction(p)|));
             && StampMillis(p) / 86400000 == DaysFromCivil(Num(p.year), Num(p.month), Num(p.day))
             && StampMillis(p) % 86400000 == clock)
  {
    hide DaysFromCivil, Fraction, Zeros, Value;
    FractionIsSmall(p);
    var day := DaysFromCivil(Num(p.year), Num(p.month), Num(p.day));
    var clock := StampMillis(p) - day * 86400000;
    assert 0 <= clock < 86400000;
  }

  // ----- what is printed

  /** The parts that are printed. */
  function Printed(ms: nat): Stamp {
    var time := ms / 1000 % 86400;
    var d := CivilFromDaysEuclid(ms / 86400000);
    Stamp(Padded(if d.year < 0 then 0 else d.year, 4), Padded(if d.month < 0 then 0 else d.month, 2),
          Padded(if d.day < 0 then 0 else d.day, 2),
          Padded(time / 3600, 2), Padded(time % 3600 / 60, 2), Padded(time % 60, 2), Some(Padded(ms % 1000, 3)))
  }

  lemma PaddedDigits(n: nat, width: nat)
    requires (n < 100 && width == 2) || (n < 1000 && width == 3) || (n < 10000 && width == 4)
    ensures Digits(Padded(n, width), width) && Value(Padded(n, width)) == n
  {
    PaddedValue(n, width);
    DecimalLength(n);
    ZerosOnly(if |Decimal(n)| < width then width - |Decimal(n)| else 0);
  }

  lemma {:induction false} DecimalLength(n: nat)
    ensures n < 10 ==> |Decimal(n)| == 1
    ensures n < 100 ==> |Decimal(n)| <= 2
    ensures n < 1000 ==> |Decimal(n)| <= 3
    ensures n < 10000 ==> |Decimal(n)| <= 4
  {
    if n >= 10 { DecimalLength(n / 10); }
  }

  /** Until the year 10000 what is printed is a date-time of the standard, to the millisecond. */
  lemma PrintedIsStandard(ms: nat)
    requires CivilFromDays(ms / 86400000).year <= 9999
    ensures Rfc3339(Printed(ms)) && StampText(Printed(ms)) == Timestamp(ms)
    ensures |Timestamp(ms)| == 24
  {
    hide Padded, CivilFromDaysEuclid, CivilFromDays, Value;
    var secs := ms / 1000;
    var days := secs / 86400;
    assert ms / 86400000 == days;
    YearRange(days);
    TwoCivilsAgree(days);
    DayRoundTrip(days);
    var d := CivilFromDaysEuclid(days);
    ShortDate(d);
    PaddedDigits(d.year, 4);
    PaddedDigits(d.month, 2);
    PaddedDigits(d.day, 2);
    var time := secs % 86400;
    Timestamps.ClockParts(time);
    PaddedDigits(time / 3600, 2);
    PaddedDigits(time % 3600 / 60, 2);
    PaddedDigits(time % 60, 2);
    PaddedDigits(ms % 1000, 3);
    PrintedText(ms, d, time);
  }

  lemma ShortDate(d: Date)
    requires ValidDate(d)
    ensures 1 <= d.month <= 12 && 1 <= d.day <= 31
  {
  }

  lemma PrintedText(ms: nat, d: Date, time: nat)
    requires d == CivilFromDaysEuclid(ms / 86400000) && time == ms / 1000 % 86400
    requires d.year >= 0 && d.month >= 0 && d.day >= 0
    ensures StampText(Printed(ms)) == Timestamp(ms)
  {
    hide Padded, CivilFromDaysEuclid;
    assert ms / 1000 / 86400 == ms / 86400000;
    YearRange(ms / 86400000);
    assert Timestamp(ms) == DateText(d) + "T" + TimeText(time, ms % 1000) + "Z";
    assert DayText(Printed(ms)) == DateText(d);
    assert ClockText(Printed(ms)) == TimeText(time, ms % 1000);
  }

  /** What every text of the standard looks like from outside. */
  lemma Rfc3339Shape(p: Stamp)
    requires Rfc3339(p)
    ensures (var s := StampText(p);
             && |s| >= 20 && IsDigitChar(s[0])
             && (|s| == 20 || (|s| >= 22 && s[19] == '.' && AllDigits(s[20..|s| - 1]))))
  {
    hide Value, ValidDate;
    var s := StampText(p);
    assert |DayText(p)| == 10 && |HmsText(p)| == 8;
    assert s[0] == p.year[0];
    match p.frac
    case None =>
    case Some(f) =>
      assert s == (DayText(p) + "T" + HmsText(p) + ".") + (f + "Z");
      assert s[20..|s| - 1] == f;
  }

  ghost predicate StandardForm(s: string) {
    exists p: Stamp :: Rfc3339(p) && StampText(p) == s
  }

  lemma SmallNumbers()
    ensures Value("1") == 1 && Value("01") == 1 && Value("2026") == 2026 && Value("000") == 0
    ensures AllDigits("1") && AllDigits("01") && AllDigits("2026") && AllDigits("000") && AllDigits("")
  {
    assert "1"[..0] == "" && "0"[..0] == "" && "2"[..0] == "";
    assert "01"[..1] == "0" && "20"[..1] == "2" && "202"[..2] == "20" && "2026"[..3] == "202";
    assert "00"[..1] == "0" && "000"[..2] == "00";
  }

  const PLAIN := Stamp("2026", "01", "01", "01", "01", "01", None)

  predicate SaysOne(s: string) {
    Unsigned(s) == "1" || Unsigned(s) == "01"
  }

  /** The parts say the first of January 2026, one second past one minute past one. */
  predicate SaysPlain(p: Stamp) {
    && Unsigned(p.year) == "2026" && SaysOne(p.month) && SaysOne(p.day)
    && SaysOne(p.hour) && SaysOne(p.minute) && SaysOne(p.second)
    && (Fraction(p) == "" || Fraction(p) == "000")
  }

  function PlainMillis(): int {
    DaysFromCivil(2026, 1, 1) * 86400000 + 3661000
  }

  lemma SaysOneIs(s: string, high: int)
    requires SaysOne(s) && high >= 1
    ensures Num(s) == 1 && Number(s, 0, high) && Number(s, 1, high)
  {
    hide Value, AllDigits;
    SmallNumbers();
  }

  lemma PlainYear(s: string)
    requires Unsigned(s) == "2026"
    ensures Num(s) == 2026 && Number(s, 1970, I64_MAX)
  {
    hide Value, AllDigits;
    SmallNumbers();
  }

  lemma PlainFraction(p: Stamp)
    requires Fraction(p) == "" || Fraction(p) == "000"
    ensures AllDigits(Fraction(p)) && Value(Fraction(p) + Zeros(3 - |Fraction(p)|)) == 0
  {
    hide Value, AllDigits;
    SmallNumbers();
    ZerosOnly(3);
    ZerosOnly(0);
    assert "" + Zeros(3) == Zeros(3) && "000" + Zeros(0) == "000";
  }

  lemma PlainReads(p: Stamp)
    requires SaysPlain(p)
    ensures ParseTimestamp(StampText(p)) == Some(PlainMillis())
  {
    hide Value, StampText, ParseTimestamp, DaysFromCivil, Zeros, Number, Num, SaysOne, Unsigned, Fraction, AllDigits;
    PlainYear(p.year);
    SaysOneIs(p.month, 12);
    SaysOneIs(p.day, 31);
    SaysOneIs(p.hour, 23);
    SaysOneIs(p.minute, 59);
    SaysOneIs(p.second, 60);
    PlainFraction(p);
    PartsRead(p);
  }

  lemma ShortParts()
    ensures (var s := "2026-1-1T1:1:1Z"; !StandardForm(s) && ParseTimestamp(s) == Some(PlainMillis()))
  {
    hide ParseTimestamp, PlainMillis, Rfc3339;
    var p := Stamp("2026", "1", "1", "1", "1", "1", None);
    assert StampText(p) == "2026-1-1T1:1:1Z";
    PlainReads(p);
    forall q: Stamp | Rfc3339(q)
      ensures StampText(q) != "2026-1-1T1:1:1Z"
    {
      Rfc3339Shape(q);
    }
  }

  lemma Pluses()
    ensures (var s := "+2026-+1-+1T+1:+1:+1Z"; !StandardForm(s) && ParseTimestamp(s) == Some(PlainMillis()))
  {
    hide ParseTimestamp, PlainMillis, Rfc3339;
    var p := Stamp("+2026", "+1", "+1", "+1", "+1", "+1", None);
    assert StampText(p) == "+2026-+1-+1T+1:+1:+1Z";
    assert "+2026"[1..] == "2026" && "+1"[1..] == "1";
    PlainReads(p);
    forall q: Stamp | Rfc3339(q)
      ensures StampText(q) != "+2026-+1-+1T+1:+1:+1Z"
    {
      Rfc3339Shape(q);
    }
  }

  lemma OddFraction()
    ensures (var s := "2026-01-01T01:01:01.000?Z"; !StandardForm(s) && ParseTimestamp(s) == Some(PlainMillis()))
  {
    hide ParseTimestamp, PlainMillis, Rfc3339, AllDigits, StampText, SaysPlain;
    var p := PLAIN.(frac := Some("000?"));
    var s := "2026-01-01T01:01:01.000?Z";
    OddParts();
    PlainReads(p);
    NotAllDigits(s, 23);
    forall q: Stamp | Rfc3339(q)
      ensures StampText(q) != s
    {
      Rfc3339Shape(q);
    }
  }

  lemma OddParts()
    ensures (var p := PLAIN.(frac := Some("000?")); SaysPlain(p) && StampText(p) == "2026-01-01T01:01:01.000?Z")
  {
    assert "000?"[..3] == "000";
  }

  lemma NotAllDigits(s: string, k: nat)
    requires 20 <= k < |s| - 1 && !IsDigitChar(s[k])
    ensures !AllDigits(s[20..|s| - 1])
  {
    assert s[20..|s| - 1][k - 20] == s[k];
  }

  /** Texts the standard does not allow, each read as `2026-01-01T01:01:01Z`: short parts, pluses, and a fraction that is none. */
  lemma LenientTexts()
    ensures ParseTimestamp("2026-01-01T01:01:01Z").Some?
    ensures forall s :: s == "2026-1-1T1:1:1Z" || s == "+2026-+1-+1T+1:+1:+1Z" || s == "2026-01-01T01:01:01.000?Z"
              ==> !StandardForm(s) && ParseTimestamp(s) == ParseTimestamp("2026-01-01T01:01:01Z")
  {
    hide ParseTimestamp, PlainMillis, StandardForm;
    assert StampText(PLAIN) == "2026-01-01T01:01:01Z";
    PlainReads(PLAIN);
    ShortParts();
    Pluses();
    OddFraction();
  }
}
