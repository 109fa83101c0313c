/**
 The 64-bit floats of IEEE 754 as far as whole numbers and their quotients and products need them: a float
 is a fraction, rounded to 53 significant bits, ties to even.
 */
module Float64 {

  function Pow2(n: nat): (r: nat)
    ensures r > 0
  {
    if n == 0 then 1 else 2 * Pow2(n - 1)
  }

  lemma {:induction false} Pow2Add(a: nat, b: nat)
    ensures Pow2(a + b) == Pow2(a) * Pow2(b)
  {
    if a > 0 {
      Pow2Add(a - 1, b);
      assert 2 * (Pow2(a - 1) * Pow2(b)) == (2 * Pow2(a - 1)) * Pow2(b);
    }
  }

  lemma {:induction false} Pow2Grows(a: nat, b: nat)
    requires a <= b
    ensures Pow2(a) <= Pow2(b)
  {
    if a < b {
      Pow2Grows(a, b - 1);
    }
  }

  /** 2^52 and 2^53, between which lie the 53-bit whole numbers. */
  const LOW: nat := 0x10_0000_0000_0000
  const HIGH: nat := 0x20_0000_0000_0000

  type Den = d: nat | d > 0 witness 1

  datatype F64 = F64(num: nat, den: Den)

  /** The nearest whole number to `n / d`; of two, the even one. */
  function Nearest(n: nat, d: Den): nat {
    var q, r := n / d, n % d;
    if 2 * r < d then q else if 2 * r > d then q + 1 else q + q % 2
  }

  /** The float nearest to `n / d`, scaled until it is a whole number of 53 bits. */
  function Round(n: nat, d: Den): F64
    decreases if n < LOW * d then LOW * d - n else if n >= HIGH * d then n - d else 0
  {
    if n == 0 then F64(0, 1)
    else if n < LOW * d then
      var r := Round(2 * n, d);
      F64(r.num, 2 * r.den)
    else if n >= HIGH * d then
      var r := Round(n, 2 * d);
      F64(2 * r.num, r.den)
    else F64(Nearest(n, d), 1)
  }

  function FromNat(n: nat): F64 {
    Round(n, 1)
  }

  function Divide(a: F64, n: Den): F64 {
    Round(a.num, a.den * n)
  }

  function Times(a: F64, b: F64): F64 {
    Round(a.num * b.num, a.den * b.den)
  }

  function Ceil(a: F64): nat {
    (a.num + a.den - 1) / a.den
  }

  // ----- how far off

  function Abs(x: int): nat {
    if x < 0 then -x else x
  }

  lemma NearestError(n: nat, d: Den)
    ensures 2 * Abs(Nearest(n, d) * d - n) <= d
  {
    var q, r := n / d, n % d;
    assert n == q * d + r;
    assert (q + 1) * d == q * d + d;
  }

  /** Rounding to a whole number does not pass one, and leaves one alone. */
  lemma NearestWhole(n: nat, d: Den, k: nat)
    ensures n <= k * d ==> Nearest(n, d) <= k
    ensures n == k * d ==> Nearest(n, d) == k
  {
    var q, r := n / d, n % d;
    assert n == q * d + r;
    assert n - k * d == (q - k) * d + r;
    Multiple(q - k, d, r);
  }

  lemma Multiple(m: int, d: Den, r: nat)
    requires r < d
    ensures m * d + r <= 0 ==> m < 0 || (m == 0 && r == 0)
    ensures m * d + r == 0 ==> m == 0 && r == 0
  {
    if m > 0 { assert m * d >= d; }
    if m < 0 { assert m * d <= -1 * d; }
  }

  lemma RoundCases(n: nat, d: Den)
    ensures Round(n, d)
         == if n == 0 then F64(0, 1)
            else if n < LOW * d then F64(Round(2 * n, d).num, 2 * Round(2 * n, d).den)
            else if n >= HIGH * d then F64(2 * Round(n, 2 * d).num, Round(n, 2 * d).den)
            else F64(Nearest(n, d), 1)
  {
    hide Nearest;
  }

  /** Rounding moves a number by at most a 2^53rd of itself. */
  lemma {:induction false} RoundError(n: nat, d: Den)
    ensures (var r := Round(n, d); Abs(r.num * d - n * r.den) * HIGH <= n * r.den)
    decreases if n < LOW * d then LOW * d - n else if n >= HIGH * d then n - d else 0
  {
    hide Round, Nearest;
    RoundCases(n, d);
    if n == 0 {
    } else if n < LOW * d {
      RoundError(2 * n, d);
      var r := Round(2 * n, d);
      Regroup(n, 2, r.den);
    } else if n >= HIGH * d {
      RoundError(n, 2 * d);
      var r := Round(n, 2 * d);
      Regroup(r.num, 2, d);
    } else {
      NearestError(n, d);
    }
  }

  lemma Regroup(a: nat, b: nat, c: nat)
    ensures (b * a) * c == a * (b * c)
  {
  }

  /** Rounding does not pass a whole number of 53 bits. */
  lemma {:induction false} RoundBelow(n: nat, d: Den, k: nat)
    requires n <= k * d && k <= HIGH
    ensures (var r := Round(n, d); r.num <= k * r.den)
    decreases if n < LOW * d then LOW * d - n else if n >= HIGH * d then n - d else 0
  {
    hide Round, Nearest;
    RoundCases(n, d);
    if n == 0 {
    } else if n < LOW * d {
      var j := if k < LOW then k else LOW;
      Doubles(n, d, j);
      RoundBelow(2 * n, d, 2 * j);
      HalvesAgain(Round(2 * n, d), j, k);
    } else if n >= HIGH * d {
      AtMost(HIGH, k, d);
      Regroup(d, 2, LOW);
      RoundBelow(n, 2 * d, LOW);
      Regroup(Round(n, 2 * d).den, 2, LOW);
    } else {
      NearestWhole(n, d, k);
    }
  }

  lemma Doubles(n: nat, d: Den, j: nat)
    requires n <= j * d
    ensures 2 * n <= (2 * j) * d
  {
    assert (2 * j) * d == 2 * (j * d);
  }

  lemma HalvesAgain(r: F64, j: nat, k: nat)
    requires r.num <= (2 * j) * r.den && j <= k
    ensures r.num <= k * (2 * r.den)
  {
    Regroup(j, 2, r.den);
    Grows(j, k, 2 * r.den);
  }

  lemma Grows(j: nat, k: nat, d: nat)
    requires j <= k
    ensures j * d <= k * d
  {
    assert (k - j) * d == k * d - j * d;
  }

  lemma AtMost(h: nat, k: nat, d: Den)
    requires h * d <= k * d
    ensures h <= k
  {
    assert (k - h) * d == k * d - h * d;
    Multiple(h - k, d, 0);
  }

  /** Whole numbers up to 2^53 are floats. */
  lemma {:induction false} RoundExact(k: nat, d: Den)
    requires k <= HIGH
    ensures Round(k * d, d).num == k * Round(k * d, d).den
    decreases if k * d < LOW * d then LOW * d - k * d else if k * d >= HIGH * d then k * d - d else 0
  {
    hide Round, Nearest;
    RoundCases(k * d, d);
    if k * d == 0 {
      if k > 0 { Grows(1, k, d); }
    } else if k * d < LOW * d {
      if k >= LOW { Grows(LOW, k, d); }
      Regroup(k, 2, d);
      Regroup(d, 2, k);
      assert 2 * (k * d) == (2 * k) * d;
      RoundExact(2 * k, d);
      Regroup(k, 2, Round((2 * k) * d, d).den);
    } else if k * d >= HIGH * d {
      AtMost(HIGH, k, d);
      Regroup(d, 2, LOW);
      assert k * d == LOW * (2 * d);
      RoundExact(LOW, 2 * d);
    } else {
      NearestWhole(k * d, d, k);
    }
  }

  /** The result, given the scale that makes the number a whole one of 53 bits. */
  lemma {:induction false} RoundScaled(n: nat, d: Den, k: nat)
    requires LOW * d <= n * Pow2(k) < HIGH * d
    ensures Round(n, d) == F64(Nearest(n * Pow2(k), d), Pow2(k))
    decreases k
  {
    hide Round, Nearest;
    RoundCases(n, d);
    if k > 0 {
      var w := Pow2(k - 1);
      Regroup(n, 2, w);
      assert n * Pow2(k) == (2 * n) * w == 2 * (n * w);
      Grows(1, w, n);
      RoundScaled(2 * n, d, k - 1);
    }
  }

  // ----- a percentage of a count

  /** `(p as f64 / 100.0) * total as f64`. */
  function PartOf(p: nat, total: nat): F64 {
    Times(Divide(FromNat(p), 100), FromNat(total))
  }

  /** The percentage as a float, exactly `p` hundredths or a little more or less. */
  function Hundredths(p: nat): F64 {
    Divide(FromNat(p), 100)
  }

  lemma HundredthsError(p: nat)
    requires p <= HIGH
    ensures (var q := Hundredths(p); Abs(100 * q.num - p * q.den) * HIGH <= p * q.den)
  {
    hide Round;
    var f := FromNat(p);
    assert p * 1 == p;
    RoundExact(p, 1);
    RoundError(f.num, f.den * 100);
    var q := Hundredths(p);
    CancelDen(q.num, q.den, f.den, 100, p);
  }

  /** An error bound, with a common factor taken out. */
  lemma CancelDen(a: nat, b: nat, f: Den, h: nat, p: nat)
    requires Abs(a * (f * h) - (p * f) * b) * HIGH <= (p * f) * b
    ensures Abs(h * a - p * b) * HIGH <= p * b
  {
    var x, y := h * a - p * b, p * b;
    assert a * (f * h) - (p * f) * b == x * f && (p * f) * b == y * f;
    AbsTimes(x, f);
    assert Abs(x * f) * HIGH == (Abs(x) * HIGH) * f;
    AtMost(Abs(x) * HIGH, y, f);
  }

  lemma AbsTimes(x: int, f: nat)
    ensures Abs(x * f) == Abs(x) * f
  {
    if x < 0 {
      assert x * f == -((-x) * f);
      assert (-x) * f >= 0;
    } else {
      assert x * f >= 0;
    }
  }

  lemma PartError(p: nat, total: nat)
    requires total <= HIGH
    ensures (var q, x := Hundredths(p), PartOf(p, total);
             Abs(x.num * q.den - (q.num * total) * x.den) * HIGH <= (q.num * total) * x.den)
  {
    hide Round;
    var t := FromNat(total);
    assert total * 1 == total;
    RoundExact(total, 1);
    var q, x := Hundredths(p), PartOf(p, total);
    RoundError(q.num * t.num, q.den * t.den);
    assert x.num * (q.den * t.den) == x.num * (t.den * q.den);
    assert (q.num * t.num) * x.den == ((q.num * total) * t.den) * x.den;
    CancelDen(x.num, x.den, t.den, q.den, q.num * total);
    assert q.den * x.num == x.num * q.den;
  }

  /** Below 2^51 hundredths the product is within a hundredth of the exact part. */
  lemma PartIsNear(p: nat, total: nat)
    requires p <= HIGH && total <= HIGH && 3 * (p * total) < HIGH
    ensures (var x := PartOf(p, total); Abs(100 * x.num - (p * total) * x.den) < x.den)
  {
    hide Round, PartOf, Hundredths;
    HundredthsError(p);
    PartError(p, total);
    var q, x := Hundredths(p), PartOf(p, total);
    Combine(p, total, q.num, q.den, x.num, x.den);
  }

  lemma Combine(p: nat, t: nat, qn: nat, qd: Den, xn: nat, xd: Den)
    requires 3 * (p * t) < HIGH
    requires Abs(100 * qn - p * qd) * HIGH <= p * qd
    requires Abs(xn * qd - (qn * t) * xd) * HIGH <= (qn * t) * xd
    ensures Abs(100 * xn - (p * t) * xd) < xd
  {
    hide Abs;
    var a, b, w := 100 * qn - p * qd, xn * qd - (qn * t) * xd, t * xd;
    FirstError(a, p * qd, w);
    Regrouped(qn, t, xd);
    SecondError(a, b, qn, p * qd, (qn * t) * xd, w);
    ErrorsAdd(p, t, qn, qd, xn, xd);
    SameProduct(p, qd, t, xd);
    Assemble(100 * xn - (p * t) * xd, a * w, b, p * t, xd, qd, (p * qd) * w);
  }

  lemma Regrouped(a: nat, b: nat, c: nat)
    ensures (a * b) * c == a * (b * c)
  {
  }

  lemma Assemble(e: int, aw: int, b: int, pt: nat, xd: Den, qd: Den, y: nat)
    requires e * qd == 100 * b + aw && 3 * pt < HIGH && y == pt * (xd * qd)
    requires Abs(aw) * HIGH <= y && 100 * Abs(b) * HIGH <= 2 * y
    ensures Abs(e) < xd
  {
    AbsTimes(e, qd);
    Triangle(100 * b, aw);
    assert Abs(e) * qd <= 100 * Abs(b) + Abs(aw);
    Finish(Abs(e), pt, xd, qd);
  }

  lemma SameProduct(p: nat, qd: nat, t: nat, xd: nat)
    ensures (p * qd) * (t * xd) == (p * t) * (xd * qd)
  {
  }

  lemma Triangle(x: int, y: int)
    ensures Abs(x + y) <= Abs(x) + Abs(y)
  {
  }

  /** The division's error, carried through the product. */
  lemma FirstError(a: int, y: nat, w: nat)
    requires Abs(a) * HIGH <= y
    ensures Abs(a * w) * HIGH <= y * w
  {
    AbsTimes(a, w);
    Scaled(Abs(a) * HIGH, y, w);
    assert (Abs(a) * HIGH) * w == (Abs(a) * w) * HIGH;
  }

  /** The product's own error, in terms of the exact part. */
  lemma SecondError(a: int, b: int, qn: nat, y: nat, z: nat, w: nat)
    requires a == 100 * qn - y && Abs(a) * HIGH <= y
    requires Abs(b) * HIGH <= z && z == qn * w
    ensures 100 * Abs(b) * HIGH <= 2 * (y * w)
  {
    assert 100 * qn <= 2 * y;
    Scaled(100 * qn, 2 * y, w);
    assert (100 * qn) * w == 100 * (qn * w) && (2 * y) * w == 2 * (y * w);
  }

  lemma ErrorsAdd(p: nat, t: nat, qn: nat, qd: nat, xn: nat, xd: nat)
    ensures (100 * xn - (p * t) * xd) * qd
         == 100 * (xn * qd - (qn * t) * xd) + (100 * qn - p * qd) * (t * xd)
  {
    var w := t * xd;
    assert (qn * t) * xd == qn * w && (p * t) * xd == p * w;
    assert (100 * qn - p * qd) * w == 100 * (qn * w) - (p * qd) * w;
    assert (p * qd) * w == (p * w) * qd;
    assert (100 * xn - p * w) * qd == 100 * (xn * qd) - (p * w) * qd;
  }

  lemma Scaled(a: nat, b: nat, w: nat)
    requires a <= b
    ensures a * w <= b * w
  {
    Grows(a, b, w);
  }

  lemma Finish(e: nat, pt: nat, xd: Den, qd: Den)
    requires e * qd * HIGH <= 3 * (pt * (xd * qd)) && 3 * pt < HIGH
    ensures e < xd
  {
    var k := xd * qd;
    assert 3 * (pt * k) == (3 * pt) * k;
    Grows(3 * pt + 1, HIGH, k);
    assert (3 * pt + 1) * k == (3 * pt) * k + k;
    assert k >= 1;
    assert e * qd * HIGH < HIGH * k;
    assert e * qd < k;
    if e >= xd { Grows(xd, e, qd); }
  }
}
