/** The rank `percentile` of `histogram.rs` computes in floats, against the exact nearest rank. */
module PercentileRank {
  import opened Float64

  /** The nearest rank: `p` hundredths of the total rounded up, and at least one. */
  function ExactRank(p: nat, total: nat): nat {
    var up := (p * total + 99) / 100;
    if up == 0 then 1 else up
  }

  /** The rank as it is computed, every operation rounded. */
  function Rank(p: nat, total: nat): nat {
    var up := Ceil(PartOf(p, total));
    if up == 0 then 1 else up
  }

  /** The computed part is a whole number's worth and yet above it, so that rounding up goes one too far. */
  predicate RoundedUp(p: nat, total: nat) {
    var x := PartOf(p, total);
    (p * total) % 100 == 0 && p * total > 0 && 100 * x.num > (p * total) * x.den
  }

  lemma CeilIs(a: F64, k: nat)
    requires a.num <= k * a.den && (k > 0 ==> a.num > (k - 1) * a.den)
    ensures Ceil(a) == k
  {
    var c := Ceil(a);
    var n := a.num + a.den - 1;
    assert n == c * a.den + n % a.den;
    if k > 0 {
      assert (k - 1) * a.den == k * a.den - a.den;
    }
    assert c * a.den <= n < c * a.den + a.den;
    assert (c + 1) * a.den == c * a.den + a.den && (k + 1) * a.den == k * a.den + a.den;
    if c < k {
      Grows(c + 1, k, a.den);
    }
    if c > k {
      Grows(k + 1, c, a.den);
    }
  }

  /** Within a hundredth of an exact part, rounding up gives the exact answer, or one more when that part is whole. */
  lemma CeilNear(x: F64, pt: nat)
    requires Abs(100 * x.num - pt * x.den) < x.den
    ensures (var up := (pt + 99) / 100;
             Ceil(x) == up + if pt % 100 == 0 && 100 * x.num > pt * x.den then 1 else 0)
  {
    var k, r, d := pt / 100, pt % 100, x.den;
    assert pt * d == 100 * (k * d) + r * d;
    assert (k + 1) * d == k * d + d;
    if r == 0 {
      if 100 * x.num > pt * d {
        CeilIs(x, k + 1);
      } else {
        assert k > 0 ==> (k - 1) * d == k * d - d;
        CeilIs(x, k);
      }
    } else {
      assert d <= r * d <= 99 * d by {
        Grows(1, r, d);
        Grows(r, 99, d);
      }
      CeilIs(x, k + 1);
    }
  }

  /** The computed rank is the exact one, or the next exactly when the part was rounded up past a whole number. */
  lemma RankIs(p: nat, total: nat)
    requires p <= HIGH && total <= HIGH && 3 * (p * total) < HIGH
    ensures Rank(p, total) == ExactRank(p, total) + if RoundedUp(p, total) then 1 else 0
  {
    hide PartOf, Ceil;
    PartIsNear(p, total);
    CeilNear(PartOf(p, total), p * total);
  }

  /** A percentage whose float is not above it is never rounded up. */
  lemma NeverRoundedUp(p: nat, total: nat)
    requires p <= HIGH && total <= HIGH && p * total <= 100 * HIGH
    requires 100 * Hundredths(p).num <= p * Hundredths(p).den
    ensures !RoundedUp(p, total)
  {
    hide Round, Hundredths;
    var q, t, x := Hundredths(p), FromNat(total), PartOf(p, total);
    var k := p * total / 100;
    if (p * total) % 100 == 0 {
      FloatOfWhole(total);
      Times100(q, p, total, k);
      TimesDen(q, t, total, k);
      IsTimes(p, total);
      RoundBelow(q.num * t.num, q.den * t.den, k);
      Regrouped(100, k, x.den);
    }
  }

  lemma IsTimes(p: nat, total: nat)
    ensures PartOf(p, total) == Round(Hundredths(p).num * FromNat(total).num, Hundredths(p).den * FromNat(total).den)
  {
    hide Round;
  }

  lemma FloatOfWhole(n: nat)
    requires n <= HIGH
    ensures FromNat(n).num == n * FromNat(n).den
  {
    hide Round;
    assert n * 1 == n;
    RoundExact(n, 1);
  }

  lemma TimesDen(q: F64, t: F64, total: nat, k: nat)
    requires q.num * total <= k * q.den && t.num == total * t.den
    ensures q.num * t.num <= k * (q.den * t.den)
  {
    Regrouped(q.num, total, t.den);
    Regrouped(k, q.den, t.den);
    Grows(q.num * total, k * q.den, t.den);
  }

  lemma Times100(q: F64, p: nat, total: nat, k: nat)
    requires 100 * q.num <= p * q.den && 100 * k == p * total
    ensures q.num * total <= k * q.den
  {
    Grows(100 * q.num, p * q.den, total);
    assert (100 * q.num) * total == 100 * (q.num * total);
    assert (p * q.den) * total == (p * total) * q.den == 100 * (k * q.den);
  }

  /** The two percentiles the console shows: their floats are exact and a little low. */
  lemma ConsolePercentages()
    ensures 100 * Hundredths(50).num <= 50 * Hundredths(50).den
    ensures 100 * Hundredths(95).num <= 95 * Hundredths(95).den
  {
    hide Round, Pow2;
    Scales();
    RoundScaled(50, 1, 47);
    RoundScaled(50 * Pow2(47), Pow2(47) * 100, 53);
    RoundScaled(95, 1, 46);
    RoundScaled(95 * Pow2(46), Pow2(46) * 100, 53);
  }

  /** The powers of two the lemmas about given percentages scale by. */
  lemma Scales()
    ensures Pow2(46) == 0x4000_0000_0000 && Pow2(47) == 0x8000_0000_0000
    ensures Pow2(50) == 0x4_0000_0000_0000 && Pow2(53) == HIGH && Pow2(56) == 8 * HIGH
  {
    hide Pow2;
    Pow2Small();
    Pow2Add(10, 10);
    Pow2Add(20, 20);
    Pow2Add(40, 6);
    Pow2Add(40, 7);
    Pow2Add(40, 10);
    Pow2Add(50, 3);
    Pow2Add(50, 6);
  }

  lemma Pow2Small()
    ensures Pow2(3) == 8 && Pow2(6) == 64 && Pow2(7) == 128 && Pow2(10) == 1024
  {
  }

  /** Seven hundredths of a hundred: the float product is a little above 7, and the rank is 8. */
  lemma SevenOfAHundred()
    ensures Rank(7, 100) == 8 && ExactRank(7, 100) == 7
  {
    hide Round, Pow2;
    Scales();
    RoundScaled(7, 1, 50);
    RoundScaled(7 * Pow2(50), Pow2(50) * 100, 56);
    RoundScaled(100, 1, 46);
    var q, t := Hundredths(7), FromNat(100);
    assert q == F64(5044031582654956, Pow2(56));
    RoundScaled(q.num * t.num, q.den * t.den, 50);
    assert PartOf(7, 100).num == 7881299347898369;
  }
}
