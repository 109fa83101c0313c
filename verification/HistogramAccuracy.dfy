/** Which readings the latency histogram reports within the 19% it promises. */
module HistogramAccuracy {
  import opened Float64
  import opened PercentileRank
  import opened Histogram

  /** `reported` is no more than 19% of `truth` away from it, on either side. */
  predicate Within19(truth: nat, reported: nat) {
    100 * reported <= 119 * truth && 81 * truth <= 100 * reported
  }

  /** The readings reported more than 19% too slow, each the least of its bucket. */
  predicate RoundedAway(v: nat) {
    1 <= v <= 5 || v == 8 || v == 10 || v == 16 || v == 32 || v == 64 || v == 128 || v == 256 || v == 305 || v == 609
  }

  /** In a bucket from `low` up to `high`, the promise fails exactly for the readings in the list. */
  predicate Judged(low: nat, high: nat) {
    forall v :: low <= v < high ==> (100 * high <= 119 * v <==> !RoundedAway(v))
  }

  /** `r` is the fourth root of `power`, rounded up. */
  predicate Root(r: nat, power: nat) {
    r > 0 && Fourth(r - 1) < power <= Fourth(r)
  }

  /** A bucket whose readings go from `low` up to `high`, not included, and are reported as `high`. */
  lemma BucketIs(v: nat, b: nat, low: nat, high: nat)
    requires v > 0 && Bucket(v) == b > 0 && v < TOP_MS
    requires Root(low, Pow2(b - 1)) && Root(high, Pow2(b))
    ensures low <= v < high == UpperBound(b)
  {
    hide Fourth, Pow2, RootFrom, Bucket;
    BucketPower(v);
    RootPower(b);
    var u := UpperBound(b);
    if v < low { FourthGrows(v, low - 1); }
    if v >= high { FourthGrows(high, v); }
    if u < high { FourthGrows(u, high - 1); }
    if u > high { FourthGrows(high, u - 1); }
  }

  /** The four buckets of an octave, given the roots that bound them. */
  lemma Octave(v: nat, b: nat, power: nat, r0: nat, r1: nat, r2: nat, r3: nat, r4: nat)
    requires 0 < v < TOP_MS && Pow2(b) == power
    requires Root(r0, power) && Root(r1, 2 * power) && Root(r2, 4 * power) && Root(r3, 8 * power) && Root(r4, 16 * power)
    requires Judged(r0, r1) && Judged(r1, r2) && Judged(r2, r3) && Judged(r3, r4)
    ensures Pow2(b + 4) == 16 * power
    ensures b < Bucket(v) <= b + 4 ==> (100 * UpperBound(Bucket(v)) <= 119 * v <==> !RoundedAway(v))
  {
    hide Bucket, UpperBound, RoundedAway, Fourth;
    assert Pow2(b + 1) == 2 * power && Pow2(b + 2) == 4 * power && Pow2(b + 3) == 8 * power && Pow2(b + 4) == 16 * power;
    var k := Bucket(v);
    if k == b + 1 {
      BucketIs(v, k, r0, r1);
    } else if k == b + 2 {
      BucketIs(v, k, r1, r2);
    } else if k == b + 3 {
      BucketIs(v, k, r2, r3);
    } else if k == b + 4 {
      BucketIs(v, k, r3, r4);
    }
  }

  /** The readings below two seconds, an octave of buckets at a time. */
  lemma ShortReadings(v: nat)
    requires 0 < v < 2048
    ensures 100 * UpperBound(Bucket(v)) <= 119 * v <==> !RoundedAway(v)
  {
    hide Bucket, UpperBound, RoundedAway, Pow2;
    LowOctaves(v);
    MiddleOctaves(v);
    HighOctaves(v);
    BucketPower(v);
    ShortBucket(v);
  }

  lemma LowOctaves(v: nat)
    requires 0 < v < 2048
    ensures Pow2(24) == 0x100_0000
    ensures 0 < Bucket(v) <= 24 ==> (100 * UpperBound(Bucket(v)) <= 119 * v <==> !RoundedAway(v))
  {
    hide Bucket, UpperBound, Pow2;
    Powers();
    Octave(v, 0, 1, 1, 2, 2, 2, 2);
    Octave(v, 4, 16, 2, 3, 3, 4, 4);
    Octave(v, 8, 256, 4, 5, 6, 7, 8);
    Octave(v, 12, 4096, 8, 10, 12, 14, 16);
    Octave(v, 16, 65536, 16, 20, 23, 27, 32);
    Octave(v, 20, 1048576, 32, 39, 46, 54, 64);
  }

  lemma MiddleOctaves(v: nat)
    requires 0 < v < 2048 && Pow2(24) == 0x100_0000
    ensures Pow2(36) == 0x10_0000_0000
    ensures 24 < Bucket(v) <= 36 ==> (100 * UpperBound(Bucket(v)) <= 119 * v <==> !RoundedAway(v))
  {
    hide Bucket, UpperBound, Pow2;
    Octave(v, 24, 16777216, 64, 77, 91, 108, 128);
    Octave(v, 28, 268435456, 128, 153, 182, 216, 256);
    Octave(v, 32, 4294967296, 256, 305, 363, 431, 512);
  }

  lemma HighOctaves(v: nat)
    requires 0 < v < 2048 && Pow2(36) == 0x10_0000_0000
    ensures 36 < Bucket(v) <= 44 ==> (100 * UpperBound(Bucket(v)) <= 119 * v <==> !RoundedAway(v))
  {
    hide Bucket, UpperBound, Pow2;
    Octave(v, 36, 68719476736, 512, 609, 725, 862, 1024);
    Octave(v, 40, 1099511627776, 1024, 1218, 1449, 1723, 2048);
  }

  lemma ShortBucket(v: nat)
    requires 0 < v < 2048
    ensures Bucket(v) <= 44
  {
    hide Fourth, Bucket, Pow2;
    BucketPower(v);
    FourthGrows(v, 2048);
    Pow2Add(12, 12);
    Pow2Add(24, 12);
    Pow2Add(36, 8);
    SmallPowers();
    if Bucket(v) > 44 {
      Pow2Grows(44, Bucket(v) - 1);
    }
  }

  lemma SmallPowers()
    ensures Pow2(12) == 4096 && Pow2(8) == 256 && Fourth(2048) == 4096 * 4096 * 4096 * 256
  {
  }

  /** Past that, the millisecond that rounding adds no longer shows. */
  lemma LongReadings(v: nat)
    requires v >= 2048
    ensures 100 * UpperBound(Bucket(v)) <= 119 * v
  {
    hide Bucket, UpperBound, Fourth;
    BucketAccuracy(v);
    var u := UpperBound(Bucket(v)) - 1;
    if 100 * (u + 1) > 119 * v {
      TooFarUp(u, v);
    }
  }

  lemma TooFarUp(u: nat, v: nat)
    requires v >= 2048 && 100 * (u + 1) > 119 * v
    ensures Fourth(u) >= 2 * Fourth(v)
  {
    hide Fourth;
    assert 10000 * u >= 11893 * v;
    FourthGrows(11893 * v, 10000 * u);
    FourthScales(11893, v);
    FourthScales(10000, u);
    Constants();
    Cancel(Fourth(11893), Fourth(v), Fourth(u));
  }

  lemma Cancel(c: nat, x: nat, y: nat)
    requires c >= 2_0000_0000_0000_0000 && c * x <= 1_0000_0000_0000_0000 * y
    ensures y >= 2 * x
  {
    assert c * x == (c - 2_0000_0000_0000_0000) * x + 2_0000_0000_0000_0000 * x;
    assert (c - 2_0000_0000_0000_0000) * x >= 0;
  }

  lemma FourthScales(a: nat, n: nat)
    ensures Fourth(a * n) == Fourth(a) * Fourth(n)
  {
    assert (a * n) * (a * n) == (a * a) * (n * n);
    assert ((a * a) * (n * n)) * ((a * a) * (n * n)) == ((a * a) * (a * a)) * ((n * n) * (n * n));
  }

  lemma Constants()
    ensures Fourth(10000) == 1_0000_0000_0000_0000 && Fourth(11893) >= 2_0000_0000_0000_0000
  {
  }

  /**
   A reading is reported within 19% of itself exactly when it is none of fourteen small ones and not so slow
   that the top bucket reports it too fast.
   */
  lemma Within19Iff(v: nat)
    ensures Within19(v, UpperBound(Bucket(v))) <==> !RoundedAway(v) && 81 * v <= 100 * TOP_MS
  {
    hide Bucket, UpperBound, RoundedAway;
    BucketAccuracy(v);
    if v == 0 {
      ZeroBound();
      NotRoundedAway(v);
    } else if v < 2048 {
      ShortReadings(v);
    } else {
      LongReadings(v);
      NotRoundedAway(v);
      if v >= TOP_MS {
        TopBucket(v);
        TopBound();
      }
    }
  }

  lemma NotRoundedAway(v: nat)
    requires v == 0 || v > 609
    ensures !RoundedAway(v)
  {
  }

  lemma TopBound()
    ensures UpperBound(MAX_BUCKET) == TOP_MS
  {
    TopPower();
    RootIsExact(TOP_MS);
  }

  /** The least reading there is comes out as twice itself. */
  lemma OneReadsAsTwo()
    ensures UpperBound(Bucket(1)) == 2 && !Within19(1, UpperBound(Bucket(1)))
  {
    hide Fourth, Pow2, Bucket, UpperBound;
    BucketPower(1);
    Powers();
    if Bucket(1) > 1 { Pow2Grows(1, Bucket(1) - 1); }
    BucketIs(1, 1, 1, 2);
  }

  lemma Powers()
    ensures Pow2(0) == 1 && Pow2(1) == 2 && Fourth(0) == 0 && Fourth(1) == 1 && Fourth(2) == 16
  {
  }

  /** A percentile is within 19% of the reading at the computed rank under just that condition on the reading. */
  lemma PercentileWithin19Iff(readings: seq<nat>, s: seq<nat>, p: nat)
    requires readings != [] && Sorted(s) && multiset(s) == multiset(readings)
    ensures s != []
    ensures (var v := Taken(s, p);
             Within19(v, Percentile(HistogramOf(readings), p)) <==> !RoundedAway(v) && 81 * v <= 100 * TOP_MS)
  {
    hide HistogramOf, UpperBound, Bucket, Percentile, RoundedAway, Within19, Taken;
    PercentileIsTaken(readings, s, p);
    Within19Iff(Taken(s, p));
  }

  /** For the two percentiles the console shows, that reading is the exact nearest-rank one. */
  lemma ConsoleWithin19Iff(readings: seq<nat>, s: seq<nat>, p: nat)
    requires readings != [] && Sorted(s) && multiset(s) == multiset(readings)
    requires (p == 50 || p == 95) && |s| <= HIGH && 3 * (p * |s|) < HIGH
    ensures s != []
    ensures (var v := NearestRank(s, p);
             Within19(v, Percentile(HistogramOf(readings), p)) <==> !RoundedAway(v) && 81 * v <= 100 * TOP_MS)
  {
    hide HistogramOf, UpperBound, Bucket, Percentile, RoundedAway, Within19, Taken;
    ConsolePercentiles(readings, s, p);
    PercentileWithin19Iff(readings, s, p);
  }

  /**
   The seventh percentile of the readings 1 to 100: the float rank is 8 where the exact one is 7, so 10 is
   reported, which is not within 19% of 7 nor within a fourth of an octave of it.
   */
  lemma OneToAHundred()
    ensures (var s := seq(100, i => i + 1);
             && NearestRank(s, 7) == 7 && Percentile(HistogramOf(s), 7) == 10
             && !Within19(7, 10) && Fourth(10 - 1) >= 2 * Fourth(7))
  {
    hide HistogramOf, Percentile, Bucket, UpperBound, Rank, ExactRank;
    var s := seq(100, i => i + 1);
    PercentileIsTaken(s, s, 7);
    SevenOfAHundred();
    assert s[7] == 8 && s[6] == 7;
    EightIsInThirteen();
    BucketIs(8, 13, 8, 10);
  }

  lemma EightIsInThirteen()
    ensures Bucket(8) == 13 && Pow2(12) == 4096 && Pow2(13) == 8192
  {
    hide Bucket, Fourth;
    BucketPower(8);
    assert Pow2(12) == 4096 && Pow2(13) == 8192;
    FourthOfEight();
    hide Pow2;
    if Bucket(8) > 13 { Pow2Grows(13, Bucket(8) - 1); }
    if Bucket(8) < 13 { Pow2Grows(Bucket(8), 12); }
  }

  lemma FourthOfEight()
    ensures Fourth(8) == 4096
  {
  }
}
