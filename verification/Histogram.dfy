/**
 The log-bucket latency histogram of `histogram.rs`, checked against exact nearest-rank percentiles.
 Logarithms and roots are exact here: four steps an octave are compared as fourth powers. The rank of a
 percentile is computed in floats as the code computes it.
 */
module Histogram {
  import opened Float64
  import opened PercentileRank
  import Ascending

  const MAX_BUCKET: nat := 96

  /** The largest reading the buckets tell apart from slower ones. */
  const TOP_MS: nat := 0x100_0000

  // ----- buckets

  function Fourth(n: nat): nat {
    n * n * (n * n)
  }

  function FloorLog2(n: nat): (r: nat)
    requires n > 0
    ensures Pow2(r) <= n < Pow2(r + 1)
  {
    if n == 1 then 0 else 1 + FloorLog2(n / 2)
  }

  lemma FourthPositive(n: nat)
    requires n > 0
    ensures Fourth(n) > 0
  {
    assert n * n > 0;
  }

  /** The bucket of a reading: one more than the whole part of 4*log2, at most the top one. */
  function Bucket(ms: nat): nat {
    if ms == 0 then 0
    else
      FourthPositive(ms);
      var index := FloorLog2(Fourth(ms)) + 1;
      if index > MAX_BUCKET then MAX_BUCKET else index
  }

  lemma FourthGrows(a: nat, b: nat)
    requires a <= b
    ensures Fourth(a) <= Fourth(b)
    ensures a < b ==> Fourth(a) < Fourth(b)
  {
    Squares(a, b);
    Squares(a * a, b * b);
  }

  lemma Squares(a: nat, b: nat)
    requires a <= b
    ensures a * a <= b * b && (a < b ==> a * a < b * b)
  {
    assert b * b == a * a + (b - a) * (a + b);
    if a < b {
      assert (b - a) * (a + b) > 0;
    }
  }

  lemma AtMostFourth(n: nat)
    ensures n <= Fourth(n)
  {
    if n > 0 {
      var sq := n * n;
      assert sq == n + n * (n - 1) && n * (n - 1) >= 0;
      assert sq * sq == sq + sq * (sq - 1) && sq * (sq - 1) >= 0;
    }
  }

  /** The least number from `u` on whose fourth power reaches `target`. */
  function RootFrom(target: nat, u: nat): (r: nat)
    ensures r >= u && Fourth(r) >= target
    ensures r > u ==> Fourth(r - 1) < target
    decreases target - u
  {
    AtMostFourth(u);
    if Fourth(u) >= target then u else RootFrom(target, u + 1)
  }

  /** The slowest reading a bucket can hold: the fourth root of 2^bucket, rounded up. */
  function UpperBound(bucket: nat): nat {
    if bucket == 0 then 0 else RootFrom(Pow2(bucket), 0)
  }

  lemma TopPower()
    ensures Pow2(MAX_BUCKET) == Fourth(TOP_MS)
  {
    assert Pow2(12) == 4096;
    Pow2Add(12, 12);
    Pow2Add(24, 24);
    Pow2Add(48, 48);
    assert Pow2(24) == TOP_MS;
  }

  lemma LogGrows(a: nat, b: nat)
    requires 0 < a <= b
    ensures FloorLog2(a) <= FloorLog2(b)
  {
    if FloorLog2(a) > FloorLog2(b) {
      Pow2Grows(FloorLog2(b) + 1, FloorLog2(a));
    }
  }

  lemma BucketGrows(a: nat, b: nat)
    requires a <= b
    ensures Bucket(a) <= Bucket(b)
  {
    hide FloorLog2, Fourth;
    if a > 0 {
      FourthGrows(a, b);
      FourthPositive(a);
      FourthPositive(b);
      LogGrows(Fourth(a), Fourth(b));
    }
  }

  /** Which power of two a reading's bucket promises. */
  lemma BucketPower(ms: nat)
    requires ms > 0
    ensures 0 < Bucket(ms) <= MAX_BUCKET
    ensures Pow2(Bucket(ms) - 1) <= Fourth(ms)
    ensures ms < TOP_MS <==> Fourth(ms) < Pow2(Bucket(ms))
  {
    hide FloorLog2, Fourth, Pow2;
    FourthPositive(ms);
    TopPower();
    var log := FloorLog2(Fourth(ms));
    LogBounds(Fourth(ms));
    if ms < TOP_MS {
      FourthGrows(ms, TOP_MS);
      if log >= MAX_BUCKET {
        Pow2Grows(MAX_BUCKET, log);
      }
    } else {
      FourthGrows(TOP_MS, ms);
      if log < MAX_BUCKET {
        Pow2Grows(log + 1, MAX_BUCKET);
      }
      Pow2Grows(MAX_BUCKET - 1, log);
    }
  }

  lemma LogBounds(n: nat)
    requires n > 0
    ensures Pow2(FloorLog2(n)) <= n < Pow2(FloorLog2(n) + 1)
  {
  }

  lemma RootIsExact(n: nat)
    ensures RootFrom(Fourth(n), 0) == n
  {
    var r := RootFrom(Fourth(n), 0);
    if r < n { FourthGrows(r, n); }
    if r > n { FourthGrows(n, r - 1); }
  }

  /** A bucket reports no reading it holds as faster, up to the top one, and none as more than a step slower. */
  lemma BucketAccuracy(ms: nat)
    ensures ms <= UpperBound(Bucket(ms)) <==> ms <= TOP_MS
    ensures ms > 0 ==> UpperBound(Bucket(ms)) > 0 && Fourth(UpperBound(Bucket(ms)) - 1) < 2 * Fourth(ms)
  {
    if ms > 0 {
      BucketPower(ms);
      hide Bucket, Fourth, RootFrom;
      var b := Bucket(ms);
      var u := UpperBound(b);
      RootPower(b);
      assert Pow2(b) == 2 * Pow2(b - 1);
      if ms < TOP_MS {
        if u < ms { FourthGrows(u, ms); }
      } else {
        TopBucket(ms);
        TopPower();
        RootIsExact(TOP_MS);
      }
    }
  }

  lemma RootPower(b: nat)
    requires b > 0
    ensures UpperBound(b) > 0 && Fourth(UpperBound(b) - 1) < Pow2(b) <= Fourth(UpperBound(b))
  {
  }

  lemma TopBucket(ms: nat)
    requires ms >= TOP_MS
    ensures Bucket(ms) == MAX_BUCKET
  {
    hide FloorLog2, Fourth, Pow2;
    FourthPositive(ms);
    TopPower();
    FourthGrows(TOP_MS, ms);
    LogBounds(Fourth(ms));
    if FloorLog2(Fourth(ms)) < MAX_BUCKET {
      Pow2Grows(FloorLog2(Fourth(ms)) + 1, MAX_BUCKET);
    }
  }

  // ----- histograms

  type Counts = map<nat, nat>

  function CountAt(m: Counts, b: nat): nat {
    if b in m then m[b] else 0
  }

  function Recorded(m: Counts, ms: nat): Counts {
    m[Bucket(ms) := CountAt(m, Bucket(ms)) + 1]
  }

  function HistogramOf(readings: seq<nat>): Counts {
    if readings == [] then map[]
    else Recorded(HistogramOf(readings[..|readings| - 1]), readings[|readings| - 1])
  }

  /** Both columns added, bucket by bucket. */
  function Merged(a: Counts, b: Counts): Counts {
    map k | k in a.Keys + b.Keys :: CountAt(a, k) + CountAt(b, k)
  }

  function SumOver(m: Counts, keys: seq<nat>): nat {
    if keys == [] then 0 else SumOver(m, keys[..|keys| - 1]) + CountAt(m, keys[|keys| - 1])
  }

  /** The columns up to and including the key at `k`. */
  function SumTo(m: Counts, keys: seq<nat>, k: nat): nat
    requires k < |keys|
  {
    SumOver(m, keys[..k + 1])
  }

  function Members(keys: seq<nat>): set<nat> {
    set k | k in keys
  }

  function Total(m: Counts): nat {
    SumOver(m, Ascending.Order(m.Keys))
  }

  /** The first bucket by which `rank` readings have been seen, or the last bucket. */
  function BucketAtRank(m: Counts, keys: seq<nat>, seen: nat, rank: nat): nat
    requires keys != []
    decreases |keys|
  {
    if seen + CountAt(m, keys[0]) >= rank || |keys| == 1 then keys[0]
    else BucketAtRank(m, keys[1..], seen + CountAt(m, keys[0]), rank)
  }

  function Percentile(m: Counts, p: nat): nat {
    var keys := Ascending.Order(m.Keys);
    if Total(m) == 0 || keys == [] then 0 else UpperBound(BucketAtRank(m, keys, 0, Rank(p, Total(m))))
  }

  class LatencyHistogram {
    var buckets: Counts

    constructor ()
      ensures buckets == HistogramOf([])
    {
      buckets := map[];
    }

    method Count() returns (total: nat)
      ensures total == Total(buckets)
    {
      hide SumOver;
      var keys := Ascending.Order(buckets.Keys);
      total := 0;
      SumOverNone(buckets);
      for k := 0 to |keys|
        invariant total == SumOver(buckets, keys[..k])
      {
        SumOverStep(buckets, keys, k);
        total := total + CountAt(buckets, keys[k]);
      }
      assert keys[..|keys|] == keys;
    }

    method Record(ms: nat)
      modifies this
      ensures buckets == Recorded(old(buckets), ms)
    {
      var bucket := Bucket(ms);
      if bucket !in buckets {
        buckets := buckets[bucket := 0];
      }
      buckets := buckets[bucket := buckets[bucket] + 1];
    }

    method Merge(other: LatencyHistogram)
      requires other != this
      modifies this
      ensures buckets == Merged(old(buckets), other.buckets)
    {
      hide AddColumns, Merged, CountAt;
      var keys := Ascending.Order(other.buckets.Keys);
      AddColumnsStart(buckets, other.buckets);
      assert keys[..0] == [];
      for k := 0 to |keys|
        invariant other.buckets == old(other.buckets)
        invariant buckets == AddColumns(old(buckets), other.buckets, keys[..k])
      {
        var bucket := keys[k];
        AddColumnsStep(old(buckets), other.buckets, keys, k);
        CountAtCases(buckets, bucket);
        CountAtCases(other.buckets, bucket);
        if bucket !in buckets {
          buckets := buckets[bucket := 0];
        }
        buckets := buckets[bucket := buckets[bucket] + other.buckets[bucket]];
      }
      assert keys[..|keys|] == keys;
      AddColumnsAll(old(buckets), other.buckets);
    }

    method ReadPercentile(p: nat) returns (ms: nat)
      ensures ms == Percentile(buckets, p)
    {
      hide SumOver, UpperBound, BucketAtRank;
      var total := Count();
      if total == 0 {
        return 0;
      }
      var rank := Rank(p, total);
      var seen := 0;
      var keys := Ascending.Order(buckets.Keys);
      assert keys[0..] == keys;
      for k := 0 to |keys|
        invariant keys != [] ==>
          BucketAtRank(buckets, keys, 0, rank)
          == if k < |keys| then BucketAtRank(buckets, keys[k..], seen, rank) else keys[|keys| - 1]
      {
        BucketAtRankStep(buckets, keys, k, seen, rank);
        seen := seen + buckets[keys[k]];
        if seen >= rank {
          return UpperBound(keys[k]);
        }
      }
      ms := if keys == [] then 0 else UpperBound(keys[|keys| - 1]);
    }
  }

  /** The columns of `b` at `keys` added to those of `a`, one after another. */
  function AddColumns(a: Counts, b: Counts, keys: seq<nat>): Counts {
    if keys == [] then a
    else
      var before, k := AddColumns(a, b, keys[..|keys| - 1]), keys[|keys| - 1];
      before[k := CountAt(before, k) + CountAt(b, k)]
  }

  lemma AddColumnsStart(a: Counts, b: Counts)
    ensures AddColumns(a, b, []) == a
  {
  }

  lemma CountAtCases(m: Counts, b: nat)
    ensures CountAt(m, b) == if b in m then m[b] else 0
  {
  }

  lemma AddColumnsStep(a: Counts, b: Counts, keys: seq<nat>, k: nat)
    requires k < |keys|
    ensures (var before := AddColumns(a, b, keys[..k]);
             AddColumns(a, b, keys[..k + 1]) == before[keys[k] := CountAt(before, keys[k]) + CountAt(b, keys[k])])
  {
    assert keys[..k + 1][..k] == keys[..k];
  }

  lemma {:induction false} AddColumnsAt(a: Counts, b: Counts, keys: seq<nat>, k: nat)
    requires forall i, j :: 0 <= i < j < |keys| ==> keys[i] < keys[j]
    ensures (var r := AddColumns(a, b, keys);
             && (k in r <==> k in a || k in keys)
             && CountAt(r, k) == CountAt(a, k) + (if k in keys then CountAt(b, k) else 0))
  {
    if keys != [] {
      var front, last := keys[..|keys| - 1], keys[|keys| - 1];
      AddColumnsAt(a, b, front, k);
      assert keys == front + [last] && last !in front;
    }
  }

  lemma AddColumnsAll(a: Counts, b: Counts)
    ensures AddColumns(a, b, Ascending.Order(b.Keys)) == Merged(a, b)
  {
    hide AddColumns, CountAt, Merged;
    var keys := Ascending.Order(b.Keys);
    var r, m := AddColumns(a, b, keys), Merged(a, b);
    forall k: nat
      ensures (k in r <==> k in m) && CountAt(r, k) == CountAt(m, k)
    {
      AddColumnsAt(a, b, keys, k);
      MergedAt(a, b, k);
    }
    SameCounts(r, m);
  }

  lemma MergedAt(a: Counts, b: Counts, k: nat)
    ensures k in Merged(a, b) <==> k in a || k in b
    ensures CountAt(Merged(a, b), k) == CountAt(a, k) + CountAt(b, k)
    ensures k !in b ==> CountAt(b, k) == 0
  {
  }

  lemma SameCounts(x: Counts, y: Counts)
    requires forall k: nat :: (k in x <==> k in y) && CountAt(x, k) == CountAt(y, k)
    ensures x == y
  {
    assert x.Keys == y.Keys;
    forall k | k in x
      ensures x[k] == y[k]
    {
      assert CountAt(x, k) == x[k] && CountAt(y, k) == y[k];
    }
  }

  lemma BucketAtRankStep(m: Counts, keys: seq<nat>, k: nat, seen: nat, rank: nat)
    requires k < |keys|
    ensures BucketAtRank(m, keys[k..], seen, rank)
         == if seen + CountAt(m, keys[k]) >= rank || k + 1 == |keys| then keys[k]
            else BucketAtRank(m, keys[k + 1..], seen + CountAt(m, keys[k]), rank)
  {
    assert keys[k..][1..] == keys[k + 1..];
  }

  /** Record every value, as collecting into a histogram does. */
  method Collect(values: seq<nat>) returns (h: LatencyHistogram)
    ensures fresh(h) && h.buckets == HistogramOf(values)
  {
    h := new LatencyHistogram();
    for k := 0 to |values|
      invariant fresh(h) && h.buckets == HistogramOf(values[..k])
    {
      assert values[..k + 1][..k] == values[..k];
      h.Record(values[k]);
    }
    assert values[..|values|] == values;
  }

  // ----- what a histogram counts

  /** How many readings fall in the buckets `bs`. */
  function Num(readings: seq<nat>, bs: set<nat>): nat {
    if readings == [] then 0
    else Num(readings[..|readings| - 1], bs) + (if Bucket(readings[|readings| - 1]) in bs then 1 else 0)
  }

  lemma {:induction false} HistogramCounts(readings: seq<nat>, b: nat)
    ensures CountAt(HistogramOf(readings), b) == Num(readings, {b})
    ensures b in HistogramOf(readings) <==> Num(readings, {b}) > 0
  {
    hide Bucket;
    if readings != [] {
      HistogramCounts(readings[..|readings| - 1], b);
    }
  }

  lemma {:induction false} NumAppend(a: seq<nat>, b: seq<nat>, bs: set<nat>)
    ensures Num(a + b, bs) == Num(a, bs) + Num(b, bs)
  {
    hide Bucket;
    if b == [] {
      assert a + b == a;
    } else {
      NumAppend(a, b[..|b| - 1], bs);
      assert (a + b)[..|a + b| - 1] == a + b[..|b| - 1];
    }
  }

  /** Counting does not depend on the order of the readings. */
  lemma {:induction false} NumPermuted(a: seq<nat>, b: seq<nat>, bs: set<nat>)
    requires multiset(a) == multiset(b)
    ensures Num(a, bs) == Num(b, bs)
  {
    hide Bucket;
    if a == [] {
      assert |multiset(b)| == 0;
    } else {
      var front, last := a[..|a| - 1], a[|a| - 1];
      assert a == front + [last];
      assert last in multiset(b);
      var j :| 0 <= j < |b| && b[j] == last;
      WithoutOne(front, b, j);
      NumPermuted(front, b[..j] + b[j + 1..], bs);
      NumWithout(b, j, bs);
    }
  }

  lemma SameCount(a: seq<nat>, b: seq<nat>)
    requires multiset(a) == multiset(b)
    ensures |a| == |b|
  {
    assert |multiset(a)| == |a| && |multiset(b)| == |b|;
  }

  lemma WithoutOne(front: seq<nat>, b: seq<nat>, j: nat)
    requires j < |b| && multiset(front + [b[j]]) == multiset(b)
    ensures multiset(front) == multiset(b[..j] + b[j + 1..])
  {
    var l, r := b[..j], b[j + 1..];
    assert b == l + ([b[j]] + r);
    assert multiset(b) == multiset(l) + (multiset{b[j]} + multiset(r));
    assert multiset(front + [b[j]]) == multiset(front) + multiset{b[j]};
    assert multiset(l + r) == multiset(l) + multiset(r);
    CancelOne(multiset(front), multiset(l) + multiset(r), b[j]);
  }

  lemma CancelOne(x: multiset<nat>, y: multiset<nat>, e: nat)
    requires x + multiset{e} == y + multiset{e}
    ensures x == y
  {
    assert x == (x + multiset{e}) - multiset{e};
    assert y == (y + multiset{e}) - multiset{e};
  }

  lemma NumWithout(b: seq<nat>, j: nat, bs: set<nat>)
    requires j < |b|
    ensures Num(b, bs) == Num(b[..j] + b[j + 1..], bs) + (if Bucket(b[j]) in bs then 1 else 0)
  {
    hide Bucket, Num;
    var l, r := b[..j], b[j + 1..];
    assert b == l + ([b[j]] + r);
    NumAppend(l, r, bs);
    NumAppend(l, [b[j]] + r, bs);
    NumAppend([b[j]], r, bs);
    NumOne(b[j], bs);
  }

  lemma NumOne(ms: nat, bs: set<nat>)
    ensures Num([ms], bs) == if Bucket(ms) in bs then 1 else 0
  {
    hide Bucket;
    assert [ms][..0] == [];
    assert Num([], bs) == 0;
  }

  /** Two sets of buckets that hold the same of these readings count the same. */
  lemma {:induction false} NumAgrees(readings: seq<nat>, bs: set<nat>, cs: set<nat>)
    requires forall i :: 0 <= i < |readings| ==> (Bucket(readings[i]) in bs <==> Bucket(readings[i]) in cs)
    ensures Num(readings, bs) == Num(readings, cs)
  {
    hide Bucket;
    if readings != [] {
      var front := readings[..|readings| - 1];
      assert forall i :: 0 <= i < |front| ==> front[i] == readings[i];
      NumAgrees(front, bs, cs);
    }
  }

  lemma {:induction false} NumSplits(readings: seq<nat>, bs: set<nat>, b: nat)
    requires b !in bs
    ensures Num(readings, bs + {b}) == Num(readings, bs) + Num(readings, {b})
  {
    hide Bucket;
    if readings != [] {
      NumSplits(readings[..|readings| - 1], bs, b);
    }
  }

  /** Summing distinct columns counts the readings that fall in any of them. */
  lemma {:induction false} SumCounts(readings: seq<nat>, keys: seq<nat>)
    requires forall i, j :: 0 <= i < j < |keys| ==> keys[i] < keys[j]
    ensures SumOver(HistogramOf(readings), keys) == Num(readings, Members(keys))
  {
    hide Bucket, HistogramOf, Num;
    if keys == [] {
      NumNone(readings);
      assert Members(keys) == {};
    } else {
      var front, last := keys[..|keys| - 1], keys[|keys| - 1];
      SumCounts(readings, front);
      HistogramCounts(readings, last);
      var before := Members(front);
      assert keys == front + [last];
      assert Members(keys) == before + {last};
      assert last !in before;
      NumSplits(readings, before, last);
    }
  }

  lemma {:induction false} NumNone(readings: seq<nat>)
    ensures Num(readings, {}) == 0
  {
    if readings != [] {
      NumNone(readings[..|readings| - 1]);
    }
  }

  // ----- merging

  lemma MergeIsAppend(a: seq<nat>, b: seq<nat>)
    ensures Merged(HistogramOf(a), HistogramOf(b)) == HistogramOf(a + b)
  {
    hide HistogramOf, Num, Bucket, CountAt, Merged;
    var x, y, z := HistogramOf(a), HistogramOf(b), HistogramOf(a + b);
    forall k: nat
      ensures (k in Merged(x, y) <==> k in z) && CountAt(Merged(x, y), k) == CountAt(z, k)
    {
      MergedAt(x, y, k);
      HistogramCounts(a, k);
      HistogramCounts(b, k);
      HistogramCounts(a + b, k);
      NumAppend(a, b, {k});
    }
    SameCounts(Merged(x, y), z);
  }

  function Flatten(parts: seq<seq<nat>>): seq<nat> {
    if parts == [] then [] else Flatten(parts[..|parts| - 1]) + parts[|parts| - 1]
  }

  /** One histogram a part, all merged. */
  function MergedAll(parts: seq<seq<nat>>): Counts {
    if parts == [] then map[] else Merged(MergedAll(parts[..|parts| - 1]), HistogramOf(parts[|parts| - 1]))
  }

  lemma {:induction false} MergedAllIs(parts: seq<seq<nat>>)
    ensures MergedAll(parts) == HistogramOf(Flatten(parts))
  {
    hide HistogramOf;
    if parts == [] {
      NothingRecorded();
    } else {
      MergedAllIs(parts[..|parts| - 1]);
      MergeIsAppend(Flatten(parts[..|parts| - 1]), parts[|parts| - 1]);
    }
  }

  lemma NothingRecorded()
    ensures HistogramOf([]) == map[]
  {
  }

  /** However readings are dealt out, and in whatever order, merging gives the histogram of recording them all. */
  lemma AnyPartition(parts: seq<seq<nat>>, readings: seq<nat>)
    requires multiset(Flatten(parts)) == multiset(readings)
    ensures MergedAll(parts) == HistogramOf(readings)
  {
    hide HistogramOf, Flatten, MergedAll, Num, Bucket, CountAt;
    MergedAllIs(parts);
    var x, y := HistogramOf(Flatten(parts)), HistogramOf(readings);
    forall k: nat
      ensures (k in x <==> k in y) && CountAt(x, k) == CountAt(y, k)
    {
      HistogramCounts(Flatten(parts), k);
      HistogramCounts(readings, k);
      NumPermuted(Flatten(parts), readings, {k});
    }
    SameCounts(x, y);
  }

  // ----- percentiles

  predicate Sorted(s: seq<nat>) {
    forall i, j :: 0 <= i < j < |s| ==> s[i] <= s[j]
  }

  /** The buckets from 0 to `b`. */
  function UpTo(b: nat): (r: set<nat>)
    ensures forall k: nat :: k in r <==> k <= b
  {
    if b == 0 then {0} else UpTo(b - 1) + {b}
  }

  /** In sorted readings, the one at `rank` splits the counts: earlier buckets hold fewer than `rank`, its own completes it. */
  lemma {:induction false} RankSplits(s: seq<nat>, rank: nat, b: nat)
    requires Sorted(s) && 0 < rank <= |s|
    ensures b < Bucket(s[rank - 1]) ==> Num(s, UpTo(b)) < rank
    ensures b >= Bucket(s[rank - 1]) ==> Num(s, UpTo(b)) >= rank
  {
    hide Bucket;
    var l, r := s[..rank - 1], s[rank..];
    var v := s[rank - 1];
    assert s == l + ([v] + r);
    NumAppend(l, [v] + r, UpTo(b));
    NumAppend([v], r, UpTo(b));
    NumOne(v, UpTo(b));
    NumAtMost(l, UpTo(b));
    if b < Bucket(v) {
      forall i | 0 <= i < |r|
        ensures Bucket(r[i]) !in UpTo(b)
      {
        assert r[i] == s[rank + i];
        BucketGrows(v, r[i]);
      }
      NumAgrees(r, UpTo(b), {});
      NumNone(r);
    } else {
      forall i | 0 <= i < |l|
        ensures Bucket(l[i]) in UpTo(b)
      {
        BucketGrows(l[i], v);
      }
      NumAll(l, UpTo(b));
    }
  }

  lemma {:induction false} NumAtMost(readings: seq<nat>, bs: set<nat>)
    ensures Num(readings, bs) <= |readings|
  {
    if readings != [] {
      NumAtMost(readings[..|readings| - 1], bs);
    }
  }

  lemma {:induction false} NumAll(readings: seq<nat>, bs: set<nat>)
    requires forall i :: 0 <= i < |readings| ==> Bucket(readings[i]) in bs
    ensures Num(readings, bs) == |readings|
  {
    hide Bucket;
    if readings != [] {
      NumAll(readings[..|readings| - 1], bs);
    }
  }

  /** The columns up to a key hold every reading of that key's bucket or an earlier one. */
  lemma SumUpTo(readings: seq<nat>, k: nat)
    requires k < |Ascending.Order(HistogramOf(readings).Keys)|
    ensures (var keys := Ascending.Order(HistogramOf(readings).Keys);
             SumTo(HistogramOf(readings), keys, k) == Num(readings, UpTo(keys[k])))
  {
    hide Bucket, HistogramOf, Num, SumOver;
    var keys := Ascending.Order(HistogramOf(readings).Keys);
    SumCounts(readings, keys[..k + 1]);
    var these := Members(keys[..k + 1]);
    forall i | 0 <= i < |readings|
      ensures Bucket(readings[i]) in these <==> Bucket(readings[i]) in UpTo(keys[k])
    {
      Recognised(readings, i);
      PrefixIsUpTo(keys, k, Bucket(readings[i]));
    }
    NumAgrees(readings, these, UpTo(keys[k]));
  }

  lemma PrefixIsUpTo(keys: seq<nat>, k: nat, b: nat)
    requires forall i, j :: 0 <= i < j < |keys| ==> keys[i] < keys[j]
    requires k < |keys| && b in keys
    ensures b in Members(keys[..k + 1]) <==> b in UpTo(keys[k])
  {
    var j :| 0 <= j < |keys| && keys[j] == b;
    if j <= k { assert keys[..k + 1][j] == b; }
  }

  lemma {:induction false} Recognised(readings: seq<nat>, i: nat)
    requires i < |readings|
    ensures Bucket(readings[i]) in HistogramOf(readings)
  {
    hide Bucket;
    if i < |readings| - 1 {
      Recognised(readings[..|readings| - 1], i);
    }
  }

  /** The walk stops at the first key by which `rank` readings have been seen, or at the last. */
  lemma {:induction false} WalkStops(m: Counts, keys: seq<nat>, k: nat, at: nat, rank: nat)
    requires k <= at < |keys| && (SumTo(m, keys, at) >= rank || at == |keys| - 1)
    requires forall j :: k <= j < at ==> SumTo(m, keys, j) < rank
    ensures BucketAtRank(m, keys[k..], SumOver(m, keys[..k]), rank) == keys[at]
    decreases at - k
  {
    hide SumOver, BucketAtRank;
    SumOverStep(m, keys, k);
    BucketAtRankStep(m, keys, k, SumOver(m, keys[..k]), rank);
    assert SumTo(m, keys, k) == SumOver(m, keys[..k + 1]);
    if k < at {
      WalkStops(m, keys, k + 1, at, rank);
    }
  }

  lemma SumOverNone(m: Counts)
    ensures SumOver(m, []) == 0
  {
  }

  lemma SumOverStep(m: Counts, keys: seq<nat>, k: nat)
    requires k < |keys|
    ensures SumOver(m, keys[..k + 1]) == SumOver(m, keys[..k]) + CountAt(m, keys[k])
  {
    assert keys[..k + 1][..k] == keys[..k];
  }

  lemma TotalIsAll(readings: seq<nat>)
    ensures Total(HistogramOf(readings)) == |readings|
  {
    hide HistogramOf, Bucket;
    var keys := Ascending.Order(HistogramOf(readings).Keys);
    SumCounts(readings, keys);
    forall i | 0 <= i < |readings|
      ensures Bucket(readings[i]) in Members(keys)
    {
      Recognised(readings, i);
    }
    NumAll(readings, Members(keys));
  }

  /** The reading at a rank of a sorted list, or the last one. */
  function ReadingAt(s: seq<nat>, rank: nat): nat
    requires s != [] && rank > 0
  {
    s[if rank > |s| then |s| - 1 else rank - 1]
  }

  /** The reading a nearest-rank percentile picks from a sorted list. */
  function NearestRank(s: seq<nat>, p: nat): nat
    requires s != []
  {
    ReadingAt(s, ExactRank(p, |s|))
  }

  /** The reading at the rank that is computed. */
  function Taken(s: seq<nat>, p: nat): nat
    requires s != []
  {
    ReadingAt(s, Rank(p, |s|))
  }

  lemma ReachesRank(readings: seq<nat>, s: seq<nat>, rank: nat, j: nat)
    requires Sorted(s) && multiset(s) == multiset(readings) && 0 < rank <= |s|
    requires j < |Ascending.Order(HistogramOf(readings).Keys)|
    ensures (var keys := Ascending.Order(HistogramOf(readings).Keys);
             SumTo(HistogramOf(readings), keys, j) >= rank <==> keys[j] >= Bucket(s[rank - 1]))
  {
    hide HistogramOf, Bucket, Num, SumTo, UpTo, Sorted;
    var keys := Ascending.Order(HistogramOf(readings).Keys);
    SumUpTo(readings, j);
    NumPermuted(readings, s, UpTo(keys[j]));
    RankSplits(s, rank, keys[j]);
  }

  /** The bucket found at a rank is the bucket of the reading at that rank. */
  lemma {:induction false} FindsRank(readings: seq<nat>, s: seq<nat>, rank: nat)
    requires Sorted(s) && multiset(s) == multiset(readings) && 0 < rank <= |s|
    ensures (var m := HistogramOf(readings);
             var keys := Ascending.Order(m.Keys);
             keys != [] && BucketAtRank(m, keys, 0, rank) == Bucket(s[rank - 1]))
  {
    hide HistogramOf, Bucket, Num, SumOver, SumTo, BucketAtRank, Sorted;
    var m := HistogramOf(readings);
    var keys := Ascending.Order(m.Keys);
    SomewhereIn(readings, s, rank - 1);
    var at :| 0 <= at < |keys| && keys[at] == Bucket(s[rank - 1]);
    ReachesRank(readings, s, rank, at);
    forall j | 0 <= j < at
      ensures SumTo(m, keys, j) < rank
    {
      ReachesRank(readings, s, rank, j);
    }
    SumOverNone(m);
    assert keys[0..] == keys && keys[..0] == [];
    WalkStops(m, keys, 0, at, rank);
  }

  /** A reading's bucket stands somewhere among the keys. */
  lemma SomewhereIn(readings: seq<nat>, s: seq<nat>, i: nat)
    requires multiset(s) == multiset(readings) && i < |s|
    ensures (var keys := Ascending.Order(HistogramOf(readings).Keys);
             exists at :: 0 <= at < |keys| && keys[at] == Bucket(s[i]))
  {
    hide HistogramOf, Bucket;
    assert s[i] in multiset(readings);
    var j :| 0 <= j < |readings| && readings[j] == s[i];
    Recognised(readings, j);
    assert Bucket(s[i]) in Ascending.Order(HistogramOf(readings).Keys);
  }

  /** Every key counts a reading, so no key stands past one that counts them all. */
  lemma NoKeyPast(readings: seq<nat>, at: nat)
    requires at < |Ascending.Order(HistogramOf(readings).Keys)|
    requires SumTo(HistogramOf(readings), Ascending.Order(HistogramOf(readings).Keys), at) >= |readings|
    ensures at == |Ascending.Order(HistogramOf(readings).Keys)| - 1
  {
    hide HistogramOf, Bucket, Num, SumOver, UpTo;
    var m := HistogramOf(readings);
    var keys := Ascending.Order(m.Keys);
    if at + 1 < |keys| {
      SumUpTo(readings, at + 1);
      NumAtMost(readings, UpTo(keys[at + 1]));
      SumOverStep(m, keys, at + 1);
      HistogramCounts(readings, keys[at + 1]);
    }
  }

  /** The last key is the bucket of the slowest reading. */
  lemma LastKey(readings: seq<nat>, s: seq<nat>)
    requires Sorted(s) && multiset(s) == multiset(readings) && s != []
    ensures (var keys := Ascending.Order(HistogramOf(readings).Keys);
             keys != [] && keys[|keys| - 1] == Bucket(s[|s| - 1]))
  {
    hide HistogramOf, Bucket, SumTo, Sorted, Num, UpTo;
    var keys := Ascending.Order(HistogramOf(readings).Keys);
    SomewhereIn(readings, s, |s| - 1);
    var at :| 0 <= at < |keys| && keys[at] == Bucket(s[|s| - 1]);
    SameCount(s, readings);
    ReachesRank(readings, s, |s|, at);
    NoKeyPast(readings, at);
  }

  /** A rank past the last reading walks to the last bucket. */
  lemma RankBeyond(readings: seq<nat>, s: seq<nat>, rank: nat)
    requires Sorted(s) && multiset(s) == multiset(readings) && s != [] && rank > |s|
    ensures (var m := HistogramOf(readings);
             var keys := Ascending.Order(m.Keys);
             keys != [] && BucketAtRank(m, keys, 0, rank) == Bucket(s[|s| - 1]))
  {
    hide HistogramOf, Bucket, Num, SumOver, BucketAtRank, Sorted;
    var m := HistogramOf(readings);
    var keys := Ascending.Order(m.Keys);
    LastKey(readings, s);
    SameCount(s, readings);
    forall j | 0 <= j < |keys|
      ensures SumTo(m, keys, j) < rank
    {
      SumUpTo(readings, j);
      NumAtMost(readings, UpTo(keys[j]));
    }
    SumOverNone(m);
    assert keys[0..] == keys && keys[..0] == [];
    WalkStops(m, keys, 0, |keys| - 1, rank);
  }

  /** A percentile is the upper bound of the bucket of the reading at the computed rank, for any readings and any p. */
  lemma PercentileIsTaken(readings: seq<nat>, s: seq<nat>, p: nat)
    requires readings != [] && Sorted(s) && multiset(s) == multiset(readings)
    ensures s != [] && Percentile(HistogramOf(readings), p) == UpperBound(Bucket(Taken(s, p)))
  {
    hide HistogramOf, Bucket, UpperBound, BucketAtRank, Total, PartOf, Ceil;
    SameCount(s, readings);
    TotalIsAll(readings);
    var rank := Rank(p, |s|);
    if rank <= |s| {
      FindsRank(readings, s, rank);
    } else {
      RankBeyond(readings, s, rank);
    }
  }

  /**
   While 3 * p * n is below 2^53, it is the bucket of the exact nearest-rank reading, or of the next one
   exactly when the float part was rounded up past a whole number.
   */
  lemma PercentileIsNearestRank(readings: seq<nat>, s: seq<nat>, p: nat)
    requires readings != [] && Sorted(s) && multiset(s) == multiset(readings)
    requires p <= HIGH && |s| <= HIGH && 3 * (p * |s|) < HIGH
    ensures s != []
    ensures Percentile(HistogramOf(readings), p)
         == UpperBound(Bucket(if RoundedUp(p, |s|) then ReadingAt(s, ExactRank(p, |s|) + 1) else NearestRank(s, p)))
    ensures NearestRank(s, p) <= Taken(s, p)
  {
    hide HistogramOf, Bucket, UpperBound, Percentile, RoundedUp, Rank;
    PercentileIsTaken(readings, s, p);
    RankIs(p, |s|);
  }

  /** The two percentiles the console shows are always those of the exact nearest-rank reading. */
  lemma ConsolePercentiles(readings: seq<nat>, s: seq<nat>, p: nat)
    requires readings != [] && Sorted(s) && multiset(s) == multiset(readings)
    requires (p == 50 || p == 95) && |s| <= HIGH && 3 * (p * |s|) < HIGH
    ensures s != [] && Taken(s, p) == NearestRank(s, p)
    ensures Percentile(HistogramOf(readings), p) == UpperBound(Bucket(NearestRank(s, p)))
  {
    hide HistogramOf, Bucket, UpperBound, Percentile, RoundedUp, Rank, Hundredths;
    PercentileIsTaken(readings, s, p);
    ConsolePercentages();
    NeverRoundedUp(p, |s|);
    RankIs(p, |s|);
  }

  /**
   The reported percentile is at least the reading it stands for exactly when that reading is within the
   buckets' range, and is within one step of a fourth of an octave of it.
   */
  lemma PercentileAccuracy(readings: seq<nat>, s: seq<nat>, p: nat)
    requires readings != [] && Sorted(s) && multiset(s) == multiset(readings)
    ensures s != []
    ensures (var v, reported := Taken(s, p), Percentile(HistogramOf(readings), p);
             && (v <= reported <==> v <= TOP_MS)
             && (v > 0 ==> reported > 0 && Fourth(reported - 1) < 2 * Fourth(v))
             && (v == 0 ==> reported == 0))
  {
    hide HistogramOf, UpperBound, Fourth, Percentile, Taken;
    PercentileIsTaken(readings, s, p);
    BucketAccuracy(Taken(s, p));
    ZeroBound();
  }

  lemma ZeroBound()
    ensures UpperBound(Bucket(0)) == 0
  {
  }

  /** Nothing recorded reads as zero. */
  lemma EmptyPercentile(p: nat)
    ensures Percentile(HistogramOf([]), p) == 0
  {
    TotalIsAll([]);
  }
}
