/** The levelled pick of `router.rs` divides dispatches exactly by weight. */
module Fairness {
  import opened Wrappers
  import opened Bytes
  import opened Router
  import opened KeySelection
  import Breaker

  /** One dispatch to the key furthest behind its share; weights stay. */
  ghost predicate Dispatched(ks: seq<Key>, after: seq<Key>, i: nat)
    requires SoundPool(ks)
  {
    && i < |ks| == |after|
    && (forall j :: 0 <= j < |ks| ==> Share(ks[i]) <= Share(ks[j]))
    && (forall j :: 0 <= j < |ks| ==> after[j].weight == ks[j].weight && after[j].leases == ks[j].leases + if j == i then 1 else 0)
  }

  /** A choice without a session, over a pool in which every key could serve, is such a dispatch. */
  lemma ChoiceDispatches(c: Breaker.Config, ks: seq<Key>, after: seq<Key>, es: seq<nat>, now: nat,
                                            choice: Option<Choice>)
    requires SoundPool(ks) && Positions(ks, es) && ks != [] && Answered(c, ks, after, es, None, now, choice)
    requires forall i :: 0 <= i < |ks| ==> i in es && CanServe(ks[i], now)
    ensures choice.Some? && choice.value.key.Some? && choice.value.admission == Breaker.Yes
    ensures Dispatched(ks, after, choice.value.key.value)
  {
    hide Credit, Headroom, Share;
    assert CanServe(ks[0], now);
  }

  ghost predicate Follows(ks: seq<Key>, after: seq<Key>) {
    SoundPool(ks) && exists i :: Dispatched(ks, after, i)
  }

  /** A run of dispatches from a cold pool: `run[n]` is the pool after `n`. */
  ghost predicate ColdRun(run: seq<seq<Key>>) {
    && run != [] && SoundPool(run[0]) && (forall i :: 0 <= i < |run[0]| ==> run[0][i].leases == 0)
    && forall n :: 0 <= n < |run| - 1 ==> Follows(run[n], run[n + 1])
  }

  function Weight(ks: seq<Key>): real {
    if ks == [] then 0.0 else Weight(ks[..|ks| - 1]) + ks[|ks| - 1].weight
  }

  function Leases(ks: seq<Key>): nat {
    if ks == [] then 0 else Leases(ks[..|ks| - 1]) + ks[|ks| - 1].leases
  }

  lemma {:induction false} SameWeights(ks: seq<Key>, after: seq<Key>)
    requires |ks| == |after| && forall j :: 0 <= j < |ks| ==> after[j].weight == ks[j].weight
    ensures Weight(after) == Weight(ks)
  {
    if ks != [] {
      SameWeights(ks[..|ks| - 1], after[..|ks| - 1]);
    }
  }

  lemma {:induction false} OneMoreLease(ks: seq<Key>, after: seq<Key>, i: nat)
    requires |ks| == |after|
    requires forall j :: 0 <= j < |ks| ==> after[j].leases == ks[j].leases + if j == i then 1 else 0
    ensures Leases(after) == Leases(ks) + if i < |ks| then 1 else 0
  {
    if ks != [] {
      OneMoreLease(ks[..|ks| - 1], after[..|ks| - 1], i);
    }
  }

  lemma {:induction false} NoLeases(ks: seq<Key>)
    requires forall i :: 0 <= i < |ks| ==> ks[i].leases == 0
    ensures Leases(ks) == 0
  {
    if ks != [] {
      NoLeases(ks[..|ks| - 1]);
    }
  }

  /** The key furthest behind has no more than its weight's part of all dispatches. */
  lemma {:induction false} FurthestBehind(ks: seq<Key>, l: nat, w: real)
    requires SoundPool(ks) && w > 0.0
    requires forall j :: 0 <= j < |ks| ==> l as real / w <= Share(ks[j])
    ensures l as real * Weight(ks) <= w * Leases(ks) as real
  {
    if ks != [] {
      var front, k := ks[..|ks| - 1], ks[|ks| - 1];
      FurthestBehind(front, l, w);
      CrossMultiply(l as real, w, k.leases as real, k.weight);
      assert l as real * (Weight(front) + k.weight) == l as real * Weight(front) + l as real * k.weight;
      assert w * (Leases(front) as real + k.leases as real) == w * Leases(front) as real + w * k.leases as real;
    }
  }

  lemma CrossMultiply(a: real, b: real, x: real, y: real)
    requires b > 0.0 && y > 0.0 && a / b <= x / y
    ensures a * y <= b * x
  {
    var p, q := a / b, x / y;
    assert a == p * b && x == q * y;
    assert (q - p) * (b * y) >= 0.0;
    assert b * x - a * y == (q - p) * (b * y);
  }

  /** After `n` dispatches a key that was ever chosen had, before its last one, no more than its part. */
  ghost predicate Fair(ks: seq<Key>, n: nat) {
    forall i :: 0 <= i < |ks| ==> ks[i].leases == 0 || (ks[i].leases - 1) as real * Weight(ks) < ks[i].weight * n as real
  }

  lemma {:induction false} WeightPositive(ks: seq<Key>)
    requires SoundPool(ks)
    ensures Weight(ks) >= 0.0 && (ks != [] ==> Weight(ks) > 0.0)
  {
    if ks != [] {
      WeightPositive(ks[..|ks| - 1]);
    }
  }

  lemma {:induction false} DispatchFair(ks: seq<Key>, after: seq<Key>, i: nat)
    requires SoundPool(ks) && Dispatched(ks, after, i) && Fair(ks, Leases(ks))
    ensures |after| == |ks| && Leases(after) == Leases(ks) + 1 && Weight(after) == Weight(ks) && Fair(after, Leases(after))
  {
    hide Leases, Weight, Share;
    SameWeights(ks, after);
    OneMoreLease(ks, after, i);
    var n := Leases(ks);
    FurthestBehindHere(ks, i);
    forall j | 0 <= j < |after| && after[j].leases != 0
      ensures (after[j].leases - 1) as real * Weight(after) < after[j].weight * (n + 1) as real
    {
      assert ks[j].weight * (n + 1) as real == ks[j].weight * n as real + ks[j].weight;
    }
  }

  lemma {:induction false} FurthestBehindHere(ks: seq<Key>, i: nat)
    requires SoundPool(ks) && i < |ks| && forall j :: 0 <= j < |ks| ==> Share(ks[i]) <= Share(ks[j])
    ensures ks[i].leases as real * Weight(ks) <= ks[i].weight * Leases(ks) as real
  {
    FurthestBehind(ks, ks[i].leases, ks[i].weight);
  }

  lemma {:induction false} RunFair(run: seq<seq<Key>>, n: nat)
    requires ColdRun(run) && n < |run|
    ensures |run[n]| == |run[0]| && Leases(run[n]) == n
    ensures Weight(run[n]) == Weight(run[0]) && Fair(run[n], n)
  {
    hide Leases, Weight, Share, Fair, Dispatched;
    if n == 0 {
      ColdIsFair(run[0]);
    } else {
      RunFair(run, n - 1);
      assert Follows(run[n - 1], run[n - 1 + 1]);
      var i :| Dispatched(run[n - 1], run[n], i);
      DispatchFair(run[n - 1], run[n], i);
    }
  }

  lemma ColdIsFair(ks: seq<Key>)
    requires forall i :: 0 <= i < |ks| ==> ks[i].leases == 0
    ensures Leases(ks) == 0 && Fair(ks, 0)
  {
    NoLeases(ks);
  }

  lemma {:induction false} WeightsStay(run: seq<seq<Key>>, n: nat, i: nat)
    requires ColdRun(run) && n < |run| && i < |run[0]|
    ensures |run[n]| == |run[0]| && run[n][i].weight == run[0][i].weight
  {
    hide Share;
    if n > 0 {
      WeightsStay(run, n - 1, i);
      assert Follows(run[n - 1], run[n - 1 + 1]);
    }
  }

  /** The part of `n` dispatches that is a weight's. */
  function Part(n: nat, weight: real, total: real): real
    requires total > 0.0
  {
    n as real * weight / total
  }

  /**
   From a cold pool in which every key can serve, after n dispatches each key has fewer than
   n * weight / total + 1, however ties are broken.
   */
  lemma LevelledIsFair(run: seq<seq<Key>>, n: nat, i: nat)
    requires ColdRun(run) && n < |run| && i < |run[0]|
    ensures Weight(run[0]) > 0.0 && |run[n]| == |run[0]|
    ensures run[n][i].leases as real < Part(n, run[0][i].weight, Weight(run[0])) + 1.0
  {
    RunFair(run, n);
    WeightsStay(run, n, i);
    WeightPositive(run[0]);
    assert run[0][i].weight > 0.0;
    hide ColdRun, Leases, Part;
    var w, total, l := run[0][i].weight, Weight(run[0]), run[n][i].leases;
    assert l == 0 || (l - 1) as real * total < w * n as real;
    FairQuotient(l, w, n, total);
  }

  lemma FairQuotient(l: nat, w: real, n: nat, total: real)
    requires total > 0.0 && w > 0.0 && (l == 0 || (l - 1) as real * total < w * n as real)
    ensures l as real < Part(n, w, total) + 1.0
  {
    var x := n as real * w;
    var q := x / total;
    assert q * total == x;
    SignOfProduct(q, total);
    var d := q - (l as real - 1.0);
    SignOfProduct(d, total);
    assert d * total == x - (l as real - 1.0) * total;
  }

  lemma SignOfProduct(d: real, total: real)
    requires total > 0.0
    ensures d <= 0.0 ==> d * total <= 0.0
    ensures d < 0.0 ==> d * total < 0.0
  {
  }

  /** A whole number of rounds leaves every key of integer weight with exactly its weight's worth. */
  lemma {:induction false} WholeRoundsAreExact(run: seq<seq<Key>>, ws: seq<nat>, m: nat)
    requires ColdRun(run) && |ws| == |run[0]| > 0
    requires forall i :: 0 <= i < |ws| ==> run[0][i].weight == ws[i] as real
    requires m * Sum(ws) < |run|
    ensures (var ks := run[m * Sum(ws)]; |ks| == |ws| && forall i :: 0 <= i < |ws| ==> ks[i].leases == m * ws[i])
  {
    var n := m * Sum(ws);
    var ks := run[n];
    RunFair(run, n);
    SumIsWeight(ws, run[0]);
    hide Weight, Leases, Sum;
    forall i | 0 <= i < |ws|
      ensures ks[i].leases <= m * ws[i]
    {
      WeightsStay(run, n, i);
      AtMostRound(ks[i].leases, m, ws[i], Sum(ws));
    }
    SumExact(ks, ws, m);
  }

  function Sum(ws: seq<nat>): nat {
    if ws == [] then 0 else Sum(ws[..|ws| - 1]) + ws[|ws| - 1]
  }

  lemma {:induction false} SumIsWeight(ws: seq<nat>, ks: seq<Key>)
    requires |ws| == |ks| && forall i :: 0 <= i < |ws| ==> ks[i].weight == ws[i] as real
    ensures Weight(ks) == Sum(ws) as real
  {
    if ws != [] {
      SumIsWeight(ws[..|ws| - 1], ks[..|ws| - 1]);
    }
  }

  lemma AtMostRound(l: nat, m: nat, w: nat, total: nat)
    requires l == 0 || (l - 1) as real * total as real < w as real * (m * total) as real
    ensures l <= m * w
  {
    var d := l - 1 - m * w;
    var n := m * total;
    assert (w * n) as real == w as real * n as real;
    assert ((l - 1) * total) as real == (l - 1) as real * total as real;
    assert w * n == (m * w) * total;
    assert d * total == (l - 1) * total - (m * w) * total;
    SignOfWhole(d, total);
  }

  lemma SignOfWhole(d: int, total: nat)
    ensures d >= 0 ==> d * total >= 0
  {
  }

  lemma {:induction false} SumExact(ks: seq<Key>, ws: seq<nat>, m: nat)
    requires |ks| == |ws| && (forall i :: 0 <= i < |ws| ==> ks[i].leases <= m * ws[i])
    ensures Leases(ks) <= m * Sum(ws)
    ensures Leases(ks) == m * Sum(ws) ==> forall i :: 0 <= i < |ws| ==> ks[i].leases == m * ws[i]
  {
    if ws != [] {
      var n := |ws| - 1;
      SumExact(ks[..n], ws[..n], m);
      assert m * Sum(ws) == m * Sum(ws[..n]) + m * ws[n];
      if Leases(ks) == m * Sum(ws) {
        assert ks[n].leases == m * ws[n];
        forall i | 0 <= i < |ws|
          ensures ks[i].leases == m * ws[i]
        {
          if i < n { assert ks[..n][i] == ks[i] && ws[..n][i] == ws[i]; }
        }
      }
    }
  }
}
