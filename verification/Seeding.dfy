/** What a reload gives a key that is new to a pool, and the dispatches it takes from there (`router.rs`). */
module Seeding {
  import opened Wrappers
  import opened Bytes
  import opened Router
  import opened Fairness
  import Breaker

  // ----- the reload

  /** The least lease count of a pool; 0 when it is empty. */
  function Floor(ks: seq<Key>): (f: nat)
    ensures forall i :: 0 <= i < |ks| ==> f <= ks[i].leases
    ensures ks != [] ==> exists i :: 0 <= i < |ks| && ks[i].leases == f
  {
    if ks == [] then 0
    else if |ks| == 1 then ks[0].leases
    else
      var f := Floor(ks[1..]);
      assert forall i :: 0 < i < |ks| ==> ks[i] == ks[1..][i - 1];
      if ks[0].leases <= f then ks[0].leases else f
  }

  /** What the key of a name had, if the pool had one. */
  function Carried(ks: seq<Key>, name: bytes): Option<nat> {
    if ks == [] then None
    else if ks[0].name == name then Some(ks[0].leases)
    else Carried(ks[1..], name)
  }

  /** The lease counts of a configured pool after a reload; what else a reload carries is left out. */
  function Reloaded(prev: seq<Key>, keys: seq<Key>): (ks: seq<Key>)
    ensures |ks| == |keys|
    ensures forall i :: 0 <= i < |ks| ==> ks[i] == keys[i].(leases := Carried(prev, keys[i].name).GetOr(Floor(prev)))
  {
    if keys == [] then []
    else Reloaded(prev, keys[..|keys| - 1])
         + [keys[|keys| - 1].(leases := Carried(prev, keys[|keys| - 1].name).GetOr(Floor(prev)))]
  }

  predicate DistinctNames(ks: seq<Key>) {
    forall i, j :: 0 <= i < j < |ks| ==> ks[i].name != ks[j].name
  }

  lemma {:induction false} CarriedAt(ks: seq<Key>, i: nat)
    requires DistinctNames(ks) && i < |ks|
    ensures Carried(ks, ks[i].name) == Some(ks[i].leases)
  {
    if i > 0 {
      CarriedAt(ks[1..], i - 1);
      assert ks[0].name != ks[i].name;
    }
  }

  lemma {:induction false} NotCarried(ks: seq<Key>, name: bytes)
    requires forall i :: 0 <= i < |ks| ==> ks[i].name != name
    ensures Carried(ks, name) == None
  {
    if ks != [] { NotCarried(ks[1..], name); }
  }

  /** A provider that was not there before, or had no keys, starts cold. */
  lemma FreshPoolIsCold(keys: seq<Key>)
    ensures forall i :: 0 <= i < |keys| ==> Reloaded([], keys)[i] == keys[i].(leases := 0)
  {
    assert Carried([], []) == None;
  }

  /** Adding one key to a pool keeps every lease count and starts the key at the least of them. */
  lemma AddsAtFloor(prev: seq<Key>, key: Key)
    requires DistinctNames(prev + [key])
    ensures Reloaded(prev, prev + [key]) == prev + [key.(leases := Floor(prev))]
  {
    var all := prev + [key];
    var ks := Reloaded(prev, all);
    forall i | 0 <= i < |prev|
      ensures prev[i].name != key.name
      ensures ks[i] == prev[i]
    {
      assert all[i].name != all[|prev|].name;
      assert forall a, b :: 0 <= a < b < |prev| ==> all[a].name != all[b].name;
      CarriedAt(prev, i);
    }
    NotCarried(prev, key.name);
  }

  // ----- the dispatches after it

  /** Dispatches from `ks` on: `run[n]` is the pool after `n`. */
  ghost predicate RunFrom(run: seq<seq<Key>>, ks: seq<Key>) {
    && run != [] && run[0] == ks && SoundPool(ks)
    && forall n :: 0 <= n < |run| - 1 ==> Follows(run[n], run[n + 1])
  }

  /** The weights of `ks`, and its lease counts but for `n` more at `i`. */
  predicate SameBut(after: seq<Key>, ks: seq<Key>, i: nat, n: nat) {
    && |after| == |ks|
    && forall j :: 0 <= j < |ks| ==> after[j].weight == ks[j].weight
                                     && after[j].leases == ks[j].leases + if j == i then n else 0
  }

  /** However ties are broken, each of the next `n` dispatches goes to the key at `i`. */
  ghost predicate TakesNext(ks: seq<Key>, i: nat, n: nat)
    requires i < |ks|
  {
    forall run :: RunFrom(run, ks) && |run| <= n + 1 ==> SameBut(run[|run| - 1], ks, i, |run| - 1)
  }

  /** The pool after `n` dispatches to the key at `i`. */
  function Led(ks: seq<Key>, i: nat, n: nat): seq<Key>
    requires i < |ks|
  {
    ks[i := ks[i].(leases := ks[i].leases + n)]
  }

  function ShareAt(count: nat, weight: real): real
    requires weight > 0.0
  {
    count as real / weight
  }

  /** After `n` dispatches to it the key at `i` is still behind every other. */
  ghost predicate BehindAfter(ks: seq<Key>, i: nat, n: nat)
    requires SoundPool(ks) && i < |ks|
  {
    forall j :: 0 <= j < |ks| && j != i ==> ShareAt(ks[i].leases + n, ks[i].weight) < Share(ks[j])
  }

  /** Some key is furthest behind. */
  lemma {:induction false} Furthest(ks: seq<Key>) returns (i: nat)
    requires SoundPool(ks) && ks != []
    ensures i < |ks| && forall j :: 0 <= j < |ks| ==> Share(ks[i]) <= Share(ks[j])
  {
    hide Share;
    i := 0;
    if |ks| > 1 {
      var front := ks[..|ks| - 1];
      assert forall j :: 0 <= j < |front| ==> Sound(front[j]) && front[j] == ks[j];
      i := Furthest(front);
      if Share(ks[|ks| - 1]) < Share(ks[i]) { i := |ks| - 1; }
    }
  }

  lemma LedIs(ks: seq<Key>, i: nat, n: nat)
    requires SoundPool(ks) && i < |ks|
    ensures SoundPool(Led(ks, i, n)) && SameBut(Led(ks, i, n), ks, i, n)
    ensures Share(Led(ks, i, n)[i]) == ShareAt(ks[i].leases + n, ks[i].weight)
    ensures forall j :: 0 <= j < |ks| && j != i ==> Share(Led(ks, i, n)[j]) == Share(ks[j])
  {
  }

  lemma FewerBehind(ks: seq<Key>, i: nat, m: nat, n: nat)
    requires SoundPool(ks) && i < |ks| && m <= n && BehindAfter(ks, i, n)
    ensures BehindAfter(ks, i, m)
  {
    Quotients((ks[i].leases + m) as real, (ks[i].leases + n) as real, ks[i].weight);
  }

  lemma Quotients(a: real, b: real, w: real)
    requires w > 0.0
    ensures a <= b <==> a / w <= b / w
    ensures a < b <==> a / w < b / w
  {
    var p, q := a / w, b / w;
    assert a == p * w && b == q * w;
    SignOfProduct(q - p, w);
    SignOfProduct(p - q, w);
    assert (q - p) * w == b - a && (p - q) * w == a - b;
  }

  /** While it is behind every other, the dispatches go to the key at `i`. */
  lemma {:induction false} RunLeads(run: seq<seq<Key>>, ks: seq<Key>, i: nat, n: nat)
    requires RunFrom(run, ks) && i < |ks| && n < |run|
    requires n > 0 ==> BehindAfter(ks, i, n - 1)
    ensures SameBut(run[n], ks, i, n)
  {
    hide Share, Dispatched;
    if n > 0 {
      if n > 1 { FewerBehind(ks, i, n - 2, n - 1); }
      RunLeads(run, ks, i, n - 1);
      assert Follows(run[n - 1], run[n - 1 + 1]);
      var k :| Dispatched(run[n - 1], run[n], k);
      GoesToBehind(run[n - 1], run[n], k, ks, i, n - 1);
    }
  }

  lemma GoesToBehind(before: seq<Key>, after: seq<Key>, k: nat, ks: seq<Key>, i: nat, n: nat)
    requires SoundPool(before) && SoundPool(ks) && i < |ks|
    requires SameBut(before, ks, i, n) && BehindAfter(ks, i, n) && Dispatched(before, after, k)
    ensures k == i && SameBut(after, ks, i, n + 1)
  {
    assert Share(before[i]) == ShareAt(ks[i].leases + n, ks[i].weight);
    forall j | 0 <= j < |ks| && j != i
      ensures Share(before[i]) < Share(before[j])
    {
      assert Share(before[j]) == Share(ks[j]);
    }
  }

  /** A dispatch to a key that none is further behind than. */
  function Given(ks: seq<Key>, k: nat): seq<Key>
    requires k < |ks|
  {
    Led(ks, k, 1)
  }

  lemma GivenFollows(ks: seq<Key>, k: nat)
    requires SoundPool(ks) && k < |ks| && forall j :: 0 <= j < |ks| ==> Share(ks[k]) <= Share(ks[j])
    ensures Follows(ks, Given(ks, k)) && SoundPool(Given(ks, k))
  {
    assert Dispatched(ks, Given(ks, k), k);
  }

  lemma LedFollows(ks: seq<Key>, i: nat, n: nat)
    requires SoundPool(ks) && i < |ks| && BehindAfter(ks, i, n)
    ensures Follows(Led(ks, i, n), Led(ks, i, n + 1))
  {
    hide Share;
    LedIs(ks, i, n);
    assert Given(Led(ks, i, n), i) == Led(ks, i, n + 1);
    GivenFollows(Led(ks, i, n), i);
  }

  /** Once another key is as far behind, a dispatch may go to another. */
  lemma MayGoElsewhere(ks: seq<Key>, i: nat, n: nat) returns (k: nat)
    requires SoundPool(ks) && i < |ks| && !BehindAfter(ks, i, n)
    ensures k < |ks| && k != i && Follows(Led(ks, i, n), Given(Led(ks, i, n), k))
  {
    hide Share;
    LedIs(ks, i, n);
    k := Furthest(Led(ks, i, n));
    if k == i {
      k :| 0 <= k < |ks| && k != i && Share(ks[k]) <= ShareAt(ks[i].leases + n, ks[i].weight);
    }
    GivenFollows(Led(ks, i, n), k);
  }

  lemma {:induction false} MayStop(ks: seq<Key>, i: nat, n: nat)
    requires SoundPool(ks) && i < |ks| && !BehindAfter(ks, i, n)
    ensures !TakesNext(ks, i, n + 1)
    decreases n
  {
    hide Share, BehindAfter, Follows;
    if n > 0 && !BehindAfter(ks, i, n - 1) {
      MayStop(ks, i, n - 1);
    } else {
      var k := MayGoElsewhere(ks, i, n);
      var led := seq(n + 1, t requires 0 <= t => Led(ks, i, t));
      var run := led + [Given(Led(ks, i, n), k)];
      assert led[0] == ks;
      forall t | 0 <= t < |run| - 1
        ensures Follows(run[t], run[t + 1])
      {
        if t < n {
          FewerBehind(ks, i, t, n - 1);
          LedFollows(ks, i, t);
        }
      }
      assert RunFrom(run, ks);
      assert run[|run| - 1][i].leases == ks[i].leases + n;
      assert !SameBut(run[|run| - 1], ks, i, |run| - 1);
    }
  }

  /** The next `n` dispatches all go to one key exactly when it is still behind every other after `n - 1` of them. */
  lemma TakesNextIff(ks: seq<Key>, i: nat, n: nat)
    requires SoundPool(ks) && i < |ks| && n > 0
    ensures TakesNext(ks, i, n) <==> BehindAfter(ks, i, n - 1)
  {
    hide BehindAfter, Follows;
    if BehindAfter(ks, i, n - 1) {
      forall run | RunFrom(run, ks) && |run| <= n + 1
        ensures SameBut(run[|run| - 1], ks, i, |run| - 1)
      {
        if |run| > 1 { FewerBehind(ks, i, |run| - 2, n - 1); }
        RunLeads(run, ks, i, |run| - 1);
      }
    } else {
      MayStop(ks, i, n - 1);
    }
  }

  // ----- a new key

  /** The pool once a key has been added. */
  function WithNew(prev: seq<Key>, key: Key): seq<Key> {
    prev + [key.(leases := Floor(prev))]
  }

  /** `count` leases at weight `w` are a smaller share than those of `k`. */
  predicate Under(count: nat, w: real, k: Key) {
    count as real * k.weight < k.leases as real * w
  }

  lemma UnderIs(count: nat, w: real, k: Key)
    requires w > 0.0 && k.weight > 0.0
    ensures Under(count, w, k) <==> ShareAt(count, w) < Share(k)
  {
    CrossLess(count as real, w, k.leases as real, k.weight);
  }

  lemma BehindIs(prev: seq<Key>, key: Key, n: nat)
    requires SoundPool(prev) && Sound(key)
    ensures SoundPool(WithNew(prev, key))
    ensures BehindAfter(WithNew(prev, key), |prev|, n)
       <==> forall j :: 0 <= j < |prev| ==> Under(Floor(prev) + n, key.weight, prev[j])
  {
    hide Under, Share, ShareAt, Floor;
    var ks := WithNew(prev, key);
    forall j | 0 <= j < |prev|
      ensures Under(Floor(prev) + n, key.weight, prev[j]) <==> ShareAt(Floor(prev) + n, key.weight) < Share(ks[j])
    {
      assert ks[j] == prev[j];
      UnderIs(Floor(prev) + n, key.weight, prev[j]);
    }
    assert ks[|prev|].leases == Floor(prev) && ks[|prev|].weight == key.weight;
  }

  lemma CrossLess(a: real, b: real, x: real, y: real)
    requires b > 0.0 && y > 0.0
    ensures a / b < x / y <==> a * y < x * b
  {
    var p, q := a / b, x / y;
    assert a == p * b && x == q * y;
    var d := q - p;
    assert d * (b * y) == x * b - a * y;
    SignOfProduct(d, b * y);
    SignOfProduct(-d, b * y);
    assert (-d) * (b * y) == -(d * (b * y));
  }

  /**
   A key added by a reload starts at the least lease count, not at the least share. It takes each of the
   next `n` dispatches exactly when that count and `n - 1` more, per weight, stay under every other share.
   */
  lemma NewKeyTakesIff(prev: seq<Key>, key: Key, n: nat)
    requires SoundPool(prev) && Sound(key) && DistinctNames(prev + [key]) && n > 0
    ensures (var ks := Reloaded(prev, prev + [key]);
             && |ks| == |prev| + 1
             && (TakesNext(ks, |prev|, n) <==>
                 forall j :: 0 <= j < |prev| ==> Under(Floor(prev) + n - 1, key.weight, prev[j])))
  {
    hide Under, BehindAfter, TakesNext, WithNew, Floor, DistinctNames, Reloaded;
    AddsAtFloor(prev, key);
    BehindIs(prev, key, n - 1);
    WithNewSize(prev, key);
    TakesNextIff(WithNew(prev, key), |prev|, n);
  }

  lemma WithNewSize(prev: seq<Key>, key: Key)
    ensures |WithNew(prev, key)| == |prev| + 1 && WithNew(prev, key) == prev + [key.(leases := Floor(prev))]
    ensures WithNew(prev, key)[|prev|] == key.(leases := Floor(prev))
  {
  }

  /** In a pool of one weight the new key's share is the least one exactly when it has that weight or nothing was dispatched to some key. */
  lemma SeedIsLevelIff(prev: seq<Key>, key: Key, w: real)
    requires prev != [] && SoundPool(prev) && Sound(key) && DistinctNames(prev + [key])
    requires forall j :: 0 <= j < |prev| ==> prev[j].weight == w
    ensures (var ks := Reloaded(prev, prev + [key]);
             && |ks| == |prev| + 1
             && (Share(ks[|prev|]) == Floor(prev) as real / w <==> key.weight == w || Floor(prev) == 0)
             && (Share(ks[|prev|]) < Floor(prev) as real / w <==> key.weight > w && Floor(prev) > 0))
    ensures (forall j :: 0 <= j < |prev| ==> Floor(prev) as real / w <= Share(prev[j]))
    ensures exists j :: 0 <= j < |prev| && Share(prev[j]) == Floor(prev) as real / w
  {
    hide Share, Floor;
    AddsAtFloor(prev, key);
    WithNewSize(prev, key);
    var f := Floor(prev);
    SharesOf(f, key.weight, w);
    ShareIs(key.(leases := f));
    forall j | 0 <= j < |prev|
      ensures f as real / w <= Share(prev[j])
      ensures prev[j].leases == f ==> Share(prev[j]) == f as real / w
    {
      ShareIs(prev[j]);
      Quotients(f as real, prev[j].leases as real, w);
    }
  }

  lemma ShareIs(k: Key)
    requires k.weight > 0.0
    ensures Share(k) == k.leases as real / k.weight
  {
  }

  /** One count at two weights is one share only for equal weights or no count. */
  lemma SharesOf(f: nat, v: real, w: real)
    requires v > 0.0 && w > 0.0
    ensures f as real / v == f as real / w <==> v == w || f == 0
    ensures f as real / v < f as real / w <==> v > w && f > 0
  {
    CrossLess(f as real, v, f as real, w);
    CrossLess(f as real, w, f as real, v);
    ScaledLess(f, w, v);
    ScaledLess(f, v, w);
  }

  lemma ScaledLess(f: nat, v: real, w: real)
    ensures f as real * v < f as real * w <==> v < w && f > 0
  {
    if f > 0 {
      SignOfProduct(v - w, f as real);
      SignOfProduct(w - v, f as real);
    }
  }

  lemma ThousandAt(k: Key)
    requires k.weight == 1.0 && k.leases == 1000
    ensures Under(9999, 10.0, k) && !Under(10000, 10.0, k)
  {
  }

  /** A key of weight 10 joining keys of weight 1 that have served 1000 each takes the next 9000 dispatches alone. */
  lemma TenfoldKey(prev: seq<Key>, key: Key)
    requires prev != [] && SoundPool(prev) && Sound(key) && DistinctNames(prev + [key]) && key.weight == 10.0
    requires forall j :: 0 <= j < |prev| ==> prev[j].weight == 1.0 && prev[j].leases == 1000
    ensures (var ks := Reloaded(prev, prev + [key]);
             |ks| == |prev| + 1 && TakesNext(ks, |prev|, 9000) && !TakesNext(ks, |prev|, 9001))
  {
    hide TakesNext, Reloaded, DistinctNames, Floor, Under;
    NewKeyTakesIff(prev, key, 9000);
    NewKeyTakesIff(prev, key, 9001);
    assert Floor(prev) == 1000;
    forall j | 0 <= j < |prev|
      ensures Under(9999, 10.0, prev[j]) && !Under(10000, 10.0, prev[j])
    {
      ThousandAt(prev[j]);
    }
  }
}
