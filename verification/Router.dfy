/**
 Key selection of `router.rs`: which key of a provider's pool a request goes to, at one instant. A key is
 a record of the pool, known by its position; its breaker and buckets follow their own specifications.
 */
module Router {
  import opened Wrappers
  import opened Bytes
  import Breaker
  import TokenBucket

  type Bucket = TokenBucket.Bucket

  /** `free` counts the in-flight slots not taken, when the key has a ceiling. */
  datatype Key = Key(name: bytes, weight: real, models: Option<set<bytes>>, tenant: Option<bytes>,
                     breaker: Breaker.State, rpm: Option<Bucket>, tpm: Option<Bucket>, free: Option<nat>, leases: nat)

  datatype Choice = Choice(key: Option<nat>, admission: Breaker.Admission)

  predicate SoundBucket(o: Option<Bucket>) {
    o.Some? ==> o.value.available <= o.value.capacity
  }

  /** What configuration guarantees of a key: a positive weight (`config/validate.rs`, line 559), no overfull bucket. */
  predicate Sound(k: Key) {
    k.weight > 0.0 && SoundBucket(k.rpm) && SoundBucket(k.tpm)
  }

  predicate SoundPool(ks: seq<Key>) {
    forall i :: 0 <= i < |ks| ==> Sound(ks[i])
  }

  // ----- one key's ceilings

  function Credit(o: Option<Bucket>, now: nat): Option<Bucket> {
    match o
    case None => None
    case Some(b) => Some(TokenBucket.Credited(b, now))
  }

  /** A whole token is left once elapsed time is credited. */
  predicate TokenLeft(o: Option<Bucket>, now: nat) {
    o.Some? ==> TokenBucket.Tokens(TokenBucket.Credited(o.value, now)) > 0
  }

  function SpendOne(o: Option<Bucket>, now: nat): Option<Bucket>
    requires TokenLeft(o, now)
  {
    match o
    case None => None
    case Some(b) =>
      var b1 := TokenBucket.Credited(b, now);
      Some(b1.(available := b1.available - 1000))
  }

  predicate SlotFree(k: Key) {
    k.free.Some? ==> k.free.value > 0
  }

  function TakeSlot(k: Key): Key
    requires SlotFree(k)
  {
    if k.free.None? then k else k.(free := Some(k.free.value - 1))
  }

  predicate Headroom(k: Key, now: nat) {
    SlotFree(k) && TokenLeft(k.rpm, now) && TokenLeft(k.tpm, now)
  }

  /** Nothing has happened to a key but the crediting of elapsed time. */
  predicate Idle(before: Key, after: Key, now: nat) {
    && after == before.(rpm := after.rpm, tpm := after.tpm)
    && (after.rpm == before.rpm || after.rpm == Credit(before.rpm, now))
    && (after.tpm == before.tpm || after.tpm == Credit(before.tpm, now))
  }

  lemma CreditIdempotent(o: Option<Bucket>, now: nat)
    requires SoundBucket(o)
    ensures Credit(Credit(o, now), now) == Credit(o, now) && SoundBucket(Credit(o, now))
    ensures TokenLeft(Credit(o, now), now) <==> TokenLeft(o, now)
  {
    if o.Some? {
      TokenBucket.CreditTwice(o.value, now, now);
      TokenBucket.CreditBound(o.value, now);
    }
  }

  /** Time credited at one instant changes nobody's headroom at that instant. */
  lemma IdleKeepsHeadroom(before: Key, after: Key, now: nat)
    requires Sound(before) && Idle(before, after, now)
    ensures Sound(after) && (Headroom(after, now) <==> Headroom(before, now))
    ensures forall later :: Idle(after, later, now) ==> Idle(before, later, now)
  {
    hide Credit, TokenLeft;
    CreditIdempotent(before.rpm, now);
    CreditIdempotent(before.tpm, now);
  }

  // ----- shares

  /** Dispatches per unit of weight. */
  function Share(k: Key): real
    requires k.weight > 0.0
  {
    k.leases as real / k.weight
  }

  // ----- lists of positions

  predicate NoDup(s: seq<nat>) {
    forall i, j :: 0 <= i < j < |s| ==> s[i] != s[j]
  }

  predicate Positions(ks: seq<Key>, s: seq<nat>) {
    forall k :: 0 <= k < |s| ==> s[k] < |ks|
  }

  function Keep(s: seq<nat>, p: nat -> bool): (r: seq<nat>)
    ensures forall x :: x in r <==> x in s && p(x)
    ensures NoDup(s) ==> NoDup(r)
    ensures |r| <= |s| && (|r| == |s| ==> r == s)
  {
    if s == [] then []
    else
      var front, last := s[..|s| - 1], s[|s| - 1];
      assert s == front + [last];
      var rest := Keep(front, p);
      if p(last) then rest + [last] else rest
  }

  function UpTo(n: nat): (r: seq<nat>)
    ensures |r| == n && (forall i :: 0 <= i < n ==> r[i] == i) && NoDup(r)
    ensures forall x: nat :: x in r <==> x < n
  {
    if n == 0 then [] else UpTo(n - 1) + [n - 1]
  }

  predicate Serves(k: Key, model: Option<bytes>) {
    model.Some? && k.models.Some? ==> model.value in k.models.value
  }

  /** An account is spent only by the service it is labelled for, unless the pool has no labels. */
  predicate OwnedBy(managed: bool, k: Key, tenant: Option<bytes>) {
    managed ==> k.tenant.Some? && tenant.Some? && k.tenant.value == tenant.value
  }

  /** The keys that serve `model` and are the caller's to spend. */
  function Eligible(managed: bool, ks: seq<Key>, model: Option<bytes>, tenant: Option<bytes>): (r: seq<nat>)
    ensures NoDup(r) && Positions(ks, r)
    ensures forall i: nat :: i in r <==> i < |ks| && Serves(ks[i], model) && OwnedBy(managed, ks[i], tenant)
  {
    var r := Keep(UpTo(|ks|), (i: nat) => i < |ks| && Serves(ks[i], model) && OwnedBy(managed, ks[i], tenant));
    assert forall k :: 0 <= k < |r| ==> r[k] in r;
    r
  }

  function Healthy(ks: seq<Key>, es: seq<nat>, now: nat): (r: seq<nat>)
    ensures NoDup(es) ==> NoDup(r)
    ensures forall i: nat :: i in r <==> i in es && i < |ks| && Breaker.LooksHealthy(ks[i].breaker, now)
  {
    Keep(es, (i: nat) => i < |ks| && Breaker.LooksHealthy(ks[i].breaker, now))
  }

  function Without(s: seq<nat>, x: nat): (r: seq<nat>)
    ensures NoDup(s) ==> NoDup(r)
    ensures forall y :: y in r <==> y in s && y != x
    ensures x in s ==> |r| < |s|
  {
    Keep(s, (y: nat) => y != x)
  }

  /** The last of the highest-scoring names, as `max_by_key` picks. */
  function PinnedSeat(ks: seq<Key>, these: seq<nat>, score: bytes -> nat): (r: nat)
    requires these != [] && Positions(ks, these)
    ensures r in these && r < |ks|
    ensures forall k :: 0 <= k < |these| ==> score(ks[these[k]].name) <= score(ks[r].name)
  {
    var last := these[|these| - 1];
    if |these| == 1 then last
    else
      var best := PinnedSeat(ks, these[..|these| - 1], score);
      if score(ks[last].name) >= score(ks[best].name) then last else best
  }

  /** A seat leaving moves only the sessions that were on it. */
  lemma {:induction false} OthersStayPinned(ks: seq<Key>, these: seq<nat>, score: bytes -> nat, gone: nat)
    requires these != [] && NoDup(these) && Positions(ks, these)
    requires gone != PinnedSeat(ks, these, score)
    ensures Without(these, gone) != [] && Positions(ks, Without(these, gone))
    ensures PinnedSeat(ks, Without(these, gone), score) == PinnedSeat(ks, these, score)
  {
    hide Without, NoDup, PinnedSeat;
    WithoutPositions(ks, these, gone);
    WithoutMembers(these, gone);
    var front, last := these[..|these| - 1], these[|these| - 1];
    assert these == front + [last];
    assert [] + [last] == [last];
    PinnedSnoc(ks, front, last, score);
    WithoutSnoc(front, last, gone);
    if front != [] {
      NoDupFront(front, last);
      WithoutPositions(ks, front, gone);
      WithoutMembers(front, gone);
      var rest := Without(front, gone);
      PinnedSnoc(ks, rest, last, score);
      assert rest + [] == rest;
      if last == gone {
        WithoutNothing(front, gone);
      } else if gone != PinnedSeat(ks, front, score) {
        OthersStayPinned(ks, front, score, gone);
      } else if rest != [] {
        BestIsNoBetter(ks, front, rest, score);
      }
    }
  }

  lemma PinnedSnoc(ks: seq<Key>, front: seq<nat>, last: nat, score: bytes -> nat)
    requires Positions(ks, front) && last < |ks|
    ensures Positions(ks, front + [last])
    ensures PinnedSeat(ks, front + [last], score)
         == if front == [] || score(ks[last].name) >= score(ks[PinnedSeat(ks, front, score)].name) then last
            else PinnedSeat(ks, front, score)
  {
    assert (front + [last])[..|front|] == front;
  }

  lemma WithoutMembers(s: seq<nat>, x: nat)
    ensures forall y :: y in Without(s, x) <==> y in s && y != x
    ensures Without([], x) == []
  {
  }

  lemma BestIsNoBetter(ks: seq<Key>, all: seq<nat>, some: seq<nat>, score: bytes -> nat)
    requires all != [] && some != [] && Positions(ks, all) && Positions(ks, some) && forall j :: j in some ==> j in all
    ensures score(ks[PinnedSeat(ks, some, score)].name) <= score(ks[PinnedSeat(ks, all, score)].name)
  {
    var best := PinnedSeat(ks, some, score);
    var k :| 0 <= k < |all| && all[k] == best;
  }

  lemma WithoutPositions(ks: seq<Key>, s: seq<nat>, x: nat)
    requires Positions(ks, s)
    ensures Positions(ks, Without(s, x))
  {
    var r := Without(s, x);
    forall k | 0 <= k < |r|
      ensures r[k] < |ks|
    {
      assert r[k] in s;
    }
  }

  lemma WithoutSnoc(front: seq<nat>, last: nat, x: nat)
    ensures Without(front + [last], x) == Without(front, x) + if last == x then [] else [last]
  {
    assert (front + [last])[..|front|] == front;
  }

  lemma {:induction false} WithoutNothing(s: seq<nat>, x: nat)
    requires x !in s
    ensures Without(s, x) == s
  {
    if s != [] {
      var front, last := s[..|s| - 1], s[|s| - 1];
      assert s == front + [last];
      WithoutNothing(front, x);
      WithoutSnoc(front, last, x);
    }
  }

  predicate ByShare(ks: seq<Key>, s: seq<nat>)
    requires SoundPool(ks) && Positions(ks, s)
  {
    forall a, b :: 0 <= a < b < |s| ==> Share(ks[s[a]]) <= Share(ks[s[b]])
  }

  /** Put a position in its place by share, after any that equal it. */
  function Insert(ks: seq<Key>, sorted: seq<nat>, i: nat): (r: seq<nat>)
    requires SoundPool(ks) && Positions(ks, sorted) && i < |ks|
    ensures Positions(ks, r)
  {
    if sorted == [] then [i]
    else
      var front, last := sorted[..|sorted| - 1], sorted[|sorted| - 1];
      if Share(ks[i]) >= Share(ks[last]) then sorted + [i] else Insert(ks, front, i) + [last]
  }

  /** Positions by share, least first; equal shares keep their order. */
  function SortByShare(ks: seq<Key>, these: seq<nat>): (r: seq<nat>)
    requires SoundPool(ks) && Positions(ks, these)
    ensures Positions(ks, r)
  {
    if these == [] then []
    else Insert(ks, SortByShare(ks, these[..|these| - 1]), these[|these| - 1])
  }

  lemma Snoc(s: seq<nat>, x: nat)
    ensures forall j :: j in s + [x] <==> j in s || j == x
    ensures NoDup(s) && x !in s ==> NoDup(s + [x])
    ensures s != [] ==> s == s[..|s| - 1] + [s[|s| - 1]]
  {
  }

  lemma NoDupFront(front: seq<nat>, x: nat)
    requires NoDup(front + [x])
    ensures NoDup(front) && x !in front
  {
    var s := front + [x];
    assert forall i :: 0 <= i < |front| ==> s[i] == front[i] && s[|front|] == x;
  }

  lemma SnocByShare(ks: seq<Key>, s: seq<nat>, x: nat)
    requires SoundPool(ks) && Positions(ks, s) && x < |ks|
    ensures ByShare(ks, s + [x]) <==> ByShare(ks, s) && forall j :: j in s ==> j < |ks| && Share(ks[j]) <= Share(ks[x])
  {
    hide Share;
    var t := s + [x];
    assert forall i :: 0 <= i < |s| ==> t[i] == s[i];
    if ByShare(ks, t) {
      forall j | j in s
        ensures j < |ks| && Share(ks[j]) <= Share(ks[x])
      {
        var k :| 0 <= k < |s| && s[k] == j;
        assert t[k] == j && t[|s|] == x;
      }
      forall a, b | 0 <= a < b < |s|
        ensures Share(ks[s[a]]) <= Share(ks[s[b]])
      {
        assert t[a] == s[a] && t[b] == s[b];
      }
    }
  }

  lemma {:induction false} InsertSorts(ks: seq<Key>, sorted: seq<nat>, i: nat)
    requires SoundPool(ks) && Positions(ks, sorted) && i < |ks| && NoDup(sorted) && i !in sorted && ByShare(ks, sorted)
    ensures (var r := Insert(ks, sorted, i);
             NoDup(r) && (forall j :: j in r <==> j in sorted || j == i) && ByShare(ks, r))
  {
    hide Share, ByShare, NoDup;
    if sorted == [] {
      Snoc([], i);
      NothingByShare(ks);
      SnocByShare(ks, [], i);
      assert [] + [i] == [i];
    } else if Share(ks[i]) >= Share(ks[sorted[|sorted| - 1]]) {
      InsertLast(ks, sorted, i);
    } else {
      var front, last := sorted[..|sorted| - 1], sorted[|sorted| - 1];
      Split(ks, sorted);
      InsertSorts(ks, front, i);
      SnocByShare(ks, Insert(ks, front, i), last);
      Snoc(Insert(ks, front, i), last);
    }
  }

  /** A sorted list, its last position taken off. */
  lemma Split(ks: seq<Key>, s: seq<nat>)
    requires SoundPool(ks) && Positions(ks, s) && s != [] && NoDup(s) && ByShare(ks, s)
    ensures (var front, last := s[..|s| - 1], s[|s| - 1];
             && Positions(ks, front) && NoDup(front) && ByShare(ks, front) && last < |ks| && last !in front
             && (forall j :: j in s <==> j in front || j == last)
             && (forall j :: j in front ==> j < |ks| && Share(ks[j]) <= Share(ks[last])))
  {
    hide Share, ByShare, NoDup;
    var front, last := s[..|s| - 1], s[|s| - 1];
    assert s == front + [last];
    SplitSnoc(ks, front, last);
  }

  lemma SplitSnoc(ks: seq<Key>, front: seq<nat>, last: nat)
    requires SoundPool(ks) && Positions(ks, front + [last]) && NoDup(front + [last]) && ByShare(ks, front + [last])
    ensures Positions(ks, front) && NoDup(front) && ByShare(ks, front) && last < |ks| && last !in front
    ensures forall j :: j in front + [last] <==> j in front || j == last
    ensures forall j :: j in front ==> j < |ks| && Share(ks[j]) <= Share(ks[last])
  {
    hide Share, ByShare, NoDup;
    PositionsFront(ks, front, last);
    NoDupFront(front, last);
    Snoc(front, last);
    SnocByShare(ks, front, last);
  }

  lemma PositionsFront(ks: seq<Key>, front: seq<nat>, last: nat)
    requires Positions(ks, front + [last])
    ensures Positions(ks, front) && last < |ks|
  {
    var s := front + [last];
    assert forall k :: 0 <= k < |front| ==> s[k] == front[k];
    assert s[|front|] == last;
  }

  lemma InsertLast(ks: seq<Key>, sorted: seq<nat>, i: nat)
    requires SoundPool(ks) && Positions(ks, sorted) && i < |ks| && NoDup(sorted) && i !in sorted && ByShare(ks, sorted)
    requires sorted != [] && Share(ks[i]) >= Share(ks[sorted[|sorted| - 1]])
    ensures Positions(ks, sorted + [i])
    ensures NoDup(sorted + [i]) && (forall j :: j in sorted + [i] <==> j in sorted || j == i) && ByShare(ks, sorted + [i])
  {
    hide Share, ByShare, NoDup;
    Split(ks, sorted);
    Snoc(sorted, i);
    SnocByShare(ks, sorted, i);
  }

  lemma NothingByShare(ks: seq<Key>)
    requires SoundPool(ks)
    ensures ByShare(ks, []) && NoDup([])
  {
  }

  /** Sorting looks at shares alone. */
  lemma {:induction false} SameSort(ks: seq<Key>, cur: seq<Key>, these: seq<nat>)
    requires SoundPool(ks) && SoundPool(cur) && |cur| == |ks| && Positions(ks, these)
    requires forall i :: 0 <= i < |ks| ==> Share(cur[i]) == Share(ks[i])
    ensures SortByShare(cur, these) == SortByShare(ks, these)
  {
    hide Share, Insert;
    if these != [] {
      SameSort(ks, cur, these[..|these| - 1]);
      SameInsert(ks, cur, SortByShare(ks, these[..|these| - 1]), these[|these| - 1]);
    }
  }

  lemma {:induction false} SameInsert(ks: seq<Key>, cur: seq<Key>, sorted: seq<nat>, i: nat)
    requires SoundPool(ks) && SoundPool(cur) && |cur| == |ks| && Positions(ks, sorted) && i < |ks|
    requires forall i :: 0 <= i < |ks| ==> Share(cur[i]) == Share(ks[i])
    ensures Insert(cur, sorted, i) == Insert(ks, sorted, i)
  {
    hide Share;
    if sorted != [] {
      SameInsert(ks, cur, sorted[..|sorted| - 1], i);
    }
  }

  /** The positions of a list before `i`. */
  function BeforeIn(s: seq<nat>, i: nat): seq<nat> {
    if s == [] || s[0] == i then [] else [s[0]] + BeforeIn(s[1..], i)
  }

  lemma {:induction false} BeforeAt(s: seq<nat>, n: nat)
    requires NoDup(s) && n < |s|
    ensures BeforeIn(s, s[n]) == s[..n]
  {
    if n > 0 {
      assert s[0] != s[n] && s[1..][n - 1] == s[n];
      assert forall i, j :: 0 <= i < j < |s[1..]| ==> s[1..][i] == s[i + 1] && s[1..][j] == s[j + 1];
      BeforeAt(s[1..], n - 1);
      assert [s[0]] + s[1..][..n - 1] == s[..n];
    }
  }

  /** In a list by share, what stands before a position has no greater share, and what has a lesser one stands before. */
  lemma {:induction false} BeforeByShare(ks: seq<Key>, s: seq<nat>, i: nat)
    requires SoundPool(ks) && Positions(ks, s) && NoDup(s) && ByShare(ks, s) && i in s
    ensures i < |ks|
    ensures forall j :: j in BeforeIn(s, i) ==> j < |ks| && j in s && j != i && Share(ks[j]) <= Share(ks[i])
    ensures forall j :: j in s && j < |ks| && Share(ks[j]) < Share(ks[i]) ==> j in BeforeIn(s, i)
  {
    hide Share, BeforeIn;
    var n :| 0 <= n < |s| && s[n] == i;
    BeforeAt(s, n);
    forall j | j in s[..n]
      ensures j < |ks| && j in s && j != i && Share(ks[j]) <= Share(ks[i])
    {
      var m :| 0 <= m < n && s[m] == j;
    }
    forall j | j in s && j < |ks| && Share(ks[j]) < Share(ks[i])
      ensures j in s[..n]
    {
      var m :| 0 <= m < |s| && s[m] == j;
      assert m < n && s[..n][m] == j;
    }
  }

  lemma {:induction false} SortSorts(ks: seq<Key>, these: seq<nat>)
    requires SoundPool(ks) && Positions(ks, these) && NoDup(these)
    ensures (var r := SortByShare(ks, these);
             NoDup(r) && (forall j :: j in r <==> j in these) && ByShare(ks, r))
  {
    hide Share, ByShare, NoDup, Insert;
    if these == [] {
      NothingByShare(ks);
    } else {
      var front, last := these[..|these| - 1], these[|these| - 1];
      Snoc(these, last);
      NoDupFront(front, last);
      SortSorts(ks, front);
      Snoc(front, last);
      InsertSorts(ks, SortByShare(ks, front), last);
    }
  }
}
