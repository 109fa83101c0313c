/** `admit_for` of `router.rs` and the diagnoses that must agree with it. */
module KeySelection {
  import opened Wrappers
  import opened Bytes
  import opened Router
  import Breaker
  import TokenBucket

  // ----- who could be chosen

  /** A key that would serve now, and one that would be sent a probe. */
  predicate CanServe(k: Key, now: nat) {
    Breaker.LooksHealthy(k.breaker, now) && Headroom(k, now)
  }

  predicate CanProbe(c: Breaker.Config, k: Key, now: nat) {
    Breaker.Admit(c, k.breaker, now).0 == Breaker.Probe && SlotFree(k)
  }

  predicate AnyServes(ks: seq<Key>, es: seq<nat>, now: nat) {
    exists i :: 0 <= i < |ks| && i in es && CanServe(ks[i], now)
  }

  predicate AnyProbes(c: Breaker.Config, ks: seq<Key>, es: seq<nat>, now: nat) {
    exists i :: 0 <= i < |ks| && i in es && CanProbe(c, ks[i], now)
  }

  /** A served key: a slot, a request and a dispatch are its own; elapsed time is credited. */
  function Served(k: Key, now: nat): Key
    requires Headroom(k, now)
  {
    TakeSlot(k).(rpm := SpendOne(k.rpm, now), tpm := Credit(k.tpm, now), leases := k.leases + 1)
  }

  /** A probed key: a slot and a dispatch, and nothing of its rate. */
  function Probed(c: Breaker.Config, k: Key, now: nat): Key
    requires SlotFree(k)
  {
    TakeSlot(k).(breaker := Breaker.Admit(c, k.breaker, now).1, leases := k.leases + 1)
  }

  /** A key that was not chosen holds no slot and spent nothing; its breaker is touched exactly if it was `asked`. */
  predicate PassedOver(c: Breaker.Config, before: Key, after: Key, now: nat, asked: bool) {
    && Idle(before, after.(breaker := before.breaker), now)
    && after.breaker == (if asked then Breaker.Admit(c, before.breaker, now).1 else before.breaker)
  }

  /** The keys not chosen whose breakers were asked: none if a key served, else those before the probed one by share. */
  function Asked(ks: seq<Key>, es: seq<nat>, choice: Option<Choice>): seq<nat>
    requires SoundPool(ks) && Positions(ks, es)
  {
    match choice
    case None => SortByShare(ks, es)
    case Some(Choice(Some(i), Probe)) => BeforeIn(SortByShare(ks, es), i)
    case _ => []
  }

  /** The least share of those that could serve, or the session's own seat when it could. */
  ghost predicate RightlyServed(ks: seq<Key>, es: seq<nat>, affinity: Option<bytes -> nat>, now: nat, i: nat)
    requires SoundPool(ks) && i < |ks|
  {
    var hs := Healthy(ks, es, now);
    if affinity.Some? && hs != [] && Positions(ks, hs) && Headroom(ks[PinnedSeat(ks, hs, affinity.value)], now)
    then i == PinnedSeat(ks, hs, affinity.value)
    else forall j :: 0 <= j < |ks| && j in es && CanServe(ks[j], now) ==> Share(ks[i]) <= Share(ks[j])
  }

  /** What `admit_for` promises about a keyed pool: its answer, and every key afterwards. */
  ghost predicate Answered(c: Breaker.Config, ks: seq<Key>, after: seq<Key>, es: seq<nat>, affinity: Option<bytes -> nat>,
                           now: nat, choice: Option<Choice>)
    requires SoundPool(ks) && Positions(ks, es)
  {
    && |after| == |ks|
    && (forall i :: 0 <= i < |ks| && !(choice.Some? && choice.value.key == Some(i)) ==>
          PassedOver(c, ks[i], after[i], now, i in Asked(ks, es, choice)))
    && match choice
       case None => !AnyServes(ks, es, now) && !AnyProbes(c, ks, es, now)
       case Some(Choice(Some(i), Yes)) =>
         && i < |ks| && i in es && CanServe(ks[i], now) && after[i] == Served(ks[i], now)
         && RightlyServed(ks, es, affinity, now, i)
       case Some(Choice(Some(i), Probe)) =>
         && i < |ks| && i in es && CanProbe(c, ks[i], now) && after[i] == Probed(c, ks[i], now)
         && !AnyServes(ks, es, now)
         && (forall j :: 0 <= j < |ks| && j in es && CanProbe(c, ks[j], now) ==> Share(ks[i]) <= Share(ks[j]))
         && (forall j :: 0 <= j < |ks| && j in Asked(ks, es, choice) ==> !CanProbe(c, ks[j], now))
       case _ => false
  }

  /** The pool part-way: nothing spent, every breaker as it was but those in `asked`. */
  predicate Spared(c: Breaker.Config, ks: seq<Key>, now: nat, cur: seq<Key>, asked: seq<nat>) {
    |cur| == |ks| && forall i :: 0 <= i < |ks| ==> PassedOver(c, ks[i], cur[i], now, i in asked)
  }

  class ProviderRuntime {
    var keys: seq<Key>
    var providerBreaker: Breaker.State
    const managed: bool
    const config: Breaker.Config

    constructor (keys: seq<Key>, managed: bool, config: Breaker.Config)
      ensures this.keys == keys && this.managed == managed && this.config == config
      ensures providerBreaker == Breaker.FRESH
    {
      this.keys, this.managed, this.config, providerBreaker := keys, managed, config, Breaker.FRESH;
    }

    /** Spend one request against a key's ceilings; the token ceiling is only looked at. */
    method TryAdmitRequest(i: nat, now: nat) returns (ok: bool)
      requires i < |keys| && Sound(keys[i])
      modifies this`keys
      ensures |keys| == |old(keys)| && keys == old(keys)[i := keys[i]]
      ensures (var k := old(keys)[i];
               && ok == (TokenLeft(k.tpm, now) && TokenLeft(k.rpm, now))
               && (ok ==> keys[i] == k.(rpm := SpendOne(k.rpm, now), tpm := Credit(k.tpm, now)))
               && (!ok ==> Idle(k, keys[i], now)))
    {
      var k := keys[i];
      if k.tpm.Some? {
        var polled := TokenBucket.Answer(k.tpm.value, TokenBucket.Consume(0, now)).1;
        k := k.(tpm := Some(polled));
        keys := keys[i := k];
        if TokenBucket.Tokens(polled) == 0 {
          return false;
        }
      }
      match k.rpm {
        case None =>
          ok := true;
        case Some(b) =>
          var (granted, b1) := TokenBucket.Answer(b, TokenBucket.Consume(1, now));
          keys := keys[i := k.(rpm := Some(b1))];
          ok := granted;
      }
    }

    method TryReserveSlot(i: nat) returns (permit: bool)
      requires i < |keys|
      modifies this`keys
      ensures permit == SlotFree(old(keys)[i])
      ensures keys == if permit then old(keys)[i := TakeSlot(old(keys)[i])] else old(keys)
    {
      var k := keys[i];
      if k.free.None? {
        return true;
      }
      if k.free.value == 0 {
        return false;
      }
      keys := keys[i := k.(free := Some(k.free.value - 1))];
      permit := true;
    }

    /** A permit that is dropped returns its slot. */
    method ReleaseSlot(i: nat)
      requires i < |keys|
      modifies this`keys
      ensures keys == old(keys)[i := if old(keys)[i].free.None? then old(keys)[i]
                                     else old(keys)[i].(free := Some(old(keys)[i].free.value + 1))]
    {
      var k := keys[i];
      if k.free.Some? {
        keys := keys[i := k.(free := Some(k.free.value + 1))];
      }
    }

    /** Admit one request against both ceilings: the slot first, given back if the rate refuses. */
    method AdmitNow(i: nat, now: nat) returns (permit: bool)
      requires i < |keys| && Sound(keys[i])
      modifies this`keys
      ensures |keys| == |old(keys)| && keys == old(keys)[i := keys[i]]
      ensures permit == Headroom(old(keys)[i], now)
      ensures permit ==> keys[i] == TakeSlot(old(keys)[i]).(rpm := SpendOne(old(keys)[i].rpm, now),
                                                            tpm := Credit(old(keys)[i].tpm, now))
      ensures !permit ==> Idle(old(keys)[i], keys[i], now)
    {
      hide Credit, TokenLeft, SpendOne;
      var reserved := TryReserveSlot(i);
      if !reserved {
        return false;
      }
      var ok := TryAdmitRequest(i, now);
      if !ok {
        ReleaseSlot(i);
        return false;
      }
      permit := true;
    }

    /** Whether every key that serves the caller is out on a bench that still runs. */
    method AllKeysBenched(model: bytes, tenant: Option<bytes>, now: nat) returns (benched: bool)
      ensures benched == AllBenched(keys, Eligible(managed, keys, Some(model), tenant), now)
    {
      var eligible := Eligible(managed, keys, Some(model), tenant);
      InPool(keys, eligible);
      benched := eligible != [];
      for n := 0 to |eligible|
        invariant benched == (eligible != [] && forall m :: 0 <= m < n ==> Breaker.IsBenched(keys[eligible[m]].breaker, now))
      {
        benched := benched && Breaker.IsBenched(keys[eligible[n]].breaker, now);
      }
    }

    /** Whether every healthy key that serves the caller is at one of its own ceilings. */
    method AllKeysAtCeiling(model: bytes, tenant: Option<bytes>, now: nat) returns (full: bool)
      requires SoundPool(keys)
      modifies this`keys
      ensures full == AllAtCeiling(old(keys), Eligible(managed, old(keys), Some(model), tenant), now)
      ensures Spared(config, old(keys), now, keys, [])
    {
      hide Headroom, Idle, Spared, Breaker.LooksHealthy;
      ghost var ks := keys;
      var healthy := Healthy(keys, Eligible(managed, keys, Some(model), tenant), now);
      InPool(ks, healthy);
      NothingIdle(config, now, ks);
      full := healthy != [];
      for n := 0 to |healthy|
        invariant |keys| == |ks| && Spared(config, ks, now, keys, [])
        invariant full == (healthy != [] && forall m :: 0 <= m < n ==> !Headroom(ks[healthy[m]], now))
      {
        if full {
          var room := LookAt(healthy[n], now, ks);
          full := !room;
        }
      }
    }

    /** Look at one key's headroom; the pool stays as it was but for elapsed time. */
    method LookAt(i: nat, now: nat, ghost ks: seq<Key>) returns (room: bool)
      requires SoundPool(ks) && i < |ks| == |keys| && Spared(config, ks, now, keys, [])
      modifies this`keys
      ensures room == Headroom(ks[i], now)
      ensures |keys| == |ks| && Spared(config, ks, now, keys, [])
    {
      hide Headroom, Idle, Spared, Sound;
      ghost var before := keys;
      SparedAt(config, ks, now, before, [], i);
      IdleKeepsHeadroom(ks[i], before[i], now);
      room := HasHeadroom(i, now);
      SparedIdle(config, ks, now, before, keys, i);
    }

    method TakeLease(i: nat)
      requires i < |keys|
      modifies this`keys
      ensures keys == old(keys)[i := old(keys)[i].(leases := old(keys)[i].leases + 1)]
    {
      keys := keys[i := keys[i].(leases := keys[i].leases + 1)];
    }

    /** Whether a key could take a request this instant, without spending anything. */
    method HasHeadroom(i: nat, now: nat) returns (room: bool)
      requires i < |keys| && Sound(keys[i])
      modifies this`keys
      ensures room == Headroom(old(keys)[i], now)
      ensures |keys| == |old(keys)| && keys == old(keys)[i := keys[i]] && Idle(old(keys)[i], keys[i], now)
    {
      var k := keys[i];
      var slotFree := k.free.None? || k.free.value > 0;
      var rpmLeft := true;
      if k.rpm.Some? {
        var b := TokenBucket.Answer(k.rpm.value, TokenBucket.Consume(0, now)).1;
        k := k.(rpm := Some(b));
        rpmLeft := TokenBucket.Tokens(b) > 0;
      }
      var tpmLeft := true;
      if k.tpm.Some? {
        var b := TokenBucket.Answer(k.tpm.value, TokenBucket.Consume(0, now)).1;
        k := k.(tpm := Some(b));
        tpmLeft := TokenBucket.Tokens(b) > 0;
      }
      keys := keys[i := k];
      room := slotFree && rpmLeft && tpmLeft;
    }

    /** The candidate furthest behind its share; any of those that tie. */
    method BalancedPick(these: seq<nat>) returns (best: nat)
      requires these != [] && Positions(keys, these) && SoundPool(keys)
      ensures best in these && best < |keys|
      ensures forall j :: j in these ==> j < |keys| && Share(keys[best]) <= Share(keys[j])
    {
      hide Share;
      best := these[0];
      if |these| == 1 {
        return;
      }
      var bestShare := Share(keys[best]);
      var tied: nat := 1;
      for n := 1 to |these|
        invariant tied >= 1 && best in these && best < |keys| && bestShare == Share(keys[best])
        invariant forall m :: 0 <= m < n ==> bestShare <= Share(keys[these[m]])
      {
        var share := Share(keys[these[n]]);
        if share < bestShare {
          best, bestShare, tied := these[n], share, 1;
        } else if share == bestShare {
          tied := tied + 1;
          var roll: nat :| roll < tied;
          if roll == 0 {
            best := these[n];
          }
        }
      }
    }

    /** Choose a key for a request: the session's own seat, else the levelled pick, else a probe. */
    method AdmitFor(model: Option<bytes>, tenant: Option<bytes>, affinity: Option<bytes -> nat>, now: nat)
        returns (choice: Option<Choice>)
      requires SoundPool(keys)
      modifies this
      ensures old(keys) == [] ==>
                (var (answer, b) := Breaker.Admit(config, old(providerBreaker), now);
                 && keys == [] && providerBreaker == b
                 && choice == if answer == Breaker.No then None else Some(Choice(None, answer)))
      ensures old(keys) != [] ==>
                && providerBreaker == old(providerBreaker)
                && Answered(config, old(keys), keys, Eligible(managed, old(keys), model, tenant), affinity, now, choice)
      ensures old(keys) != [] && choice.Some? ==>
                && choice.value.key.Some? && choice.value.key.value < |old(keys)|
                && (var k := old(keys)[choice.value.key.value];
                    && (managed ==> tenant.Some? && k.tenant == tenant)
                    && (model.None? || k.models.None? || model.value in k.models.value))
    {
      EligibleMeans(managed, keys, model, tenant);
      if keys == [] {
        var (answer, b) := Breaker.Admit(config, providerBreaker, now);
        providerBreaker := b;
        return if answer == Breaker.No then None else Some(Choice(None, answer));
      }
      var eligible := Eligible(managed, keys, model, tenant);
      if eligible == [] {
        NothingIdle(config, now, keys);
        return None;
      }
      choice := AdmitKeyed(eligible, affinity, now);
    }

    method AdmitKeyed(eligible: seq<nat>, affinity: Option<bytes -> nat>, now: nat) returns (choice: Option<Choice>)
      requires SoundPool(keys) && NoDup(eligible) && Positions(keys, eligible)
      modifies this`keys
      ensures Answered(config, old(keys), keys, eligible, affinity, now, choice)
    {
      hide Share, Headroom, Served, Idle, CanProbe, PassedOver, Probed, RightlyServed, Breaker.LooksHealthy, NoDup;
      ghost var ks := keys;
      var served := ServeHealthy(eligible, affinity, now);
      IdleIsPassedOver(config, now);
      if served.Some? {
        return Some(Choice(Some(served.value), Breaker.Yes));
      }
      SparedSound(config, ks, now, keys);
      SameSort(ks, keys, eligible);
      var recovering := SortByShare(keys, eligible);
      SortSorts(keys, eligible);
      SameShares(ks, keys, recovering);
      choice := ServeRecovering(recovering, now, ks);
    }

    /** The keys that look healthy: the session's own seat first, then the levelled pick. */
    method ServeHealthy(eligible: seq<nat>, affinity: Option<bytes -> nat>, now: nat) returns (served: Option<nat>)
      requires SoundPool(keys) && NoDup(eligible) && Positions(keys, eligible)
      modifies this`keys
      ensures |keys| == |old(keys)|
      ensures served.None? ==>
                && Spared(config, old(keys), now, keys, [])
                && (forall j :: j in eligible ==> j < |keys| && !CanServe(old(keys)[j], now))
                && (forall j :: 0 <= j < |keys| && !Breaker.LooksHealthy(old(keys)[j].breaker, now) ==> keys[j] == old(keys)[j])
      ensures served.Some? ==>
                (var i := served.value;
                 && i in eligible && i < |keys| && CanServe(old(keys)[i], now) && keys[i] == Served(old(keys)[i], now)
                 && (forall j :: 0 <= j < |keys| && j != i ==> Idle(old(keys)[j], keys[j], now))
                 && RightlyServed(old(keys), eligible, affinity, now, i))
    {
      hide Share, Headroom, Served, Idle, Breaker.LooksHealthy, NoDup;
      ghost var ks := keys;
      NothingIdle(config, now, ks);
      var candidates := Healthy(keys, eligible, now);
      InPool(ks, candidates);
      if affinity.Some? && candidates != [] {
        var pinned := PinnedSeat(keys, candidates, affinity.value);
        var permit := TryKey(pinned, now, ks[pinned]);
        if permit {
          return Some(pinned);
        }
        SparedIdle(config, ks, now, ks, keys, pinned);
        WithoutPositions(ks, candidates, pinned);
        candidates := Without(candidates, pinned);
      }
      served := ServeLevelled(candidates, now, ks);
    }

    /** Try the candidates, the furthest behind first, until one has room. */
    method ServeLevelled(these: seq<nat>, now: nat, ghost ks: seq<Key>) returns (served: Option<nat>)
      requires SoundPool(ks) && Positions(ks, these) && Spared(config, ks, now, keys, [])
      modifies this`keys
      ensures |keys| == |ks| && forall j :: 0 <= j < |ks| && j !in these ==> keys[j] == old(keys)[j]
      ensures served.None? ==> Spared(config, ks, now, keys, []) && forall j :: j in these ==> j < |ks| && !Headroom(ks[j], now)
      ensures served.Some? ==>
                (var i := served.value;
                 && i in these && i < |ks| && Headroom(ks[i], now) && keys[i] == Served(ks[i], now)
                 && (forall j :: 0 <= j < |ks| && j != i ==> Idle(ks[j], keys[j], now))
                 && (forall j :: j in these ==> j < |ks| && (Headroom(ks[j], now) ==> Share(ks[i]) <= Share(ks[j]))))
    {
      hide Share, Headroom, Served, Idle;
      var candidates := these;
      while candidates != []
        invariant Spared(config, ks, now, keys, [])
        invariant forall j :: 0 <= j < |ks| && j !in these ==> keys[j] == old(keys)[j]
        invariant Positions(ks, candidates) && forall j :: j in candidates ==> j in these
        invariant forall j :: j in these && j !in candidates ==> j < |ks| && !Headroom(ks[j], now)
        decreases |candidates|
      {
        SparedSound(config, ks, now, keys);
        var picked := BalancedPick(candidates);
        ghost var before := keys;
        var permit := TryKey(picked, now, ks[picked]);
        if permit {
          return Some(picked);
        }
        SparedIdle(config, ks, now, before, keys, picked);
        WithoutPositions(ks, candidates, picked);
        candidates := Without(candidates, picked);
      }
      served := None;
    }

    /** Ask the breakers in order of share; a probe needs a slot, but nothing of the rate. */
    method ServeRecovering(order: seq<nat>, now: nat, ghost ks: seq<Key>) returns (choice: Option<Choice>)
      requires SoundPool(ks) && Positions(ks, order) && NoDup(order) && ByShare(ks, order)
      requires Spared(config, ks, now, keys, [])
      requires forall j :: j in order ==> j < |ks| && !CanServe(ks[j], now)
      requires forall j :: 0 <= j < |ks| && !Breaker.LooksHealthy(ks[j].breaker, now) ==> keys[j] == ks[j]
      modifies this`keys
      ensures |keys| == |ks|
      ensures choice.None? ==> Spared(config, ks, now, keys, order) && forall j :: j in order ==> j < |ks| && !CanProbe(config, ks[j], now)
      ensures choice.Some? ==>
                && choice.value.key.Some? && choice.value.admission == Breaker.Probe
                && (var i := choice.value.key.value;
                    && i in order && i < |ks| && CanProbe(config, ks[i], now) && keys[i] == Probed(config, ks[i], now)
                    && (forall j :: 0 <= j < |ks| && j != i ==> PassedOver(config, ks[j], keys[j], now, j in BeforeIn(order, i)))
                    && (forall j :: j in order ==> j < |ks| && (CanProbe(config, ks[j], now) ==> Share(ks[i]) <= Share(ks[j])))
                    && (forall j :: 0 <= j < |ks| && j in BeforeIn(order, i) ==> !CanProbe(config, ks[j], now)))
    {
      hide Share, Idle, CanProbe, CanServe, PassedOver, Probed, Sound, Spared;
      hide Breaker.LooksHealthy;
      SparedLength(config, ks, now, keys, []);
      assert order[..0] == [];
      for n := 0 to |order|
        invariant |keys| == |ks| && Spared(config, ks, now, keys, order[..n])
        invariant forall m :: 0 <= m < n ==> !CanProbe(config, ks[order[m]], now)
        invariant forall j :: 0 <= j < |ks| && j !in order[..n] && !Breaker.LooksHealthy(ks[j].breaker, now) ==> keys[j] == ks[j]
      {
        var i := order[n];
        assert i !in order[..n];
        assert order[..n + 1] == order[..n] + [i];
        ghost var before := keys;
        SparedAt(config, ks, now, before, order[..n], i);
        var answer := AskKey(i, now, ks[i]);
        if answer.Some? {
          BeforeAt(order, n);
          return Some(Choice(Some(i), answer.value));
        }
        SparedMore(config, ks, now, before, keys, order[..n], i);
      }
      assert order[..|order|] == order;
      choice := None;
    }

    /** Ask one key's breaker, and admit on what it answers. */
    method AskKey(i: nat, now: nat, ghost k: Key) returns (answer: Option<Breaker.Admission>)
      requires i < |keys| && Sound(k) && Idle(k, keys[i], now) && !CanServe(k, now)
      requires !Breaker.LooksHealthy(k.breaker, now) ==> keys[i] == k
      modifies this`keys
      ensures |keys| == |old(keys)| && keys == old(keys)[i := keys[i]]
      ensures answer.None? ==> PassedOver(config, k, keys[i], now, true) && !CanProbe(config, k, now)
      ensures answer.Some? ==>
                answer.value == Breaker.Probe && CanProbe(config, k, now) && keys[i] == Probed(config, k, now)
    {
      hide Credit, TokenLeft, SpendOne, Headroom;
      hide Breaker.Admit, Breaker.LooksHealthy;
      AskedThenTried(config, k, now);
      var asked := AskBreaker(i, now, k);
      if asked == Breaker.No {
        return None;
      }
      var permit;
      if asked == Breaker.Yes {
        permit := TryRecovered(i, now, k);
      } else {
        permit := TryReserveSlot(i);
      }
      if !permit {
        return None;
      }
      TakeLease(i);
      answer := Some(asked);
    }

    method AskBreaker(i: nat, now: nat, ghost k: Key) returns (answer: Breaker.Admission)
      requires i < |keys| && Idle(k, keys[i], now)
      modifies this`keys
      ensures answer == Breaker.Admit(config, k.breaker, now).0
      ensures keys == old(keys)[i := old(keys)[i].(breaker := Breaker.Admit(config, k.breaker, now).1)]
      ensures PassedOver(config, k, keys[i], now, true)
    {
      hide Credit;
      hide Breaker.Admit;
      var (a, b) := Breaker.Admit(config, keys[i].breaker, now);
      keys := keys[i := keys[i].(breaker := b)];
      answer := a;
    }

    /** Admit on a key whose breaker has been asked. */
    method TryRecovered(i: nat, now: nat, ghost k: Key) returns (permit: bool)
      requires i < |keys| && Sound(k) && PassedOver(config, k, keys[i], now, true)
      modifies this`keys
      ensures |keys| == |old(keys)| && keys == old(keys)[i := keys[i]]
      ensures permit == Headroom(k, now)
      ensures !permit ==> PassedOver(config, k, keys[i], now, true)
    {
      hide Credit, TokenLeft, SpendOne, TakeSlot, Headroom;
      hide Breaker.Admit;
      ghost var b := keys[i].breaker;
      ghost var asked := k.(breaker := b);
      AskedThenTried(config, k, now);
      assert Idle(asked, keys[i], now);
      IdleKeepsHeadroom(asked, keys[i], now);
      permit := AdmitNow(i, now);
    }

    /** Admit a request on a key to which nothing but crediting has happened, and charge its dispatch. */
    method TryKey(i: nat, now: nat, ghost k: Key) returns (permit: bool)
      requires i < |keys| && Sound(k) && Idle(k, keys[i], now)
      modifies this`keys
      ensures |keys| == |old(keys)| && keys == old(keys)[i := keys[i]]
      ensures permit == Headroom(k, now)
      ensures permit ==> keys[i] == Served(k, now)
      ensures !permit ==> Idle(k, keys[i], now)
    {
      hide Headroom, Credit, TokenLeft, SpendOne, TakeSlot, Idle;
      IdleKeepsHeadroom(k, keys[i], now);
      permit := AdmitNow(i, now);
      if permit {
        IdleServed(k, old(keys[i]), now);
        TakeLease(i);
      }
    }
  }

  lemma NothingIdle(c: Breaker.Config, now: nat, ks: seq<Key>)
    ensures Spared(c, ks, now, ks, [])
  {
  }

  lemma SameShares(ks: seq<Key>, cur: seq<Key>, s: seq<nat>)
    requires SoundPool(ks) && SoundPool(cur) && |cur| == |ks| && Positions(ks, s)
    requires forall i :: 0 <= i < |ks| ==> Share(cur[i]) == Share(ks[i])
    ensures ByShare(cur, s) <==> ByShare(ks, s)
  {
    hide Share;
  }

  lemma InPool(ks: seq<Key>, these: seq<nat>)
    requires forall i :: i in these ==> i < |ks|
    ensures Positions(ks, these)
  {
    forall k | 0 <= k < |these|
      ensures these[k] < |ks|
    {
      assert these[k] in these;
    }
  }

  lemma IdleIsPassedOver(c: Breaker.Config, now: nat)
    ensures forall before, after :: Idle(before, after, now) <==> PassedOver(c, before, after, now, false)
  {
  }

  /** What asking a key's breaker and trying for its permit comes to. */
  lemma AskedThenTried(c: Breaker.Config, k: Key, now: nat)
    ensures Breaker.Admit(c, k.breaker, now).0 == Breaker.Yes <==> Breaker.LooksHealthy(k.breaker, now)
    ensures forall b :: SlotFree(k.(breaker := b)) == SlotFree(k)
    ensures forall b :: Headroom(k.(breaker := b), now) == Headroom(k, now)
    ensures forall b :: Sound(k.(breaker := b)) == Sound(k)
  {
    hide TokenLeft, SoundBucket;
    Breaker.HealthyIsYes(c, k.breaker, now);
  }

  lemma SparedLength(c: Breaker.Config, ks: seq<Key>, now: nat, cur: seq<Key>, asked: seq<nat>)
    requires Spared(c, ks, now, cur, asked)
    ensures |cur| == |ks|
  {
  }

  /** A key not asked yet is idle, and every key has at most been passed over. */
  lemma SparedAt(c: Breaker.Config, ks: seq<Key>, now: nat, cur: seq<Key>, asked: seq<nat>, i: nat)
    requires Spared(c, ks, now, cur, asked) && i < |ks| && i !in asked
    ensures Idle(ks[i], cur[i], now)
    ensures forall j :: 0 <= j < |ks| ==> PassedOver(c, ks[j], cur[j], now, j in asked)
  {
    hide Idle, PassedOver;
    IdleIsPassedOver(c, now);
  }

  lemma SparedIdle(c: Breaker.Config, ks: seq<Key>, now: nat, cur: seq<Key>, next: seq<Key>, i: nat)
    requires Spared(c, ks, now, cur, []) && i < |ks| == |next| && next == cur[i := next[i]]
    requires Idle(ks[i], next[i], now)
    ensures Spared(c, ks, now, next, [])
  {
    hide Idle, PassedOver;
    IdleIsPassedOver(c, now);
  }

  lemma SparedMore(c: Breaker.Config, ks: seq<Key>, now: nat, cur: seq<Key>, next: seq<Key>,
                                      asked: seq<nat>, i: nat)
    requires Spared(c, ks, now, cur, asked) && i < |ks| == |next| && next == cur[i := next[i]]
    requires PassedOver(c, ks[i], next[i], now, true)
    ensures Spared(c, ks, now, next, asked + [i])
  {
    hide Idle, PassedOver;
  }

  lemma SparedSound(c: Breaker.Config, ks: seq<Key>, now: nat, cur: seq<Key>)
    requires SoundPool(ks) && Spared(c, ks, now, cur, [])
    ensures SoundPool(cur)
    ensures forall i :: 0 <= i < |ks| ==> Idle(ks[i], cur[i], now) && Share(cur[i]) == Share(ks[i])
  {
    hide Credit;
    forall i | 0 <= i < |ks|
      ensures Sound(cur[i]) && Idle(ks[i], cur[i], now) && Share(cur[i]) == Share(ks[i])
    {
      IdleKeepsHeadroom(ks[i], cur[i], now);
    }
  }

  /** Serving a key whose time has been credited is serving the key. */
  lemma IdleServed(k: Key, idle: Key, now: nat)
    requires Sound(k) && Idle(k, idle, now) && Headroom(k, now)
    ensures Headroom(idle, now) && Served(idle, now) == Served(k, now) && TakeSlot(idle).leases == idle.leases
    ensures Served(idle, now)
         == TakeSlot(idle).(rpm := SpendOne(idle.rpm, now), tpm := Credit(idle.tpm, now), leases := idle.leases + 1)
  {
    IdleKeepsHeadroom(k, idle, now);
    CreditIdempotent(k.rpm, now);
    CreditIdempotent(k.tpm, now);
  }

  // ----- what an answer means for the caller, in terms of the keys' own fields

  /** Which keys are a caller's candidates: labelled for it where the pool has labels, with the model in their list if they have one. */
  lemma EligibleMeans(managed: bool, ks: seq<Key>, model: Option<bytes>, tenant: Option<bytes>)
    ensures (var es := Eligible(managed, ks, model, tenant);
             forall i :: 0 <= i < |ks| ==>
               (i in es <==>
                && (managed ==> tenant.Some? && ks[i].tenant == tenant)
                && (model.None? || ks[i].models.None? || model.value in ks[i].models.value)))
    ensures forall i :: i in Eligible(managed, ks, model, tenant) ==> i < |ks|
  {
  }

  /** Without labels it makes no difference who asks. */
  lemma UnlabelledIsShared(ks: seq<Key>, model: Option<bytes>, a: Option<bytes>, b: Option<bytes>)
    ensures Eligible(false, ks, model, a) == Eligible(false, ks, model, b)
  {
    SameKeep(UpTo(|ks|), (i: nat) => i < |ks| && Serves(ks[i], model) && OwnedBy(false, ks[i], a),
             (i: nat) => i < |ks| && Serves(ks[i], model) && OwnedBy(false, ks[i], b));
  }

  lemma {:induction false} SameKeep(s: seq<nat>, p: nat -> bool, q: nat -> bool)
    requires forall x :: p(x) == q(x)
    ensures Keep(s, p) == Keep(s, q)
  {
    if s != [] { SameKeep(s[..|s| - 1], p, q); }
  }

  /** A free slot, a whole request and a whole token, elapsed time credited, wherever there is such a ceiling. */
  lemma HeadroomMeans(k: Key, now: nat)
    ensures Headroom(k, now) <==>
              && k.free != Some(0)
              && (k.rpm.Some? ==> TokenBucket.Credited(k.rpm.value, now).available >= 1000)
              && (k.tpm.Some? ==> TokenBucket.Credited(k.tpm.value, now).available >= 1000)
  {
  }

  /**
   Whom a choice serves. The key chosen is labelled for the caller where the pool has labels, and has the model
   in its list if it has one. The answer is yes exactly when some such key looks healthy and has a free slot, a
   request and a token left; it costs that key one slot, one request and one dispatch, and no other key anything.
   A probe costs no rate and leaves its key half open.
   */
  lemma AnswerMeans(c: Breaker.Config, managed: bool, ks: seq<Key>, after: seq<Key>, model: Option<bytes>,
                    tenant: Option<bytes>, affinity: Option<bytes -> nat>, now: nat, choice: Option<Choice>)
    requires SoundPool(ks)
    requires Answered(c, ks, after, Eligible(managed, ks, model, tenant), affinity, now, choice)
    ensures choice.Some? ==>
              && choice.value.key.Some? && choice.value.key.value < |ks| == |after|
              && (var k := ks[choice.value.key.value];
                  && (managed ==> tenant.Some? && k.tenant == tenant)
                  && (model.None? || k.models.None? || model.value in k.models.value))
    ensures (choice.Some? && choice.value.admission == Breaker.Yes) <==>
              (exists i :: 0 <= i < |ks|
                 && (managed ==> tenant.Some? && ks[i].tenant == tenant)
                 && (model.None? || ks[i].models.None? || model.value in ks[i].models.value)
                 && Breaker.LooksHealthy(ks[i].breaker, now)
                 && ks[i].free != Some(0)
                 && (ks[i].rpm.Some? ==> TokenBucket.Credited(ks[i].rpm.value, now).available >= 1000)
                 && (ks[i].tpm.Some? ==> TokenBucket.Credited(ks[i].tpm.value, now).available >= 1000))
    ensures choice.Some? ==>
              (var i := choice.value.key.value;
               && after[i].leases == ks[i].leases + 1
               && (ks[i].free.Some? ==> ks[i].free.value > 0 && after[i].free == Some(ks[i].free.value - 1))
               && (choice.value.admission == Breaker.Yes && ks[i].rpm.Some? ==>
                     && after[i].rpm.Some?
                     && after[i].rpm.value.available == TokenBucket.Credited(ks[i].rpm.value, now).available - 1000)
               && (choice.value.admission == Breaker.Yes ==> after[i].breaker == ks[i].breaker)
               && (choice.value.admission == Breaker.Probe ==>
                     && after[i].rpm == ks[i].rpm && after[i].tpm == ks[i].tpm
                     && after[i].breaker.word == Breaker.Pack(now, Breaker.HALF_OPEN)))
    ensures |after| == |ks|
    ensures forall j :: 0 <= j < |ks| && !(choice.Some? && choice.value.key == Some(j)) ==>
              && after[j].leases == ks[j].leases && after[j].free == ks[j].free
              && (after[j].rpm == ks[j].rpm || after[j].rpm == Credit(ks[j].rpm, now))
              && (after[j].tpm == ks[j].tpm || after[j].tpm == Credit(ks[j].tpm, now))
  {
    hide RightlyServed, Share, Eligible, Asked, Credit;
    hide Breaker.Admit, Breaker.LooksHealthy;
    EligibleMeans(managed, ks, model, tenant);
    if choice.Some? && choice.value.key.Some? && choice.value.key.value < |ks| {
      AdmitWord(c, ks[choice.value.key.value].breaker, now);
    }
    forall i | 0 <= i < |ks|
      ensures Headroom(ks[i], now) <==>
                && ks[i].free != Some(0)
                && (ks[i].rpm.Some? ==> TokenBucket.Credited(ks[i].rpm.value, now).available >= 1000)
                && (ks[i].tpm.Some? ==> TokenBucket.Credited(ks[i].tpm.value, now).available >= 1000)
    {
      HeadroomMeans(ks[i], now);
    }
  }

  /**
   Which of several is chosen. A session returns to the healthy candidate whose name scores highest for it
   whenever that one has headroom; without a session the answer is a candidate of the least dispatches per weight
   among those that could serve; a probe goes to one of the least among those that are due with a slot free.
   */
  lemma ChoiceIsRight(c: Breaker.Config, ks: seq<Key>, after: seq<Key>, es: seq<nat>, affinity: Option<bytes -> nat>,
                      now: nat, choice: Option<Choice>, p: nat)
    requires SoundPool(ks) && Positions(ks, es) && Answered(c, ks, after, es, affinity, now, choice)
    requires p < |ks| && p in es
    ensures affinity.Some? && CanServe(ks[p], now)
        && (forall j :: 0 <= j < |ks| && j in es && j != p && Breaker.LooksHealthy(ks[j].breaker, now) ==>
              affinity.value(ks[j].name) < affinity.value(ks[p].name))
        ==> choice == Some(Choice(Some(p), Breaker.Yes))
    ensures affinity.None? && CanServe(ks[p], now) ==>
              && choice.Some? && choice.value.key.Some? && choice.value.key.value < |ks|
              && (var k := ks[choice.value.key.value];
                  k.leases as real / k.weight <= ks[p].leases as real / ks[p].weight)
    ensures choice.Some? && choice.value.admission == Breaker.Probe && CanProbe(c, ks[p], now) ==>
              && choice.value.key.Some? && choice.value.key.value < |ks|
              && (var k := ks[choice.value.key.value];
                  k.leases as real / k.weight <= ks[p].leases as real / ks[p].weight)
  {
    hide Headroom, Breaker.LooksHealthy, Breaker.Admit, Asked, PassedOver, Served, Probed;
    var hs := Healthy(ks, es, now);
    InPool(ks, hs);
    if affinity.Some? && CanServe(ks[p], now) {
      var m :| 0 <= m < |hs| && hs[m] == p;
      var seat := PinnedSeat(ks, hs, affinity.value);
      assert affinity.value(ks[hs[m]].name) <= affinity.value(ks[seat].name);
    }
  }

  /** The two diagnoses, of a caller's own keys alone. */
  lemma DiagnosesMean(managed: bool, ks: seq<Key>, model: bytes, tenant: Option<bytes>, now: nat)
    ensures (forall i :: i in Eligible(managed, ks, Some(model), tenant) ==> i < |ks|)
    ensures AllBenched(ks, Eligible(managed, ks, Some(model), tenant), now) <==>
              && (exists i :: 0 <= i < |ks| && (managed ==> tenant.Some? && ks[i].tenant == tenant)
                              && (ks[i].models.Some? ==> model in ks[i].models.value))
              && (forall i :: (0 <= i < |ks| && (managed ==> tenant.Some? && ks[i].tenant == tenant)
                               && (ks[i].models.Some? ==> model in ks[i].models.value)) ==> now < ks[i].breaker.bench)
    ensures AllAtCeiling(ks, Eligible(managed, ks, Some(model), tenant), now) <==>
              && (exists i :: 0 <= i < |ks| && (managed ==> tenant.Some? && ks[i].tenant == tenant)
                              && (ks[i].models.Some? ==> model in ks[i].models.value)
                              && Breaker.LooksHealthy(ks[i].breaker, now))
              && (forall i :: 0 <= i < |ks| && (managed ==> tenant.Some? && ks[i].tenant == tenant)
                              && (ks[i].models.Some? ==> model in ks[i].models.value)
                              && Breaker.LooksHealthy(ks[i].breaker, now) ==>
                                ks[i].free == Some(0)
                                || (ks[i].rpm.Some? && TokenBucket.Credited(ks[i].rpm.value, now).available < 1000)
                                || (ks[i].tpm.Some? && TokenBucket.Credited(ks[i].tpm.value, now).available < 1000))
  {
    hide Eligible, Headroom, Breaker.LooksHealthy;
    EligibleMeans(managed, ks, Some(model), tenant);
    var es := Eligible(managed, ks, Some(model), tenant);
    var hs := Healthy(ks, es, now);
    forall i | 0 <= i < |ks|
      ensures i in es <==> exists m :: 0 <= m < |es| && es[m] == i
      ensures i in hs <==> exists m :: 0 <= m < |hs| && hs[m] == i
    {
    }
    forall i | 0 <= i < |ks|
      ensures !Headroom(ks[i], now) <==>
                || ks[i].free == Some(0)
                || (ks[i].rpm.Some? && TokenBucket.Credited(ks[i].rpm.value, now).available < 1000)
                || (ks[i].tpm.Some? && TokenBucket.Credited(ks[i].tpm.value, now).available < 1000)
    {
      HeadroomMeans(ks[i], now);
    }
    AnyIn(es);
    AnyIn(hs);
  }

  lemma AnyIn(s: seq<nat>)
    ensures s != [] <==> exists i :: i in s
    ensures forall m :: 0 <= m < |s| ==> s[m] in s
  {
    if s != [] { assert s[0] in s; }
  }

  // ----- the answer and the diagnoses agree

  ghost predicate AllBenched(ks: seq<Key>, es: seq<nat>, now: nat)
    requires forall i :: i in es ==> i < |ks|
  {
    es != [] && forall m :: 0 <= m < |es| ==> (assert es[m] in es; Breaker.IsBenched(ks[es[m]].breaker, now))
  }

  ghost predicate AllAtCeiling(ks: seq<Key>, es: seq<nat>, now: nat)
    requires forall i :: i in es ==> i < |ks|
  {
    var hs := Healthy(ks, es, now);
    hs != [] && forall m :: 0 <= m < |hs| ==> (assert hs[m] in hs; !Headroom(ks[hs[m]], now))
  }

  /**
   Yes if and only if some key that serves the caller looks healthy and has headroom; a probe if and only
   if none does but one is due and has a slot. A pool that is all benched answers nobody, and an answer of
   nobody while some key is healthy means every healthy one is at a ceiling.
   */
  lemma AnswersAgree(c: Breaker.Config, ks: seq<Key>, after: seq<Key>, es: seq<nat>,
                                        affinity: Option<bytes -> nat>, now: nat, choice: Option<Choice>)
    requires SoundPool(ks) && Positions(ks, es) && Answered(c, ks, after, es, affinity, now, choice)
    ensures (choice.Some? && choice.value.admission == Breaker.Yes) <==> AnyServes(ks, es, now)
    ensures (choice.Some? && choice.value.admission == Breaker.Probe) <==> !AnyServes(ks, es, now) && AnyProbes(c, ks, es, now)
    ensures AllBenched(ks, es, now) ==> choice.None?
    ensures choice.None? && Healthy(ks, es, now) != [] ==> AllAtCeiling(ks, es, now)
    ensures AllAtCeiling(ks, es, now) ==> !AnyServes(ks, es, now)
  {
    hide Headroom, Served, Probed, PassedOver, RightlyServed, Share;
    hide Breaker.Admit, Breaker.LooksHealthy, Breaker.IsBenched;
    if AllBenched(ks, es, now) {
      forall i | 0 <= i < |ks| && i in es
        ensures !CanServe(ks[i], now) && !CanProbe(c, ks[i], now)
      {
        var m :| 0 <= m < |es| && es[m] == i;
        BenchedIsNo(c, ks[i].breaker, now);
      }
    }
    var hs := Healthy(ks, es, now);
    if AllAtCeiling(ks, es, now) {
      forall i | 0 <= i < |ks| && i in es && Breaker.LooksHealthy(ks[i].breaker, now)
        ensures !Headroom(ks[i], now)
      {
        var m :| 0 <= m < |hs| && hs[m] == i;
      }
    }
    if choice.None? && hs != [] {
      forall m | 0 <= m < |hs|
        ensures !Headroom(ks[hs[m]], now)
      {
        assert hs[m] in hs;
      }
    }
  }

  /**
   Which key loses its probe: one whose breaker was asked when its probe was due. Its slots were full, or it
   would have been chosen, and it stood before the chosen key by share. No other word changes.
   */
  lemma LostProbe(c: Breaker.Config, ks: seq<Key>, after: seq<Key>, es: seq<nat>,
                                     affinity: Option<bytes -> nat>, now: nat, choice: Option<Choice>, i: nat)
    requires SoundPool(ks) && Positions(ks, es) && NoDup(es) && Answered(c, ks, after, es, affinity, now, choice)
    requires i < |ks| && !(choice.Some? && choice.value.key == Some(i))
    ensures (var due := Breaker.Admit(c, ks[i].breaker, now).0 == Breaker.Probe;
             var asked := i in Asked(ks, es, choice);
             && after[i].breaker.word
                == (if asked && due then Breaker.Pack(now, Breaker.HALF_OPEN) else ks[i].breaker.word)
             && (asked && due ==> !SlotFree(ks[i]))
             && (choice.None? ==> (asked <==> i in es))
             && (choice.Some? && choice.value.admission == Breaker.Yes ==> !asked)
             && (choice.Some? && choice.value.admission == Breaker.Probe ==>
                   (var k := choice.value.key.value;
                    && (asked ==> i in es && Share(ks[i]) <= Share(ks[k]))
                    && (i in es && Share(ks[i]) < Share(ks[k]) ==> asked))))
  {
    hide Idle, Served, Probed, RightlyServed, Share, SortByShare, BeforeIn, NoDup, ByShare;
    AdmitWord(c, ks[i].breaker, now);
    SortSorts(ks, es);
    if choice.Some? && choice.value.key.Some? {
      var k := choice.value.key.value;
      if choice.value.admission == Breaker.Probe {
        BeforeByShare(ks, SortByShare(ks, es), k);
      }
    }
  }

  lemma AdmitWord(c: Breaker.Config, b: Breaker.State, now: nat)
    ensures (var (answer, later) := Breaker.Admit(c, b, now);
             later.word == if answer == Breaker.Probe then Breaker.Pack(now, Breaker.HALF_OPEN) else b.word)
  {
  }

  lemma BenchedIsNo(c: Breaker.Config, b: Breaker.State, now: nat)
    requires Breaker.IsBenched(b, now)
    ensures Breaker.Admit(c, b, now).0 == Breaker.No && !Breaker.LooksHealthy(b, now)
  {
  }
}
