/**
 `SpendState` of `vkey.rs`: what a key has spent this period, with the period's ordinal packed into the
 same word, 24 bits over 40.
 */
module Spend {
  import opened Saturating

  const SPEND_RANGE: nat := 0x100_0000_0000
  const SPEND_MASK: nat := SPEND_RANGE - 1
  const PERIODS: nat := 0x100_0000

  type Word = w: nat | w < 0x1_0000_0000_0000_0000

  datatype Debit = Debit(ordinal: nat, amount: nat)

  function Pack(period: nat, spent: nat): Word
    requires period < PERIODS && spent <= SPEND_MASK
  {
    period * SPEND_RANGE + spent
  }

  function PeriodIn(w: Word): nat {
    w / SPEND_RANGE
  }

  function SpentIn(w: Word): nat {
    w % SPEND_RANGE
  }

  lemma PackExact(period: nat, spent: nat)
    requires period < PERIODS && spent <= SPEND_MASK
    ensures PeriodIn(Pack(period, spent)) == period && SpentIn(Pack(period, spent)) == spent
  {
  }

  /** The word after a debit: its period's spend grows, up to the mask; another period's is the opening balance. */
  function Debited(w: Word, d: Debit): Word {
    var period := d.ordinal % PERIODS;
    if PeriodIn(w) == period then Pack(period, Min(SpentIn(w) + d.amount, SPEND_MASK))
    else Pack(period, Min(d.amount, SPEND_MASK))
  }

  function Current(w: Word, ordinal: nat): nat {
    if PeriodIn(w) == ordinal % PERIODS then SpentIn(w) else 0
  }

  class SpendState {
    var packed: Word

    constructor ()
      ensures packed == 0
    {
      packed := 0;
    }

    method Add(amount: nat, ordinal: nat)
      modifies this
      ensures packed == Debited(old(packed), Debit(ordinal, amount))
    {
      var period := ordinal % PERIODS;
      var p, spent := packed / SPEND_RANGE, packed % SPEND_RANGE;
      var nextSpend := Min(if p == period then spent + amount else amount, SPEND_MASK);
      packed := Pack(period, nextSpend);
    }

    method Spent(ordinal: nat) returns (spent: nat)
      ensures spent == Current(packed, ordinal)
    {
      if packed / SPEND_RANGE == ordinal % PERIODS {
        return packed % SPEND_RANGE;
      }
      spent := 0;
    }
  }

  // ----- what a log of debits leaves in the word

  function Replay(log: seq<Debit>): Word {
    if log == [] then 0 else Debited(Replay(log[..|log| - 1]), log[|log| - 1])
  }

  /** Everything ever debited to a period. */
  function Total(log: seq<Debit>, ordinal: nat): nat {
    if log == [] then 0
    else Total(log[..|log| - 1], ordinal) + (if log[|log| - 1].ordinal == ordinal then log[|log| - 1].amount else 0)
  }

  function Latest(log: seq<Debit>): nat {
    if log == [] then 0
    else
      var before := Latest(log[..|log| - 1]);
      if log[|log| - 1].ordinal > before then log[|log| - 1].ordinal else before
  }

  /** No two debits are so far apart that their 24-bit ordinals could meet again. */
  predicate Spanned(log: seq<Debit>) {
    forall i, j :: 0 <= i < |log| && 0 <= j < |log| ==> log[i].ordinal - log[j].ordinal < PERIODS
  }

  predicate InOrder(log: seq<Debit>) {
    forall i, j :: 0 <= i < j < |log| ==> log[i].ordinal <= log[j].ordinal
  }

  /** The latest period reads as the sum of its debits, up to the 40 bits there are. */
  predicate Exact(log: seq<Debit>) {
    Current(Replay(log), Latest(log)) == Min(Total(log, Latest(log)), SPEND_MASK)
  }

  /** The last debit is for an older period than one that has already been charged. */
  predicate EndsLate(log: seq<Debit>) {
    log != [] &&
    (var before := log[..|log| - 1];
     log[|log| - 1].ordinal < Latest(before) && Total(before, Latest(before)) > 0)
  }

  lemma {:induction false} LatestIs(log: seq<Debit>)
    ensures forall i :: 0 <= i < |log| ==> log[i].ordinal <= Latest(log)
    ensures log != [] ==> exists i :: 0 <= i < |log| && log[i].ordinal == Latest(log)
  {
    if log != [] {
      var before := log[..|log| - 1];
      LatestIs(before);
      if Latest(log) != log[|log| - 1].ordinal && before != [] {
        var i :| 0 <= i < |before| && before[i].ordinal == Latest(before);
        assert log[i].ordinal == Latest(log);
      } else {
        assert log[|log| - 1].ordinal == Latest(log);
      }
    }
  }

  lemma {:induction false} NothingLater(log: seq<Debit>, ordinal: nat)
    requires forall i :: 0 <= i < |log| ==> log[i].ordinal < ordinal
    ensures Total(log, ordinal) == 0
  {
    if log != [] {
      NothingLater(log[..|log| - 1], ordinal);
    }
  }

  /** The word's period is that of some debit, unless nothing is spent in it. */
  lemma HeldPeriod(log: seq<Debit>)
    ensures SpentIn(Replay(log)) == 0 || exists i :: 0 <= i < |log| && PeriodIn(Replay(log)) == log[i].ordinal % PERIODS
  {
    if log != [] {
      var d := log[|log| - 1];
      DebitedExact(Replay(log[..|log| - 1]), d);
      assert PeriodIn(Replay(log)) == log[|log| - 1].ordinal % PERIODS;
    }
  }

  lemma DebitedExact(w: Word, d: Debit)
    ensures PeriodIn(Debited(w, d)) == d.ordinal % PERIODS
    ensures SpentIn(Debited(w, d)) == Min(Current(w, d.ordinal) + d.amount, SPEND_MASK)
  {
    PackExact(d.ordinal % PERIODS, Min(Current(w, d.ordinal) + d.amount, SPEND_MASK));
  }

  lemma Apart(a: nat, b: nat)
    requires a < b && b - a < PERIODS
    ensures a % PERIODS != b % PERIODS
  {
    var qa, qb := a / PERIODS, b / PERIODS;
    assert a == qa * PERIODS + a % PERIODS && b == qb * PERIODS + b % PERIODS;
    assert b - a == (qb - qa) * PERIODS + (b % PERIODS - a % PERIODS);
  }

  /** A period nobody has charged yet reads as nothing. */
  lemma Unseen(log: seq<Debit>, ordinal: nat)
    requires forall i :: 0 <= i < |log| ==> log[i].ordinal < ordinal && ordinal - log[i].ordinal < PERIODS
    ensures Current(Replay(log), ordinal) == 0 == Total(log, ordinal)
  {
    hide Replay, PeriodIn, SpentIn;
    NothingLater(log, ordinal);
    HeldPeriod(log);
    forall i | 0 <= i < |log|
      ensures log[i].ordinal % PERIODS != ordinal % PERIODS
    {
      Apart(log[i].ordinal, ordinal);
    }
  }

  /** One more debit keeps the latest period exact, unless it is a late one. */
  lemma OneMore(log: seq<Debit>)
    requires log != [] && Spanned(log) && Exact(log[..|log| - 1])
    ensures Exact(log) <==> !EndsLate(log)
  {
    hide Replay, PeriodIn, SpentIn, Total, Spanned, Debited;
    var before, d := log[..|log| - 1], log[|log| - 1];
    var w, latest := Replay(before), Latest(before);
    LastOne(log, latest);
    LastOne(log, d.ordinal);
    DebitedExact(w, d);
    LatestIs(before);
    SpannedEnds(log);
    if before == [] {
      Unseen(before, d.ordinal);
    } else if d.ordinal > latest {
      Unseen(before, d.ordinal);
    } else if d.ordinal < latest {
      Apart(d.ordinal, latest);
    }
  }

  lemma LastOne(log: seq<Debit>, ordinal: nat)
    requires log != []
    ensures (var (before, d) := (log[..|log| - 1], log[|log| - 1]);
             && Replay(log) == Debited(Replay(before), d)
             && Total(log, ordinal) == Total(before, ordinal) + (if d.ordinal == ordinal then d.amount else 0))
  {
  }

  lemma SpannedEnds(log: seq<Debit>)
    requires log != [] && Spanned(log)
    ensures Spanned(log[..|log| - 1])
    ensures (var (before, d) := (log[..|log| - 1], log[|log| - 1]);
             && (forall i :: 0 <= i < |before| ==> d.ordinal - before[i].ordinal < PERIODS)
             && (before != [] ==> Latest(before) - d.ordinal < PERIODS))
  {
    var before := log[..|log| - 1];
    LatestIs(before);
    if before != [] {
      var i :| 0 <= i < |before| && before[i].ordinal == Latest(before);
      assert before[i] == log[i];
    }
  }

  /** The latest period is exact after every debit precisely when no debit comes late. */
  lemma {:induction false} AlwaysExactIff(log: seq<Debit>)
    requires Spanned(log)
    ensures (forall n :: 0 <= n <= |log| ==> Exact(log[..n])) <==> (forall n :: 0 <= n <= |log| ==> !EndsLate(log[..n]))
  {
    hide Exact, EndsLate;
    if log == [] {
      assert log[..0] == [];
      NothingYet();
    } else {
      var before := log[..|log| - 1];
      SpannedEnds(log);
      AlwaysExactIff(before);
      assert forall n :: 0 <= n < |log| ==> before[..n] == log[..n];
      assert log[..|log|] == log && before[..|before|] == before;
      if Exact(before) {
        OneMore(log);
      }
    }
  }

  lemma NothingYet()
    ensures Exact([]) && !EndsLate([])
  {
  }

  lemma InOrderIsNeverLate(log: seq<Debit>, n: nat)
    requires InOrder(log) && n <= |log|
    ensures !EndsLate(log[..n])
  {
    if n > 1 {
      var before := log[..n][..n - 1];
      LatestIs(before);
      var i :| 0 <= i < |before| && before[i].ordinal == Latest(before);
      assert before[i] == log[i] && log[..n][n - 1] == log[n - 1];
    }
  }

  /** Debits committed in period order: the latest period holds the sum of its own, so a rollover loses none. */
  lemma RolloverLosesNothing(log: seq<Debit>)
    requires Spanned(log) && InOrder(log)
    ensures Current(Replay(log), Latest(log)) == Min(Total(log, Latest(log)), SPEND_MASK)
  {
    hide EndsLate;
    forall n | 0 <= n <= |log|
      ensures !EndsLate(log[..n])
    {
      InOrderIsNeverLate(log, n);
    }
    AlwaysExactIff(log);
    assert log[..|log|] == log;
    assert Exact(log[..|log|]);
  }

  // ----- any number of threads, one atomic operation a step

  datatype Pc = Idle | Load | Swap(current: Word) | Done

  datatype Thread = Thread(debit: Debit, pc: Pc)

  /** The shared word, the threads, and the debits in the order they were committed. */
  datatype State = State(word: Word, threads: seq<Thread>, log: seq<Debit>)

  datatype Act = Begin(thread: nat, debit: Debit) | Go(thread: nat, spurious: bool)

  function Start(threads: nat): State {
    State(0, seq(threads, i => Thread(Debit(0, 0), Idle)), [])
  }

  function Step(st: State, a: Act): State {
    var i := a.thread;
    if i >= |st.threads| then st
    else
      var t := st.threads[i];
      match a
      case Begin(_, debit) =>
        if t.pc.Idle? || t.pc.Done? then st.(threads := st.threads[i := Thread(debit, Load)]) else st
      case Go(_, spurious) =>
        match t.pc
        case Idle => st
        case Done => st
        case Load => st.(threads := st.threads[i := t.(pc := Swap(st.word))])
        case Swap(current) =>
          if st.word == current && !spurious then
            State(Debited(current, t.debit), st.threads[i := t.(pc := Done)], st.log + [t.debit])
          else st.(threads := st.threads[i := t.(pc := Swap(st.word))])
  }

  function Run(st: State, acts: seq<Act>): State
    decreases |acts|
  {
    if acts == [] then st else Run(Step(st, acts[0]), acts[1..])
  }

  /** A call finishes by committing its own debit, once; nothing else touches the word or the log. */
  lemma CommitsOnce(st: State, a: Act)
    requires a.thread < |st.threads|
    ensures (var (before, after) := (st.threads[a.thread], Step(st, a).threads[a.thread]);
             if after.pc.Done? && !before.pc.Done?
             then after.debit == before.debit && Step(st, a).log == st.log + [before.debit]
             else Step(st, a).log == st.log && Step(st, a).word == st.word)
  {
  }

  /**
   A debit nobody disturbs is charged with its second operation, and again with its third when its exchange
   fails once for no reason; a failed exchange changes nothing and takes the word anew.
   */
  lemma AloneCommits(st: State, i: nat, debit: Debit)
    requires i < |st.threads| && (st.threads[i].pc.Idle? || st.threads[i].pc.Done?)
    ensures (var end := State(Debited(st.word, debit), st.threads[i := Thread(debit, Done)], st.log + [debit]);
             && Run(st, [Begin(i, debit), Go(i, false), Go(i, false)]) == end
             && Run(st, [Begin(i, debit), Go(i, false), Go(i, true), Go(i, false)]) == end)
  {
    hide Debited;
    var b, g, w := Begin(i, debit), Go(i, false), Go(i, true);
    var loaded := st.(threads := st.threads[i := Thread(debit, Swap(st.word))]);
    assert Step(Step(st, b), g) == loaded && Step(loaded, w) == loaded;
    var end := Step(loaded, g);
    assert end.threads == st.threads[i := Thread(debit, Done)];
    assert [g][1..] == [] && [w, g][1..] == [g] && [g, g][1..] == [g] && [g, w, g][1..] == [w, g];
    assert [b, g, g][1..] == [g, g] && [b, g, w, g][1..] == [g, w, g];
    assert Run(end, []) == end && Run(loaded, [g]) == end && Run(loaded, [w, g]) == end;
    assert Run(Step(st, b), [g, g]) == end && Run(Step(st, b), [g, w, g]) == end;
  }

  lemma {:induction false} RunReplays(st: State, acts: seq<Act>)
    requires st.word == Replay(st.log)
    ensures Run(st, acts).word == Replay(Run(st, acts).log)
    decreases |acts|
  {
    hide Debited;
    if acts != [] {
      var next := Step(st, acts[0]);
      if next.log != st.log {
        var d := st.threads[acts[0].thread].debit;
        assert next.log == st.log + [d] && next.log[..|st.log|] == st.log;
      }
      RunReplays(next, acts[1..]);
    }
  }

  /** On every schedule whose debits commit in period order, the latest period reads as the sum of its debits. */
  lemma EverySchedule(threads: nat, acts: seq<Act>)
    ensures (var st := Run(Start(threads), acts);
             && (Spanned(st.log) && InOrder(st.log) ==>
                   Current(st.word, Latest(st.log)) == Min(Total(st.log, Latest(st.log)), SPEND_MASK))
             && (Spanned(st.log) && EndsLate(st.log) ==>
                   Current(st.word, Latest(st.log)) == 0 < Total(st.log, Latest(st.log))))
  {
    hide Run, Debited, Spanned, InOrder, Exact;
    var st := Run(Start(threads), acts);
    RunReplays(Start(threads), acts);
    if Spanned(st.log) && InOrder(st.log) {
      RolloverLosesNothing(st.log);
    }
    if Spanned(st.log) && EndsLate(st.log) {
      LateOverwrites(st.log);
    }
  }

  /** A late debit takes the word for its own period, and what the latest period had spent is gone. */
  lemma LateOverwrites(log: seq<Debit>)
    requires Spanned(log) && EndsLate(log)
    ensures Current(Replay(log), Latest(log)) == 0 < Total(log, Latest(log))
  {
    hide PeriodIn, SpentIn, Debited, Spanned;
    var before, d := log[..|log| - 1], log[|log| - 1];
    var latest := Latest(before);
    SpannedEnds(log);
    LastOne(log, latest);
    DebitedExact(Replay(before), d);
    Apart(d.ordinal, latest);
  }
}
