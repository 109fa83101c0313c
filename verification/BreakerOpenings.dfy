/**
 What it takes to open the breaker under concurrency: a log of every write to the failure count, and
 what it says when a call trips.
 */
module BreakerOpenings {
  import opened Saturating
  import opened Breaker
  import opened BreakerRaces

  /** A write to the failure count: a success clears it, a new window starts it at one, a failure adds to it. */
  datatype CountOp = Zero | One | More

  /** Which call wrote; calls are numbered as they begin. */
  datatype Mark = Mark(id: nat, call: Call, op: CountOp)

  /** The writes so far, the number of each thread's latest call (0 before its first), and how many calls began. */
  datatype History = History(log: seq<Mark>, ids: seq<nat>, begun: nat)

  function Writes(t: Thread, id: nat): seq<Mark> {
    match t.pc
    case StoreCount => [Mark(id, t.call, Zero)]
    case StoreOne(_) => [Mark(id, t.call, One)]
    case AddOne(_) => [Mark(id, t.call, More)]
    case _ => []
  }

  /** What a step adds to the history. */
  function Noted(sys: System, h: History, a: Act): History
    requires |h.ids| == |sys.threads|
  {
    match a
    case Tick(_) => h
    case Begin(i, _) =>
      if i < |sys.threads| && AtRest(sys.threads[i].pc)
      then h.(ids := h.ids[i := h.begun + 1], begun := h.begun + 1)
      else h
    case Go(i, _) =>
      if i < |sys.threads| then h.(log := h.log + Writes(sys.threads[i], h.ids[i])) else h
  }

  /** The history of a run from the start. */
  function HistoryOf(c: Config, threads: nat, acts: seq<Act>): (h: History)
    ensures |h.ids| == |Run(c, Start(threads), acts).threads|
  {
    if acts == [] then History([], seq(threads, _ => 0), 0)
    else Noted(Run(c, Start(threads), acts[..|acts| - 1]), HistoryOf(c, threads, acts[..|acts| - 1]), acts[|acts| - 1])
  }

  /** How many writes, from the last that was not an addition on, have counted failures. */
  function Streak(log: seq<Mark>): (n: nat)
    ensures n <= |log|
  {
    if log == [] then 0
    else
      match log[|log| - 1].op
      case Zero => 0
      case One => 1
      case More => Streak(log[..|log| - 1]) + 1
  }

  /** The positions only a failure call reaches. */
  predicate Failing(pc: Pc) {
    pc.LoadWordToFail? || pc.Reopen? || pc.LoadWindow? || pc.SwapWindow? || pc.StoreOne? || pc.AddOne? || pc.Trip?
  }

  // ----- what every schedule keeps

  /** The write at `p` made the count at least the threshold. */
  predicate Reached(c: Config, log: seq<Mark>, p: nat)
    requires p < |log|
  {
    Streak(log[..p + 1]) >= c.threshold
  }

  ghost predicate ThreadSound(c: Config, t: Thread, id: nat, log: seq<Mark>) {
    && (Failing(t.pc) ==> t.call.FailAt?)
    && (id == 0 ==> AtRest(t.pc))
    && (!AtRest(t.pc) ==> forall p :: 0 <= p < |log| && log[p].id == id && log[p].op != Zero ==> Reached(c, log, p))
    && (t.pc.Trip? ==> exists p :: 0 <= p < |log| && log[p].id == id && log[p].op != Zero)
  }

  /** A call that writes twice had reached the threshold with its first write. */
  ghost predicate LogSound(c: Config, log: seq<Mark>) {
    && (forall p :: 0 <= p < |log| && log[p].op != Zero ==> log[p].call.FailAt?)
    && (forall p, q :: 0 <= p < q < |log| && log[p].id == log[q].id && log[p].op != Zero && log[q].op != Zero ==> Reached(c, log, p))
  }

  ghost predicate IdsSound(h: History) {
    && (forall i :: 0 <= i < |h.ids| ==> h.ids[i] <= h.begun)
    && (forall i, j :: 0 <= i < j < |h.ids| && h.ids[i] == h.ids[j] ==> h.ids[i] == 0)
    && (forall p :: 0 <= p < |h.log| ==> h.log[p].id <= h.begun)
  }

  ghost predicate Sound(c: Config, sys: System, h: History) {
    && |h.ids| == |sys.threads|
    && IdsSound(h) && LogSound(c, h.log)
    && sys.shared.failures == Streak(h.log)
    && forall i :: 0 <= i < |sys.threads| ==> ThreadSound(c, sys.threads[i], h.ids[i], h.log)
  }

  lemma StreakSnoc(log: seq<Mark>, m: Mark)
    ensures Streak(log + [m]) == match m.op case Zero => 0 case One => 1 case More => Streak(log) + 1
  {
    assert (log + [m])[..|log|] == log;
  }

  lemma ReachedStays(c: Config, log: seq<Mark>, m: Mark, p: nat)
    requires p < |log|
    ensures Reached(c, log + [m], p) <==> Reached(c, log, p)
  {
    assert (log + [m])[..p + 1] == log[..p + 1];
  }

  /** An operation writes the count exactly as its mark says. */
  lemma OperateCount(c: Config, s: State, t: Thread, id: nat, spurious: bool, log: seq<Mark>)
    requires s.failures == Streak(log)
    ensures Operate(c, s, t, spurious).0.failures == Streak(log + Writes(t, id))
  {
    var w := Writes(t, id);
    if w != [] { StreakSnoc(log, w[0]); assert w == [w[0]]; } else { assert log + w == log; }
  }

  /** Where a failure call goes, and when it goes on after counting. */
  lemma OperatePlace(c: Config, s: State, t: Thread, id: nat, spurious: bool, log: seq<Mark>)
    requires s.failures == Streak(log)
    ensures (var pc := Operate(c, s, t, spurious).1;
             var w := Writes(t, id);
             && (Failing(pc) ==> Failing(t.pc))
             && (AtRest(t.pc) ==> AtRest(pc))
             && (!AtRest(pc) && w != [] && w[0].op != Zero ==> pc.Trip? && Streak(log + w) >= c.threshold)
             && (pc.Trip? ==> w != [] && w[0].op != Zero)
             && (w != [] && w[0].op != Zero ==> Failing(t.pc)))
  {
    OperateCount(c, s, t, id, spurious, log);
  }

  /** What another thread's write leaves of what is known of a thread. */
  lemma OthersWrite(c: Config, t: Thread, id: nat, log: seq<Mark>, m: Mark)
    requires ThreadSound(c, t, id, log) && (m.id == id ==> id == 0)
    ensures ThreadSound(c, t, id, log + [m])
  {
    hide Reached;
    var more := log + [m];
    forall p | 0 <= p < |log|
      ensures more[p] == log[p] && (Reached(c, more, p) <==> Reached(c, log, p))
    {
      ReachedStays(c, log, m, p);
    }
    if t.pc.Trip? {
      var p :| 0 <= p < |log| && log[p].id == id && log[p].op != Zero;
      assert more[p] == log[p];
    }
  }

  /** A thread's own write. */
  lemma OwnWrite(c: Config, t: Thread, id: nat, log: seq<Mark>, pc: Pc, m: Mark)
    requires ThreadSound(c, t, id, log) && m.id == id && !AtRest(t.pc)
    requires Failing(pc) ==> Failing(t.pc)
    requires !AtRest(pc) && m.op != Zero ==> Streak(log + [m]) >= c.threshold
    requires pc.Trip? ==> m.op != Zero
    ensures ThreadSound(c, t.(pc := pc), id, log + [m])
  {
    hide Streak;
    var more := log + [m];
    forall p | 0 <= p < |log|
      ensures more[p] == log[p] && (Reached(c, more, p) <==> Reached(c, log, p))
    {
      ReachedStays(c, log, m, p);
    }
    assert more[..|log| + 1] == more;
    assert more[|log|] == m;
  }

  lemma LogGrows(c: Config, t: Thread, id: nat, log: seq<Mark>, m: Mark)
    requires LogSound(c, log) && ThreadSound(c, t, id, log) && !AtRest(t.pc)
    requires m.id == id && (m.op != Zero ==> m.call.FailAt?)
    ensures LogSound(c, log + [m])
  {
    hide Reached;
    var more := log + [m];
    forall p | 0 <= p < |log|
      ensures more[p] == log[p] && (Reached(c, more, p) <==> Reached(c, log, p))
    {
      ReachedStays(c, log, m, p);
    }
  }

  lemma GoSound(c: Config, sys: System, h: History, i: nat, spurious: bool)
    requires Sound(c, sys, h) && i < |sys.threads|
    ensures Sound(c, Step(c, sys, Go(i, spurious)), Noted(sys, h, Go(i, spurious)))
  {
    hide Operate, ThreadSound, LogSound, Reached, Streak;
    var t, s, id, log := sys.threads[i], sys.shared, h.ids[i], h.log;
    var (s', pc) := Operate(c, s, t, spurious);
    var w := Writes(t, id);
    OperateCount(c, s, t, id, spurious, log);
    OperatePlace(c, s, t, id, spurious, log);
    if w == [] {
      assert log + w == log;
      QuietStep(c, t, id, log, pc);
    } else {
      var m := w[0];
      assert w == [m];
      FailCall(c, t, id, log);
      OwnWrite(c, t, id, log, pc, m);
      LogGrows(c, t, id, log, m);
      forall j | 0 <= j < |sys.threads| && j != i
        ensures ThreadSound(c, sys.threads[j], h.ids[j], log + [m])
      {
        OthersWrite(c, sys.threads[j], h.ids[j], log, m);
      }
    }
  }

  lemma FailCall(c: Config, t: Thread, id: nat, log: seq<Mark>)
    requires ThreadSound(c, t, id, log)
    ensures Failing(t.pc) ==> t.call.FailAt?
  {
  }

  lemma QuietStep(c: Config, t: Thread, id: nat, log: seq<Mark>, pc: Pc)
    requires ThreadSound(c, t, id, log) && (Failing(pc) ==> Failing(t.pc)) && (AtRest(t.pc) ==> AtRest(pc)) && !pc.Trip?
    ensures ThreadSound(c, t.(pc := pc), id, log)
  {
  }

  /** A call that begins has written nothing. */
  lemma BeginSound(c: Config, sys: System, h: History, i: nat, call: Call)
    requires Sound(c, sys, h) && i < |sys.threads| && AtRest(sys.threads[i].pc)
    ensures Sound(c, Step(c, sys, Begin(i, call)), Noted(sys, h, Begin(i, call)))
  {
    hide LogSound, Reached, Streak;
    assert forall p :: 0 <= p < |h.log| ==> h.log[p].id != h.begun + 1;
    assert ThreadSound(c, Thread(call, Entry(call)), h.begun + 1, h.log);
  }

  lemma {:induction false} RunSound(c: Config, threads: nat, acts: seq<Act>)
    ensures Sound(c, Run(c, Start(threads), acts), HistoryOf(c, threads, acts))
  {
    hide Step, Noted, Sound;
    if acts == [] {
      StartSound(c, threads);
    } else {
      var before, a := acts[..|acts| - 1], acts[|acts| - 1];
      RunSound(c, threads, before);
      var sys, h := Run(c, Start(threads), before), HistoryOf(c, threads, before);
      StepSound(c, sys, h, a);
    }
  }

  lemma StartSound(c: Config, threads: nat)
    ensures Sound(c, Start(threads), History([], seq(threads, _ => 0), 0))
  {
  }

  lemma StepSound(c: Config, sys: System, h: History, a: Act)
    requires Sound(c, sys, h)
    ensures Sound(c, Step(c, sys, a), Noted(sys, h, a))
  {
    hide Operate, ThreadSound, LogSound, IdsSound, Streak, Writes;
    match a
    case Tick(_) =>
    case Begin(i, call) => if i < |sys.threads| && AtRest(sys.threads[i].pc) { BeginSound(c, sys, h, i, call); }
    case Go(i, spurious) => if i < |sys.threads| { GoSound(c, sys, h, i, spurious); }
  }

  // ----- what an opening implies

  /** Thread `i` is about to open a closed breaker. */
  predicate Opens(sys: System, i: nat) {
    i < |sys.threads| && sys.threads[i].pc.Trip? && sys.shared.word == sys.threads[i].pc.current
  }

  /**
   In `log[..k]` the last writes, at least as many as the threshold, are failures counted on each other, and
   the first so many of them are by that many calls.
   */
  ghost predicate ThresholdCounted(c: Config, log: seq<Mark>, k: nat)
    requires k <= |log|
  {
    && Streak(log[..k]) >= c.threshold
    && (forall p :: k - Streak(log[..k]) <= p < k ==> log[p].op != Zero && log[p].call.FailAt?)
    && (forall p, q :: k - Streak(log[..k]) <= p < q < k - Streak(log[..k]) + c.threshold ==> log[p].id != log[q].id)
  }

  /** Inside a streak the count is how far the streak has got. */
  lemma {:induction false} StreakAt(log: seq<Mark>, p: nat)
    requires |log| - Streak(log) <= p < |log|
    ensures log[p].op != Zero && Streak(log[..p + 1]) == p + 1 - (|log| - Streak(log))
  {
    if p == |log| - 1 {
      assert log[..p + 1] == log;
    } else {
      var front := log[..|log| - 1];
      StreakAt(front, p);
      assert front[..p + 1] == log[..p + 1];
    }
  }

  lemma StreakIsCounted(c: Config, log: seq<Mark>, k: nat)
    requires LogSound(c, log) && k <= |log| && Streak(log[..k]) >= c.threshold
    ensures ThresholdCounted(c, log, k)
  {
    var part := log[..k];
    var start := k - Streak(part);
    forall p | start <= p < k
      ensures log[p].op != Zero && Streak(log[..p + 1]) == p + 1 - start
    {
      StreakAt(part, p);
      assert part[..p + 1] == log[..p + 1];
    }
    forall p, q | start <= p < q < start + c.threshold
      ensures log[p].id != log[q].id
    {
      assert !Reached(c, log, p);
    }
  }

  /**
   On every schedule, a call opens a closed breaker only after it has itself counted, and with that write
   or an earlier one of its own found the threshold: from the last clearing or new window up to there, that
   many different failure calls had counted. What came between that write and the trip is not asked about.
   */
  lemma OpeningImplies(c: Config, threads: nat, acts: seq<Act>, i: nat)
    requires Opens(Run(c, Start(threads), acts), i)
    ensures (var h := HistoryOf(c, threads, acts);
             exists k :: 0 < k <= |h.log| && h.log[k - 1].id == h.ids[i] && h.log[k - 1].op != Zero
                         && ThresholdCounted(c, h.log, k))
    ensures (var end := Step(c, Run(c, Start(threads), acts), Go(i, false));
             StateOf(end.shared.word) == OPEN && end.threads[i].pc == Finished)
  {
    hide Run, Start, ThresholdCounted, Streak, Step;
    OpensWrites(c, Run(c, Start(threads), acts), i);
    RunSound(c, threads, acts);
    var h := HistoryOf(c, threads, acts);
    var t := Run(c, Start(threads), acts).threads[i];
    assert ThreadSound(c, t, h.ids[i], h.log);
    var p :| 0 <= p < |h.log| && h.log[p].id == h.ids[i] && h.log[p].op != Zero;
    assert Reached(c, h.log, p);
    StreakIsCounted(c, h.log, p + 1);
  }

  /** It then writes the open state. */
  lemma OpensWrites(c: Config, sys: System, i: nat)
    requires Opens(sys, i)
    ensures (var end := Step(c, sys, Go(i, false));
             StateOf(end.shared.word) == OPEN && end.threads[i].pc == Finished && end.shared.failures == sys.shared.failures)
  {
    PackIff(Now(sys.threads[i].call), OPEN);
  }

  lemma RunSnoc(c: Config, threads: nat, acts: seq<Act>, a: Act)
    ensures Run(c, Start(threads), acts + [a]) == Step(c, Run(c, Start(threads), acts), a)
  {
    hide Step;
    assert (acts + [a])[..|acts|] == acts;
  }

  /** A call of thread 0 that has counted one failure and is about to trip. */
  lemma OneCounted(c: Config) returns (acts: seq<Act>)
    requires c.threshold <= 1
    ensures Run(c, Start(2), acts)
         == System(FRESH.(failures := 1), [Thread(FailAt(0), Trip(FRESH.word)), Thread(Success, Idle)], 0, [])
  {
    hide Run, Start, Pack;
    TwoIdle(c);
    PackIff(0, CLOSED);
    acts := [];
    RunSnoc(c, 2, acts, Begin(0, FailAt(0)));
    acts := acts + [Begin(0, FailAt(0))];
    var idle := Thread(Success, Idle);
    assert Run(c, Start(2), acts).threads == [Thread(FailAt(0), LoadWordToFail), idle];
    RunSnoc(c, 2, acts, Go(0, false));
    acts := acts + [Go(0, false)];
    assert Run(c, Start(2), acts).threads == [Thread(FailAt(0), LoadWindow(FRESH.word)), idle];
    RunSnoc(c, 2, acts, Go(0, false));
    acts := acts + [Go(0, false)];
    assert Run(c, Start(2), acts).threads == [Thread(FailAt(0), AddOne(FRESH.word)), idle];
    RunSnoc(c, 2, acts, Go(0, false));
    acts := acts + [Go(0, false)];
    assert Run(c, Start(2), acts).threads == [Thread(FailAt(0), Trip(FRESH.word)), idle];
  }

  lemma TwoIdle(c: Config)
    ensures Run(c, Start(2), []) == System(FRESH, [Thread(Success, Idle), Thread(Success, Idle)], 0, [])
  {
    assert Start(2).threads == [Thread(Success, Idle), Thread(Success, Idle)];
  }

  /** A success that is recorded in full between a count and its trip does not keep the breaker closed. */
  lemma OpensAfterSuccess(c: Config) returns (acts: seq<Act>)
    requires c.threshold <= 1
    ensures (var sys := Run(c, Start(2), acts);
             && |sys.threads| == 2 && Opens(sys, 0) && sys.threads[1] == Thread(Success, Finished)
             && sys.shared == FRESH
             && StateOf(Step(c, sys, Go(0, false)).shared.word) == OPEN)
  {
    hide Run, Start, Pack, StateOf;
    PackIff(0, CLOSED);
    acts := OneCounted(c);
    var trip := Thread(FailAt(0), Trip(FRESH.word));
    RunSnoc(c, 2, acts, Begin(1, Success));
    acts := acts + [Begin(1, Success)];
    assert Run(c, Start(2), acts).threads == [trip, Thread(Success, StoreCount)];
    RunSnoc(c, 2, acts, Go(1, false));
    acts := acts + [Go(1, false)];
    assert Run(c, Start(2), acts).threads == [trip, Thread(Success, StoreWord)];
    RunSnoc(c, 2, acts, Go(1, false));
    acts := acts + [Go(1, false)];
    assert Run(c, Start(2), acts).threads == [trip, Thread(Success, StoreBench)];
    RunSnoc(c, 2, acts, Go(1, false));
    acts := acts + [Go(1, false)];
    assert Run(c, Start(2), acts).threads == [trip, Thread(Success, Finished)];
    assert FRESH.word == Pack(0, CLOSED);
    OpensWrites(c, Run(c, Start(2), acts), 0);
  }
}
