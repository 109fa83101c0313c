/**
 The breaker under concurrency: any number of threads, one atomic operation a step, any schedule, and
 a clock that runs beside them.
 */
module BreakerRaces {
  import opened Saturating
  import opened Breaker

  datatype Call = AskAt(now: nat) | Success | FailAt(now: nat) | BenchTo(until: nat)

  /** Where a call is, with what it has read so far. */
  datatype Pc =
    | Idle
    | LoadBench
    | ClearBench(seenBench: nat)
    | LoadWordToAsk
    | Claim(current: nat)
    | StoreCount
    | StoreWord
    | StoreBench
    | LoadWordToFail
    | Reopen(current: nat)
    | LoadWindow(current: nat)
    | SwapWindow(current: nat, seenStart: nat)
    | StoreOne(current: nat)
    | AddOne(current: nat)
    | Trip(current: nat)
    | RaiseBench
    | Done(answer: Admission)
    | Finished

  datatype Thread = Thread(call: Call, pc: Pc)

  /** The shared words, the threads, the real time, and when each probe was granted. */
  datatype System = System(shared: State, threads: seq<Thread>, clock: nat, grants: seq<nat>)

  datatype Act = Tick(ms: nat) | Begin(thread: nat, call: Call) | Go(thread: nat, spurious: bool)

  function Start(threads: nat): System {
    System(FRESH, seq(threads, i => Thread(Success, Idle)), 0, [])
  }

  predicate AtRest(pc: Pc) {
    pc.Idle? || pc.Done? || pc.Finished?
  }

  function Entry(call: Call): Pc {
    match call
    case AskAt(_) => LoadBench
    case Success => StoreCount
    case FailAt(_) => LoadWordToFail
    case BenchTo(_) => RaiseBench
  }

  /** `admit` has just read the word. */
  function AskNext(c: Config, now: nat, word: nat): Pc {
    if StateOf(word) == CLOSED then Done(Yes)
    else if Less(now, Since(word)) < c.cooldown then Done(No)
    else Claim(word)
  }

  /** `record_failure` has just read the word. */
  function FailNext(word: nat): Pc {
    if StateOf(word) == OPEN then Finished
    else if StateOf(word) == HALF_OPEN then Reopen(word)
    else LoadWindow(word)
  }

  function CountNext(c: Config, current: nat, count: nat): Pc {
    if count < c.threshold then Finished else Trip(current)
  }

  function Now(call: Call): nat {
    match call
    case AskAt(now) => now
    case FailAt(now) => now
    case _ => 0
  }

  function Until(call: Call): nat {
    match call
    case BenchTo(until) => until
    case _ => 0
  }

  /** One atomic operation of a thread: the shared words and its next position. */
  function Operate(c: Config, s: State, t: Thread, spurious: bool): (State, Pc) {
    var now := Now(t.call);
    match t.pc
    case Idle => (s, Idle)
    case Done(_) => (s, t.pc)
    case Finished => (s, t.pc)
    case LoadBench =>
      (s, if s.bench == 0 then LoadWordToAsk else if now < s.bench then Done(No) else ClearBench(s.bench))
    case ClearBench(seen) => (if s.bench == seen then s.(bench := 0) else s, LoadWordToAsk)
    case LoadWordToAsk => (s, AskNext(c, now, s.word))
    case Claim(current) =>
      if s.word == current && !spurious then (s.(word := Pack(now, HALF_OPEN)), Done(Probe)) else (s, AskNext(c, now, s.word))
    case StoreCount => (s.(failures := 0), StoreWord)
    case StoreWord => (s.(word := Pack(0, CLOSED)), StoreBench)
    case StoreBench => (s.(bench := 0), Finished)
    case LoadWordToFail => (s, FailNext(s.word))
    case Reopen(current) =>
      if s.word == current && !spurious then (s.(word := Pack(now, OPEN)), Finished) else (s, FailNext(s.word))
    case LoadWindow(current) =>
      (s, if Less(now, s.windowStart) > c.window then SwapWindow(current, s.windowStart) else AddOne(current))
    case SwapWindow(current, seen) =>
      if s.windowStart == seen then (s.(windowStart := now), StoreOne(current)) else (s, AddOne(current))
    case StoreOne(current) => (s.(failures := 1), CountNext(c, current, 1))
    case AddOne(current) => (s.(failures := s.failures + 1), CountNext(c, current, s.failures + 1))
    case Trip(current) =>
      if s.word == current && !spurious then (s.(word := Pack(now, OPEN)), Finished) else (s, FailNext(s.word))
    case RaiseBench => (BenchUntil(s, Until(t.call)), Finished)
  }

  function Step(c: Config, sys: System, a: Act): System {
    match a
    case Tick(ms) => sys.(clock := sys.clock + ms)
    case Begin(i, call) =>
      if i < |sys.threads| && AtRest(sys.threads[i].pc)
      then sys.(threads := sys.threads[i := Thread(call, Entry(call))])
      else sys
    case Go(i, spurious) =>
      if i >= |sys.threads| then sys
      else
        var t := sys.threads[i];
        var (s, pc) := Operate(c, sys.shared, t, spurious);
        System(s, sys.threads[i := t.(pc := pc)], sys.clock,
               if t.pc.Claim? && pc == Done(Probe) then sys.grants + [sys.clock] else sys.grants)
  }

  function Run(c: Config, sys: System, acts: seq<Act>): System {
    if acts == [] then sys else Step(c, Run(c, sys, acts[..|acts| - 1]), acts[|acts| - 1])
  }

  // ----- probes are a cooldown apart

  /** When this step writes a stamp, the stamp lags the real time by at most `d` and fits its 62 bits. */
  predicate TimelyStep(c: Config, sys: System, a: Act, d: nat) {
    a.Go? && a.thread < |sys.threads| && Stamps(sys.shared, sys.threads[a.thread], a.spurious) ==>
      (var now := Now(sys.threads[a.thread].call); now <= sys.clock <= now + d && now < STAMPS)
  }

  /** The operation is about to write a stamp. */
  predicate Stamps(s: State, t: Thread, spurious: bool) {
    !spurious &&
    match t.pc
    case Claim(current) => s.word == current
    case Reopen(current) => s.word == current
    case Trip(current) => s.word == current
    case _ => false
  }

  predicate Timely(c: Config, sys: System, acts: seq<Act>, d: nat) {
    acts == [] ||
    (Timely(c, sys, acts[..|acts| - 1], d) && TimelyStep(c, Run(c, sys, acts[..|acts| - 1]), acts[|acts| - 1], d))
  }

  /** What a thread waiting to claim a probe knows about the word it read. */
  predicate Ready(c: Config, t: Thread) {
    t.pc.Claim? ==> !(StateOf(t.pc.current) == CLOSED) && Less(Now(t.call), Since(t.pc.current)) >= c.cooldown
  }

  ghost predicate Spaced(c: Config, grants: seq<nat>, d: nat) {
    forall i, j :: 0 <= i < j < |grants| ==> grants[i] <= grants[j] && grants[j] - grants[i] >= c.cooldown - d
  }

  /** While the breaker is not closed, its stamp is no earlier than the last grant, less the lag. */
  ghost predicate Inv(c: Config, sys: System, d: nat) {
    && (forall i :: 0 <= i < |sys.threads| ==> Ready(c, sys.threads[i]))
    && (forall i :: 0 <= i < |sys.grants| ==> sys.grants[i] <= sys.clock)
    && Spaced(c, sys.grants, d)
    && (!Closed(sys.shared) && sys.grants != [] ==> Since(sys.shared.word) + d >= sys.grants[|sys.grants| - 1])
  }

  lemma OperateReady(c: Config, s: State, t: Thread, spurious: bool)
    requires Ready(c, t)
    ensures Ready(c, t.(pc := Operate(c, s, t, spurious).1))
  {
  }

  /** What an operation does to the word. */
  lemma OperateWord(c: Config, s: State, t: Thread, spurious: bool)
    ensures (var (s', pc) := Operate(c, s, t, spurious);
             var w := s'.word;
             if Stamps(s, t, spurious) then w == Pack(Now(t.call), if t.pc.Claim? then HALF_OPEN else OPEN)
             else w == s.word || StateOf(w) == CLOSED)
    ensures t.pc.Claim? && Operate(c, s, t, spurious).1 == Done(Probe) <==> t.pc.Claim? && Stamps(s, t, spurious)
  {
  }

  lemma AppendGrant(c: Config, grants: seq<nat>, d: nat, at: nat)
    requires Spaced(c, grants, d) && (forall i :: 0 <= i < |grants| ==> grants[i] <= at)
    requires grants != [] ==> at - grants[|grants| - 1] >= c.cooldown - d
    ensures Spaced(c, grants + [at], d)
  {
    var more := grants + [at];
    forall i, j | 0 <= i < j < |more|
      ensures more[i] <= more[j] && more[j] - more[i] >= c.cooldown - d
    {
      if j == |grants| {
        assert i == |grants| - 1 || grants[i] <= grants[|grants| - 1];
      }
    }
  }

  lemma GoInv(c: Config, sys: System, i: nat, spurious: bool, d: nat)
    requires Inv(c, sys, d) && TimelyStep(c, sys, Go(i, spurious), d) && i < |sys.threads|
    ensures Inv(c, Step(c, sys, Go(i, spurious)), d)
  {
    hide Operate, Spaced, Pack, Since, StateOf;
    var t, s := sys.threads[i], sys.shared;
    var now := Now(t.call);
    OperateReady(c, s, t, spurious);
    OperateWord(c, s, t, spurious);
    if Stamps(s, t, spurious) {
      PackIff(now, OPEN);
      PackIff(now, HALF_OPEN);
      if t.pc.Claim? {
        assert Ready(c, t);
        AppendGrant(c, sys.grants, d, sys.clock);
      }
    }
  }

  lemma {:induction false} RunInv(c: Config, threads: nat, acts: seq<Act>, d: nat)
    requires Timely(c, Start(threads), acts, d)
    ensures Inv(c, Run(c, Start(threads), acts), d)
  {
    if acts != [] {
      hide Step, Start, Inv;
      var sys, a := Run(c, Start(threads), acts[..|acts| - 1]), acts[|acts| - 1];
      RunInv(c, threads, acts[..|acts| - 1], d);
      StepInv(c, sys, a, d);
    }
  }

  lemma StepInv(c: Config, sys: System, a: Act, d: nat)
    requires Inv(c, sys, d) && TimelyStep(c, sys, a, d)
    ensures Inv(c, Step(c, sys, a), d)
  {
    hide Operate;
    if a.Go? && a.thread < |sys.threads| {
      GoInv(c, sys, a.thread, a.spurious, d);
    }
  }

  /** On every schedule, any two probes are granted at least a cooldown, less the lag, apart. */
  lemma ProbesAreApart(c: Config, threads: nat, acts: seq<Act>, d: nat, i: nat, j: nat)
    requires Timely(c, Start(threads), acts, d)
    requires i < j < |Run(c, Start(threads), acts).grants|
    ensures (var grants := Run(c, Start(threads), acts).grants; grants[j] - grants[i] >= c.cooldown - d)
  {
    hide Start, Run;
    RunInv(c, threads, acts, d);
  }

  // ----- the bound is reached

  lemma Extend(c: Config, n: nat, acts: seq<Act>, a: Act, d: nat)
    requires Timely(c, Start(n), acts, d) && TimelyStep(c, Run(c, Start(n), acts), a, d)
    ensures Timely(c, Start(n), acts + [a], d)
    ensures Run(c, Start(n), acts + [a]) == Step(c, Run(c, Start(n), acts), a)
  {
    hide Step, TimelyStep, Start;
    assert (acts + [a])[..|acts|] == acts;
  }

  /** The one thread is at rest, nothing is benched, and the breaker has been out a cooldown at `now`. */
  predicate Due(c: Config, sys: System, now: nat) {
    && |sys.threads| == 1 && AtRest(sys.threads[0].pc) && sys.shared.bench == 0
    && !Closed(sys.shared) && Less(now, Since(sys.shared.word)) >= c.cooldown && now < STAMPS
  }

  lemma ProbeWhenDue(c: Config, acts: seq<Act>, now: nat, d: nat) returns (more: seq<Act>)
    requires Timely(c, Start(1), acts, d)
    requires Due(c, Run(c, Start(1), acts), now) && now <= Run(c, Start(1), acts).clock <= now + d
    ensures Timely(c, Start(1), more, d)
    ensures (var (was, sys) := (Run(c, Start(1), acts), Run(c, Start(1), more));
             && sys.grants == was.grants + [was.clock] && sys.clock == was.clock
             && |sys.threads| == 1 && AtRest(sys.threads[0].pc) && sys.shared.bench == 0
             && !Closed(sys.shared) && Since(sys.shared.word) == now)
  {
    hide Run, Timely, Start, Pack, Since, StateOf, Less;
    PackIff(now, HALF_OPEN);
    var was := Run(c, Start(1), acts);
    more := acts + [Begin(0, AskAt(now))];
    Extend(c, 1, acts, Begin(0, AskAt(now)), d);
    assert Run(c, Start(1), more) == was.(threads := [Thread(AskAt(now), LoadBench)]);
    Extend(c, 1, more, Go(0, false), d);
    more := more + [Go(0, false)];
    assert Run(c, Start(1), more) == was.(threads := [Thread(AskAt(now), LoadWordToAsk)]);
    Extend(c, 1, more, Go(0, false), d);
    more := more + [Go(0, false)];
    assert Run(c, Start(1), more) == was.(threads := [Thread(AskAt(now), Claim(was.shared.word))]);
    Extend(c, 1, more, Go(0, false), d);
    more := more + [Go(0, false)];
    assert Run(c, Start(1), more).threads == [Thread(AskAt(now), Done(Probe))];
  }

  /** A breaker that opens at its first failure, at time 0. */
  lemma OpenAtOnce(c: Config, d: nat) returns (acts: seq<Act>)
    requires c.threshold <= 1
    ensures Timely(c, Start(1), acts, d)
    ensures (var sys := Run(c, Start(1), acts);
             && |sys.threads| == 1 && AtRest(sys.threads[0].pc) && sys.shared.bench == 0 && sys.clock == 0 && sys.grants == []
             && !Closed(sys.shared) && Since(sys.shared.word) == 0)
  {
    hide Run, Timely, Start, Pack, Since;
    StartIs(c);
    PackIff(0, OPEN);
    PackIff(0, CLOSED);
    var was := Run(c, Start(1), []);
    Extend(c, 1, [], Begin(0, FailAt(0)), d);
    acts := [] + [Begin(0, FailAt(0))];
    assert Run(c, Start(1), acts) == was.(threads := [Thread(FailAt(0), LoadWordToFail)]);
    Extend(c, 1, acts, Go(0, false), d);
    acts := acts + [Go(0, false)];
    assert Run(c, Start(1), acts) == was.(threads := [Thread(FailAt(0), LoadWindow(FRESH.word))]);
    Extend(c, 1, acts, Go(0, false), d);
    acts := acts + [Go(0, false)];
    assert Run(c, Start(1), acts) == was.(threads := [Thread(FailAt(0), AddOne(FRESH.word))]);
    Extend(c, 1, acts, Go(0, false), d);
    acts := acts + [Go(0, false)];
    assert Run(c, Start(1), acts) == was.(threads := [Thread(FailAt(0), Trip(FRESH.word))], shared := FRESH.(failures := 1));
    Extend(c, 1, acts, Go(0, false), d);
    acts := acts + [Go(0, false)];
    assert Run(c, Start(1), acts).threads == [Thread(FailAt(0), Finished)];
  }

  lemma StartIs(c: Config)
    ensures forall d :: Timely(c, Start(1), [], d)
    ensures Run(c, Start(1), []) == System(FRESH, [Thread(Success, Idle)], 0, [])
  {
    assert Start(1).threads == [Thread(Success, Idle)];
  }

  /** The spacing is no better than that: a first probe that stamps late lets the next come early by the lag. */
  lemma SpacingIsReached(c: Config, d: nat) returns (acts: seq<Act>)
    requires c.threshold <= 1 && d <= c.cooldown && 2 * c.cooldown < STAMPS
    ensures Timely(c, Start(1), acts, d)
    ensures (var grants := Run(c, Start(1), acts).grants; |grants| == 2 && grants[1] == grants[0] + (c.cooldown - d))
  {
    hide Run, Timely, Start, Since, StateOf;
    acts := OpenAtOnce(c, d);
    Extend(c, 1, acts, Tick(c.cooldown + d), d);
    acts := acts + [Tick(c.cooldown + d)];
    acts := ProbeWhenDue(c, acts, c.cooldown, d);
    Extend(c, 1, acts, Tick(c.cooldown - d), d);
    acts := acts + [Tick(c.cooldown - d)];
    acts := ProbeWhenDue(c, acts, 2 * c.cooldown, d);
  }

  // ----- a call that runs alone

  /** A failure that has been counted, perhaps more than once, and is to open the breaker. */
  predicate Recounted(c: Config, s0: State, now: nat, s: State) {
    && Counted(c, s0, now).failures >= c.threshold && s.failures >= c.threshold
    && s == Counted(c, s0, now).(failures := s.failures)
    && StateOf(s0.word) != OPEN && StateOf(s0.word) != HALF_OPEN
  }

  /** Equal but for how far past the threshold an open breaker has counted. */
  predicate Same(c: Config, a: State, b: State) {
    a == b || (!Closed(b) && a.failures >= c.threshold && b.failures >= c.threshold && a == b.(failures := a.failures))
  }

  predicate NewWindow(c: Config, s0: State, now: nat) {
    Less(now, s0.windowStart) > c.window
  }

  /** Where a call that nobody disturbs has got to, having found the breaker at `s0`. */
  predicate Alone(c: Config, s0: State, call: Call, s: State, pc: Pc) {
    match call
    case AskAt(now) => AloneAsk(c, s0, now, s, pc)
    case Success => AloneSuccess(s0, s, pc)
    case FailAt(now) => AloneFail(c, s0, now, s, pc)
    case BenchTo(until) => (pc == RaiseBench && s == s0) || (pc == Finished && s == BenchUntil(s0, until))
  }

  predicate AloneAsk(c: Config, s0: State, now: nat, s: State, pc: Pc) {
    match pc
    case LoadBench => s == s0
    case ClearBench(seen) => s == s0 && seen == s.bench && !IsBenched(s0, now)
    case LoadWordToAsk => s == s0.(bench := 0) && !IsBenched(s0, now)
    case Claim(current) =>
      s == s0.(bench := 0) && !IsBenched(s0, now) && current == s.word && AskNext(c, now, current) == pc
    case Done(answer) => (answer, s) == Admit(c, s0, now)
    case _ => false
  }

  predicate AloneSuccess(s0: State, s: State, pc: Pc) {
    match pc
    case StoreCount => s == s0
    case StoreWord => s == s0.(failures := 0)
    case StoreBench => s == s0.(failures := 0, word := Pack(0, CLOSED))
    case Finished => s == RecordSuccess(s0)
    case _ => false
  }

  predicate AloneFail(c: Config, s0: State, now: nat, s: State, pc: Pc) {
    match pc
    case LoadWordToFail => s == s0
    case Reopen(current) => s == s0 && current == s.word && FailNext(current) == pc
    case LoadWindow(current) => current == s.word && FailNext(current) == pc && (s == s0 || Recounted(c, s0, now, s))
    case SwapWindow(current, seen) =>
      current == s.word && FailNext(current).LoadWindow? && s == s0 && seen == s.windowStart && NewWindow(c, s0, now)
    case StoreOne(current) =>
      current == s.word && FailNext(current).LoadWindow? && s == s0.(windowStart := now) && NewWindow(c, s0, now)
    case AddOne(current) =>
      current == s.word && FailNext(current).LoadWindow?
      && ((s == s0 && !NewWindow(c, s0, now)) || Recounted(c, s0, now, s))
    case Trip(current) => current == s.word && Recounted(c, s0, now, s)
    case Finished => Same(c, s, RecordFailure(c, s0, now))
    case _ => false
  }

  lemma AloneOperate(c: Config, s0: State, call: Call, s: State, pc: Pc, spurious: bool)
    requires Alone(c, s0, call, s, pc)
    ensures (var (s', pc') := Operate(c, s, Thread(call, pc), spurious);
             Alone(c, s0, call, s', pc') && (!spurious ==> Left(pc') <= Less(Left(pc), 1)))
  {
    match call
    case FailAt(now) => AloneFailOperate(c, s0, now, s, pc, spurious);
    case AskAt(now) =>
    case Success =>
    case BenchTo(_) =>
  }

  lemma AloneFailOperate(c: Config, s0: State, now: nat, s: State, pc: Pc, spurious: bool)
    requires AloneFail(c, s0, now, s, pc)
    ensures (var (s', pc') := Operate(c, s, Thread(FailAt(now), pc), spurious);
             AloneFail(c, s0, now, s', pc') && (!spurious ==> Left(pc') <= Less(Left(pc), 1)))
  {
    PackIff(now, OPEN);
  }

  /** How many atomic operations an undisturbed call has left at most. */
  function Left(pc: Pc): nat {
    match pc
    case LoadWordToFail => 5
    case LoadBench => 4
    case LoadWindow(_) => 4
    case ClearBench(_) => 3
    case SwapWindow(_, _) => 3
    case StoreCount => 3
    case LoadWordToAsk => 2
    case StoreOne(_) => 2
    case AddOne(_) => 2
    case StoreWord => 2
    case Claim(_) => 1
    case Reopen(_) => 1
    case Trip(_) => 1
    case StoreBench => 1
    case RaiseBench => 1
    case _ => 0
  }

  /** Only thread `i` acts, and it starts no further call. */
  predicate OnlyGoes(acts: seq<Act>, i: nat) {
    forall k :: 0 <= k < |acts| ==> acts[k].Go? && acts[k].thread == i
  }

  lemma {:induction false} AloneRun(c: Config, s0: State, sys: System, i: nat, acts: seq<Act>)
    requires i < |sys.threads| && Alone(c, s0, sys.threads[i].call, sys.shared, sys.threads[i].pc) && OnlyGoes(acts, i)
    ensures (var end := Run(c, sys, acts);
             && |end.threads| == |sys.threads| && end.threads[i].call == sys.threads[i].call
             && Alone(c, s0, sys.threads[i].call, end.shared, end.threads[i].pc)
             && ((forall k :: 0 <= k < |acts| ==> !acts[k].spurious) ==>
                   Left(end.threads[i].pc) <= Less(Left(sys.threads[i].pc), |acts|)))
  {
    hide Operate, Alone, Left;
    if acts != [] {
      var before, a := acts[..|acts| - 1], acts[|acts| - 1];
      AloneRun(c, s0, sys, i, before);
      var mid := Run(c, sys, before);
      AloneOperate(c, s0, sys.threads[i].call, mid.shared, mid.threads[i].pc, a.spurious);
    }
  }

  /** What a call that found the breaker at `s0` does when nobody interferes. */
  predicate Sequential(c: Config, s0: State, call: Call, s: State, pc: Pc) {
    match call
    case AskAt(now) => pc.Done? && (pc.answer, s) == Admit(c, s0, now)
    case Success => s == RecordSuccess(s0)
    case FailAt(now) => Same(c, s, RecordFailure(c, s0, now))
    case BenchTo(until) => s == BenchUntil(s0, until)
  }

  /**
   A call that runs alone does what the sequential specification says, however often its weak exchanges
   fail, up to the count of an opened breaker; five operations are enough when none fails.
   */
  lemma AloneIsSequential(c: Config, sys: System, i: nat, call: Call, acts: seq<Act>)
    requires i < |sys.threads| && AtRest(sys.threads[i].pc) && OnlyGoes(acts, i)
    ensures (var end := Run(c, Step(c, sys, Begin(i, call)), acts);
             && |end.threads| == |sys.threads|
             && (AtRest(end.threads[i].pc) ==> Sequential(c, sys.shared, call, end.shared, end.threads[i].pc))
             && (|acts| >= 5 && (forall k :: 0 <= k < |acts| ==> !acts[k].spurious) ==> AtRest(end.threads[i].pc)))
  {
    hide Run, Admit, RecordFailure, BenchUntil;
    AloneRun(c, sys.shared, Step(c, sys, Begin(i, call)), i, acts);
  }

  /** The recount is never seen: only a success closes an opened breaker, and it clears the count. */
  lemma SameAnswers(c: Config, a: State, b: State, e: Event)
    requires Same(c, a, b)
    ensures Same(c, React(c, a, e), React(c, b, e))
    ensures forall now :: Admit(c, a, now).0 == Admit(c, b, now).0
  {
    forall now
      ensures StateOf(Pack(now, HALF_OPEN)) == HALF_OPEN && StateOf(Pack(now, OPEN)) == OPEN
    {
      PackIff(now, HALF_OPEN);
      PackIff(now, OPEN);
    }
  }
}
