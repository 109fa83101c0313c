/**
 The same bucket under concurrency: any number of threads, one atomic operation a step, any schedule.
 */
module TokenBucketRaces {
  import opened Saturating
  import opened TokenBucket

  /** Where a call is, with what it has read so far. */
  datatype Pc =
    | Idle
    | LoadLast
    | SwapLast(last: nat)
    | LoadForCredit(credit: nat)
    | SwapCredit(credit: nat, seen: nat)
    | LoadForCall
    | SwapCall(current: nat)
    | Done(granted: bool)

  datatype Thread = Thread(call: Call, pc: Pc)

  /** The shared words, the threads, and what has gone out of the bucket since it was filled. */
  datatype State = State(bucket: Bucket, threads: seq<Thread>, consumed: nat, drained: nat, spilled: nat)

  /** One scheduled step of one thread; `spurious` makes a weak exchange fail for no reason. */
  datatype Act = Begin(thread: nat, call: Call) | Go(thread: nat, spurious: bool)

  function Start(b: Bucket, threads: nat): State {
    State(b, seq(threads, i => Thread(Consume(0, 0), Idle)), 0, 0, 0)
  }

  function At(st: State, i: nat, pc: Pc): State
    requires i < |st.threads|
  {
    st.(threads := st.threads[i := st.threads[i].(pc := pc)])
  }

  /** `refill` has just read `seen`: return, or try to exchange. */
  function CreditNext(b: Bucket, credit: nat, seen: nat): Pc {
    if Min(seen + credit, b.capacity) == seen then LoadForCall else SwapCredit(credit, seen)
  }

  /** A call has just read `current`: answer, or try to exchange. */
  function CallNext(call: Call, current: nat): Pc {
    match call
    case Consume(_, _) => if current < Need(call) then Done(false) else SwapCall(current)
    case Debit(_, _) => if Less(current, Need(call)) == current then Done(true) else SwapCall(current)
  }

  function Step(st: State, a: Act): State {
    var i := a.thread;
    if i >= |st.threads| then st
    else
      var t := st.threads[i];
      var b := st.bucket;
      match a
      case Begin(_, call) =>
        if t.pc.Idle? || t.pc.Done? then st.(threads := st.threads[i := Thread(call, LoadLast)]) else st
      case Go(_, spurious) =>
        match t.pc
        case Idle => st
        case Done(_) => st
        case LoadLast => At(st, i, if t.call.now <= b.lastRefill then LoadForCall else SwapLast(b.lastRefill))
        case SwapLast(last) =>
          if b.lastRefill != last then At(st, i, LoadForCall)
          else At(st.(bucket := b.(lastRefill := t.call.now)), i, LoadForCredit(Less(t.call.now, last) * b.rate))
        case LoadForCredit(credit) => Credit(st, i, credit)
        case SwapCredit(credit, seen) =>
          if b.available == seen && !spurious then
            var next := Min(seen + credit, b.capacity);
            At(st.(bucket := b.(available := next), spilled := st.spilled + Less(seen + credit, next)), i, LoadForCall)
          else Credit(st, i, credit)
        case LoadForCall => At(st, i, CallNext(t.call, b.available))
        case SwapCall(current) =>
          if b.available == current && !spurious then
            var next := Less(current, Need(t.call));
            var st' := At(st.(bucket := b.(available := next)), i, Done(true));
            if t.call.Consume? then st'.(consumed := st.consumed + Need(t.call))
            else st'.(drained := st.drained + (current - next))
          else At(st, i, CallNext(t.call, b.available))
  }

  /** Reading the balance with a credit in hand; a credit a full bucket cannot take is spilled. */
  function Credit(st: State, i: nat, credit: nat): State
    requires i < |st.threads|
  {
    var pc := CreditNext(st.bucket, credit, st.bucket.available);
    At(if pc.LoadForCall? then st.(spilled := st.spilled + credit) else st, i, pc)
  }

  function Run(st: State, acts: seq<Act>): State
    decreases |acts|
  {
    if acts == [] then st else Run(Step(st, acts[0]), acts[1..])
  }

  // ----- credit is conserved

  /** Credit a thread has claimed and not yet added. */
  function Claim(t: Thread): nat {
    match t.pc
    case LoadForCredit(credit) => credit
    case SwapCredit(credit, _) => credit
    case _ => 0
  }

  function Claimed(ts: seq<Thread>): nat {
    if ts == [] then 0 else Claim(ts[0]) + Claimed(ts[1..])
  }

  lemma {:induction false} ClaimedUpdate(ts: seq<Thread>, i: nat, t: Thread)
    requires i < |ts|
    ensures Claimed(ts[i := t]) == Claimed(ts) - Claim(ts[i]) + Claim(t)
  {
    if i == 0 {
      assert ts[0 := t][1..] == ts[1..];
    } else {
      ClaimedUpdate(ts[1..], i - 1, t);
      assert ts[i := t][1..] == ts[1..][i - 1 := t];
    }
  }

  lemma {:induction false} NothingClaimed(n: nat)
    ensures Claimed(seq(n, i => Thread(Consume(0, 0), Idle))) == 0
  {
    if n > 0 {
      var ts := seq(n, i => Thread(Consume(0, 0), Idle));
      NothingClaimed(n - 1);
      assert ts[1..] == seq(n - 1, i => Thread(Consume(0, 0), Idle));
    }
  }

  /** Everything the bucket ever held or was promised, and where it is now. */
  function Accounted(st: State): int {
    st.consumed + st.drained + st.spilled + st.bucket.available + Claimed(st.threads)
  }

  /** What a thread has read is consistent with what it is about to write. */
  predicate Sane(c: Config, t: Thread) {
    match t.pc
    case SwapLast(last) => last < t.call.now
    case SwapCredit(credit, seen) => seen + credit >= Min(seen + credit, c.capacity) > seen
    case SwapCall(current) => t.call.Consume? ==> Need(t.call) <= current
    case _ => true
  }

  datatype Config = Config(capacity: nat, rate: nat)

  ghost predicate Inv(c: Config, st: State) {
    && st.bucket.capacity == c.capacity && st.bucket.rate == c.rate
    && st.bucket.available <= c.capacity
    && (forall i :: 0 <= i < |st.threads| ==> Sane(c, st.threads[i]))
  }

  /** A step changes its own thread alone, and leaves that thread sane. */
  lemma StepOne(c: Config, st: State, a: Act)
    requires Inv(c, st)
    ensures (var (i, st') := (a.thread, Step(st, a));
             && |st'.threads| == |st.threads|
             && (i < |st.threads| ==> Sane(c, st'.threads[i]) && st'.threads == st.threads[i := st'.threads[i]])
             && (i >= |st.threads| ==> st' == st))
  {
  }

  lemma StepBucket(c: Config, st: State, a: Act)
    requires Inv(c, st)
    ensures (var (b, b') := (st.bucket, Step(st, a).bucket);
             && b'.capacity == b.capacity && b'.rate == b.rate
             && b'.available <= c.capacity && b'.lastRefill >= b.lastRefill)
  {
  }

  lemma StepInv(c: Config, st: State, a: Act)
    requires Inv(c, st)
    ensures Inv(c, Step(st, a)) && Step(st, a).bucket.lastRefill >= st.bucket.lastRefill
  {
    hide Step, Sane;
    StepOne(c, st, a);
    StepBucket(c, st, a);
  }

  /** What a step moves, between the words and its own thread's claim. */
  lemma StepMoves(c: Config, st: State, a: Act)
    requires Inv(c, st) && a.thread < |st.threads|
    ensures (var st', i := Step(st, a), a.thread;
             && |st'.threads| == |st.threads|
             && st'.consumed + st'.drained + st'.spilled + st'.bucket.available + Claim(st'.threads[i])
                - (st.consumed + st.drained + st.spilled + st.bucket.available + Claim(st.threads[i]))
                == c.rate * (st'.bucket.lastRefill - st.bucket.lastRefill))
  {
  }

  /** Time that passes is the only source of credit, and every step accounts for all of it. */
  lemma StepConserves(c: Config, st: State, a: Act)
    requires Inv(c, st)
    ensures Accounted(Step(st, a)) - Accounted(st) == c.rate * (Step(st, a).bucket.lastRefill - st.bucket.lastRefill)
  {
    hide Claimed, Step, Claim, Inv;
    var i := a.thread;
    StepOne(c, st, a);
    if i < |st.threads| {
      ClaimedUpdate(st.threads, i, Step(st, a).threads[i]);
      StepMoves(c, st, a);
    }
  }

  lemma {:induction false} RunConserves(c: Config, st: State, acts: seq<Act>)
    requires Inv(c, st)
    ensures Inv(c, Run(st, acts)) && Run(st, acts).bucket.lastRefill >= st.bucket.lastRefill
    ensures Accounted(Run(st, acts)) - Accounted(st) == c.rate * (Run(st, acts).bucket.lastRefill - st.bucket.lastRefill)
    decreases |acts|
  {
    hide Step, Accounted, Inv;
    if acts != [] {
      StepInv(c, st, acts[0]);
      StepConserves(c, st, acts[0]);
      RunConserves(c, Step(st, acts[0]), acts[1..]);
      var a, b, d := st.bucket.lastRefill, Step(st, acts[0]).bucket.lastRefill, Run(st, acts).bucket.lastRefill;
      Telescope(c.rate, a, b, d);
    }
  }
  lemma StartInv(c: Config, tokens: nat, perSecond: nat, threads: nat)
    requires c == Config(tokens * 1000, perSecond)
    ensures (var st := Start(FromTokens(tokens, perSecond), threads);
             Inv(c, st) && Accounted(st) == c.capacity && st.bucket.lastRefill == 0)
  {
    NothingClaimed(threads);
  }

  /**
   On every schedule, what has been consumed, drained and spilled, what is left and what is claimed but
   not yet added make up exactly the capacity and what has accrued.
   */
  lemma EverySchedule(tokens: nat, perSecond: nat, threads: nat, acts: seq<Act>)
    ensures (var st := Run(Start(FromTokens(tokens, perSecond), threads), acts);
             && st.consumed + st.drained + st.spilled + st.bucket.available + Claimed(st.threads)
                == tokens * 1000 + perSecond * st.bucket.lastRefill
             && st.bucket.available <= tokens * 1000)
  {
    hide Start, Run;
    var c := Config(tokens * 1000, perSecond);
    var start := Start(FromTokens(tokens, perSecond), threads);
    StartInv(c, tokens, perSecond, threads);
    RunConserves(c, start, acts);
  }

  /** Between any two moments no more is consumed than was there or claimed, and what accrued meanwhile. */
  lemma AnyTwoMoments(c: Config, st: State, acts: seq<Act>)
    requires Inv(c, st)
    ensures (var later := Run(st, acts);
             later.consumed - st.consumed
             <= st.bucket.available + Claimed(st.threads) + c.rate * (later.bucket.lastRefill - st.bucket.lastRefill))
  {
    RunConserves(c, st, acts);
    RunOnlyAdds(st, acts);
  }

  lemma {:induction false} RunOnlyAdds(st: State, acts: seq<Act>)
    ensures (var later := Run(st, acts);
             later.consumed >= st.consumed && later.drained >= st.drained && later.spilled >= st.spilled)
    decreases |acts|
  {
    hide Step;
    if acts != [] {
      StepOnlyAdds(st, acts[0]);
      RunOnlyAdds(Step(st, acts[0]), acts[1..]);
    }
  }

  lemma StepOnlyAdds(st: State, a: Act)
    ensures (var later := Step(st, a);
             later.consumed >= st.consumed && later.drained >= st.drained && later.spilled >= st.spilled)
  {
  }

  /**
   Credit is lost only to a full bucket. The step that ends a call takes its price, a thousand millitokens for each
   token: a grant from a balance that had it, a debit as much of it as was there; a refusal had found less.
   */
  lemma StepIsExact(c: Config, st: State, a: Act)
    requires Inv(c, st)
    ensures (var later := Step(st, a);
             && (later.spilled != st.spilled ==> later.bucket.available == c.capacity)
             && (later.consumed != st.consumed ==>
                   var call := st.threads[a.thread].call;
                   && later.threads[a.thread].pc == Done(true)
                   && later.consumed == st.consumed + call.tokens * 1000
                   && later.bucket.available == st.bucket.available - call.tokens * 1000))
    ensures a.Go? && a.thread < |st.threads| && (st.threads[a.thread].pc.LoadForCall? || st.threads[a.thread].pc.SwapCall?) ==>
              (var later := Step(st, a);
               var call := st.threads[a.thread].call;
               var taken := Min(st.bucket.available, call.tokens * 1000);
               match later.threads[a.thread].pc
               case Done(true) =>
                 && later.bucket.available == st.bucket.available - taken
                 && later.consumed == st.consumed + (if call.Consume? then call.tokens * 1000 else 0)
                 && later.drained == st.drained + (if call.Debit? then taken else 0)
               case Done(false) => call.Consume? && st.bucket.available < call.tokens * 1000 && later.bucket == st.bucket
               case _ => later.bucket == st.bucket && later.consumed == st.consumed && later.drained == st.drained)
  {
  }

  /** An exchange that fails for no reason moves no credit. */
  lemma SpuriousIsHarmless(st: State, i: nat)
    requires i < |st.threads| && (st.threads[i].pc.SwapCredit? || st.threads[i].pc.SwapCall?)
    ensures (var later := Step(st, Go(i, true));
             later.bucket == st.bucket && later.consumed == st.consumed && later.drained == st.drained)
  {
  }

  // ----- a copy taken meanwhile

  /** What `clone_state` makes: the balance as one moment has it, the refill time as a later one does. */
  function Copied(first: State, second: State): Bucket {
    first.bucket.(lastRefill := second.bucket.lastRefill)
  }

  /**
   A copy taken while a schedule runs is never overfull and, with what had gone out when its balance was read,
   never above the capacity and what had accrued by its refill time. Against the original at its second read it
   holds again exactly what went out or was claimed in between, and lacks what accrued in between.
   */
  lemma CopyHolds(tokens: nat, perSecond: nat, threads: nat, before: seq<Act>, between: seq<Act>)
    ensures (var first := Run(Start(FromTokens(tokens, perSecond), threads), before);
             var second := Run(first, between);
             var copy := Copied(first, second);
             && copy.available <= copy.capacity == tokens * 1000
             && copy.available == first.bucket.available && copy.lastRefill == second.bucket.lastRefill
             && first.consumed + first.drained + copy.available <= tokens * 1000 + perSecond * copy.lastRefill
             && copy.available
                == second.bucket.available
                   + (second.consumed - first.consumed) + (second.drained - first.drained) + (second.spilled - first.spilled)
                   + (Claimed(second.threads) - Claimed(first.threads))
                   - perSecond * (second.bucket.lastRefill - first.bucket.lastRefill))
  {
    hide Start, Run, FromTokens;
    var c := Config(tokens * 1000, perSecond);
    var start := Start(FromTokens(tokens, perSecond), threads);
    StartInv(c, tokens, perSecond, threads);
    RunConserves(c, start, before);
    var first := Run(start, before);
    RunConserves(c, first, between);
    RateGrows(perSecond, first.bucket.lastRefill, Run(first, between).bucket.lastRefill);
  }

  /** What goes out between the two reads can be granted twice: the original has spent it and the copy still has it. */
  lemma GrantedTwice(tokens: nat)
    requires tokens > 0
    ensures (var first := Start(FromTokens(tokens, 0), 1);
             var take := [Begin(0, Consume(tokens, 0)), Go(0, false), Go(0, false), Go(0, false)];
             var second := Run(first, take);
             && second.consumed == tokens * 1000
             && Answer(Copied(first, second), Consume(tokens, 0)).0)
  {
    var call := Consume(tokens, 0);
    var first := Start(FromTokens(tokens, 0), 1);
    var begun := Step(first, Begin(0, call));
    assert begun == first.(threads := [Thread(call, LoadLast)]);
    var read := Step(begun, Go(0, false));
    assert read == first.(threads := [Thread(call, LoadForCall)]);
    assert Step(read, Go(0, false)) == first.(threads := [Thread(call, SwapCall(tokens * 1000))]);
    RunFour(first, [Begin(0, call), Go(0, false), Go(0, false), Go(0, false)]);
  }

  lemma RunFour(st: State, acts: seq<Act>)
    requires |acts| == 4
    ensures Run(st, acts) == Step(Step(Step(Step(st, acts[0]), acts[1]), acts[2]), acts[3])
  {
    hide Step;
    var one := Step(st, acts[0]);
    var two := Step(one, acts[1]);
    var three := Step(two, acts[2]);
    assert acts[1..][1..] == acts[2..] && acts[2..][1..] == acts[3..] && acts[3..][1..] == [];
    assert Run(three, acts[3..]) == Run(Step(three, acts[3]), []);
    assert Run(two, acts[2..]) == Run(three, acts[3..]);
    assert Run(one, acts[1..]) == Run(two, acts[2..]);
  }

  // ----- a call that runs alone

  /** Where a call that nobody disturbs has got to, having found the bucket at `b`. */
  predicate Alone(b: Bucket, call: Call, now: Bucket, pc: Pc) {
    match pc
    case Idle => false
    case LoadLast => now == b
    case SwapLast(last) => now == b && last == b.lastRefill < call.now
    case LoadForCredit(credit) => Half(b, call, now, credit)
    case SwapCredit(credit, seen) => Half(b, call, now, credit) && seen == b.available
    case LoadForCall => now == Credited(b, call.now)
    case SwapCall(current) =>
      now == Credited(b, call.now) && current == now.available && (call.Consume? ==> Need(call) <= current)
    case Done(granted) => (granted, now) == Answer(b, call)
  }

  /** The interval is claimed but its credit not yet added. */
  predicate Half(b: Bucket, call: Call, now: Bucket, credit: nat) {
    now == b.(lastRefill := call.now) && b.lastRefill < call.now && credit == (call.now - b.lastRefill) * b.rate
  }

  /** Only thread `i` acts, and it starts no further call. */
  predicate OnlyGoes(acts: seq<Act>, i: nat) {
    forall k :: 0 <= k < |acts| ==> acts[k].Go? && acts[k].thread == i
  }

  lemma AloneStep(b: Bucket, st: State, i: nat, spurious: bool)
    requires i < |st.threads| && Alone(b, st.threads[i].call, st.bucket, st.threads[i].pc)
    ensures (var st' := Step(st, Go(i, spurious));
             && |st'.threads| == |st.threads| && st'.threads[i].call == st.threads[i].call
             && Alone(b, st'.threads[i].call, st'.bucket, st'.threads[i].pc)
             && (!spurious ==> Left(st'.threads[i].pc) <= Less(Left(st.threads[i].pc), 1)))
  {
  }

  /** How many atomic operations an undisturbed call has left at most. */
  function Left(pc: Pc): nat {
    match pc
    case Idle => 0
    case LoadLast => 6
    case SwapLast(_) => 5
    case LoadForCredit(_) => 4
    case SwapCredit(_, _) => 3
    case LoadForCall => 2
    case SwapCall(_) => 1
    case Done(_) => 0
  }

  lemma {:induction false} AloneRun(b: Bucket, st: State, i: nat, acts: seq<Act>)
    requires i < |st.threads| && Alone(b, st.threads[i].call, st.bucket, st.threads[i].pc) && OnlyGoes(acts, i)
    ensures (var st' := Run(st, acts);
             && |st'.threads| == |st.threads| && st'.threads[i].call == st.threads[i].call
             && Alone(b, st'.threads[i].call, st'.bucket, st'.threads[i].pc)
             && ((forall k :: 0 <= k < |acts| ==> !acts[k].spurious) ==>
                   Left(st'.threads[i].pc) <= Less(Left(st.threads[i].pc), |acts|)))
    decreases |acts|
  {
    hide Step, Alone, Left;
    if acts != [] {
      AloneStep(b, st, i, acts[0].spurious);
      AloneRun(b, Step(st, acts[0]), i, acts[1..]);
    }
  }

  /**
   A call that runs alone, however often its weak exchanges fail, answers and leaves the bucket as the
   sequential specification says, and six operations are enough when none fails.
   */
  lemma AloneIsSequential(st: State, i: nat, call: Call, acts: seq<Act>)
    requires i < |st.threads| && (st.threads[i].pc.Idle? || st.threads[i].pc.Done?) && OnlyGoes(acts, i)
    ensures (var st' := Run(Step(st, Begin(i, call)), acts);
             && |st'.threads| == |st.threads|
             && (st'.threads[i].pc.Done? ==> (st'.threads[i].pc.granted, st'.bucket) == Answer(st.bucket, call))
             && (|acts| >= 6 && (forall k :: 0 <= k < |acts| ==> !acts[k].spurious) ==> st'.threads[i].pc.Done?))
  {
    hide Run, Answer;
    AloneRun(st.bucket, Step(st, Begin(i, call)), i, acts);
  }
}
