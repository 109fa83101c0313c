/**
 The circuit breaker of `breaker.rs` as one caller at a time sees it. Times are milliseconds of one clock.
 */
module Breaker {
  import opened Saturating

  const STAMPS: nat := 0x4000_0000_0000_0000

  const CLOSED: nat := 0
  const OPEN: nat := 1
  const HALF_OPEN: nat := 2

  datatype Admission = Yes | Probe | No

  datatype Config = Config(threshold: nat, window: nat, cooldown: nat)

  datatype State = State(word: nat, failures: nat, windowStart: nat, bench: nat)

  /** A stamp shifted left by two bits in a 64-bit word, over a state. */
  function Pack(since: nat, state: nat): nat {
    since % STAMPS * 4 + state
  }

  function Since(word: nat): nat {
    word / 4
  }

  function StateOf(word: nat): nat {
    word % 4
  }

  /** The word gives back what was packed exactly when the stamp's top two bits are clear. */
  lemma PackIff(since: nat, state: nat)
    requires state < 4
    ensures StateOf(Pack(since, state)) == state
    ensures Since(Pack(since, state)) == since <==> since < STAMPS
  {
    var m := since % STAMPS;
    assert m < STAMPS && (m == since <==> since < STAMPS);
    assert (m * 4 + state) / 4 == m;
  }

  const FRESH: State := State(Pack(0, CLOSED), 0, 0, 0)

  predicate Closed(s: State) {
    StateOf(s.word) == CLOSED
  }

  // ----- the operations, on values

  predicate IsBenched(s: State, now: nat) {
    s.bench != 0 && now < s.bench
  }

  predicate LooksHealthy(s: State, now: nat) {
    Closed(s) && !IsBenched(s, now)
  }

  function Admit(c: Config, s: State, now: nat): (Admission, State) {
    if IsBenched(s, now) then (No, s)
    else
      var s1 := s.(bench := 0);
      if Closed(s) then (Yes, s1)
      else if Less(now, Since(s.word)) < c.cooldown then (No, s1)
      else (Probe, s1.(word := Pack(now, HALF_OPEN)))
  }

  function RecordSuccess(s: State): State {
    s.(failures := 0, word := Pack(0, CLOSED), bench := 0)
  }

  /** The window and the count after one more failure of a closed breaker. */
  function Counted(c: Config, s: State, now: nat): State {
    if Less(now, s.windowStart) > c.window then s.(windowStart := now, failures := 1)
    else s.(failures := s.failures + 1)
  }

  function RecordFailure(c: Config, s: State, now: nat): State {
    if StateOf(s.word) == OPEN then s
    else if StateOf(s.word) == HALF_OPEN then s.(word := Pack(now, OPEN))
    else
      var s1 := Counted(c, s, now);
      if s1.failures < c.threshold then s1 else s1.(word := Pack(now, OPEN))
  }

  function BenchUntil(s: State, until: nat): State {
    if until > s.bench then s.(bench := until) else s
  }

  class KeyBreaker {
    var word: nat
    var failures: nat
    var windowStart: nat
    var bench: nat
    const config: Config

    constructor (c: Config)
      ensures config == c && Contents() == FRESH
    {
      config := c;
      word := Pack(0, CLOSED);
      failures := 0;
      windowStart := 0;
      bench := 0;
    }

    function Contents(): State
      reads this
    {
      State(word, failures, windowStart, bench)
    }

    function Healthy(now: nat): bool
      reads this
    {
      LooksHealthy(Contents(), now)
    }

    method BenchTo(until: nat)
      modifies this
      ensures Contents() == BenchUntil(old(Contents()), until)
    {
      if until > bench {
        bench := until;
      }
    }

    method Ask(now: nat) returns (answer: Admission)
      modifies this
      ensures (answer, Contents()) == Admit(config, old(Contents()), now)
    {
      if bench != 0 {
        if now < bench {
          return No;
        }
        bench := 0;
      }
      if StateOf(word) == CLOSED {
        return Yes;
      }
      if Less(now, Since(word)) < config.cooldown {
        return No;
      }
      word := Pack(now, HALF_OPEN);
      answer := Probe;
    }

    method Succeed()
      modifies this
      ensures Contents() == RecordSuccess(old(Contents()))
    {
      failures := 0;
      word := Pack(0, CLOSED);
      bench := 0;
    }

    method Fail(now: nat)
      modifies this
      ensures Contents() == RecordFailure(config, old(Contents()), now)
    {
      var state := StateOf(word);
      if state == OPEN {
        return;
      }
      if state == HALF_OPEN {
        word := Pack(now, OPEN);
        return;
      }
      var count;
      if Less(now, windowStart) > config.window {
        windowStart := now;
        failures := 1;
        count := 1;
      } else {
        failures := failures + 1;
        count := failures;
      }
      if count < config.threshold {
        return;
      }
      word := Pack(now, OPEN);
    }
  }

  // ----- selection's view agrees with admission

  /** A key that looks healthy is admitted as such, and one that does not is refused or probed. */
  lemma HealthyIsYes(c: Config, s: State, now: nat)
    ensures Admit(c, s, now).0 == Yes <==> LooksHealthy(s, now)
    ensures LooksHealthy(s, now) ==> LooksHealthy(Admit(c, s, now).1, now)
  {
  }

  // ----- runs

  datatype Event = Failed(at: nat) | Succeeded(at: nat) | Asked(at: nat) | Benched(at: nat, until: nat)

  function React(c: Config, s: State, e: Event): State {
    match e
    case Failed(at) => RecordFailure(c, s, at)
    case Succeeded(_) => RecordSuccess(s)
    case Asked(at) => Admit(c, s, at).1
    case Benched(_, until) => BenchUntil(s, until)
  }

  function After(c: Config, s: State, events: seq<Event>): State {
    if events == [] then s else React(c, After(c, s, events[..|events| - 1]), events[|events| - 1])
  }

  predicate Ordered(events: seq<Event>) {
    forall i, j :: 0 <= i < j < |events| ==> events[i].at <= events[j].at
  }

  /** The times of the failures since the last success. */
  function Streak(events: seq<Event>): seq<nat> {
    if events == [] then []
    else
      match events[|events| - 1]
      case Failed(at) => Streak(events[..|events| - 1]) + [at]
      case Succeeded(_) => []
      case _ => Streak(events[..|events| - 1])
  }

  function LastTime(events: seq<Event>): nat {
    if events == [] then 0 else events[|events| - 1].at
  }

  /** While closed, the count is of the streak's last failures, all within one window of its start. */
  predicate Counting(c: Config, s: State, streak: seq<nat>, now: nat) {
    && s.windowStart <= now
    && (Closed(s) ==>
          && s.failures <= |streak|
          && s.failures < c.threshold
          && (forall i :: |streak| - s.failures <= i < |streak| ==> s.windowStart <= streak[i] <= s.windowStart + c.window))
  }

  lemma {:induction false} ReactCounting(c: Config, s: State, streak: seq<nat>, now: nat, e: Event)
    requires Counting(c, s, streak, now) && now <= e.at && c.threshold >= 1
    ensures (var streak' := match e case Failed(at) => streak + [at] case Succeeded(_) => [] case _ => streak;
             && Counting(c, React(c, s, e), streak', e.at)
             && (Closed(s) && !Closed(React(c, s, e)) ==>
                   && |streak'| >= c.threshold
                   && streak'[|streak'| - 1] - streak'[|streak'| - c.threshold] <= c.window))
  {
    if e.Failed? {
      PackIff(e.at, OPEN);
      var s1 := Counted(c, s, e.at);
      if Closed(s) {
        assert s1.failures <= c.threshold;
      }
    }
    if e.Asked? {
      PackIff(e.at, HALF_OPEN);
    }
  }

  lemma {:induction false} AfterCounting(c: Config, events: seq<Event>)
    requires Ordered(events) && c.threshold >= 1
    ensures Counting(c, After(c, FRESH, events), Streak(events), LastTime(events))
  {
    hide Counting, React;
    if events == [] {
      FreshCounting(c);
    } else {
      var before, e := events[..|events| - 1], events[|events| - 1];
      AfterCounting(c, before);
      ReactCounting(c, After(c, FRESH, before), Streak(before), LastTime(before), e);
    }
  }

  lemma FreshCounting(c: Config)
    requires c.threshold >= 1
    ensures Counting(c, FRESH, [], 0)
  {
  }

  /** A closed breaker opens only at the last of `threshold` failures that no success separates, all within the window. */
  lemma {:induction false} OpensOnlyOnAStreak(c: Config, events: seq<Event>)
    requires Ordered(events) && c.threshold >= 1 && events != []
    requires Closed(After(c, FRESH, events[..|events| - 1])) && !Closed(After(c, FRESH, events))
    ensures events[|events| - 1].Failed?
    ensures (var s := Streak(events); |s| >= c.threshold && s[|s| - 1] - s[|s| - c.threshold] <= c.window)
  {
    hide Counting;
    var before, e := events[..|events| - 1], events[|events| - 1];
    AfterCounting(c, before);
    ReactCounting(c, After(c, FRESH, before), Streak(before), LastTime(before), e);
  }

  function FailuresIn(events: seq<Event>): nat {
    if events == [] then 0 else FailuresIn(events[..|events| - 1]) + (if events[|events| - 1].Failed? then 1 else 0)
  }

  predicate NoSuccess(events: seq<Event>) {
    forall i :: 0 <= i < |events| ==> !events[i].Succeeded?
  }

  /** Having seen `n` failures since `from` and still closed: at most one new window has begun. */
  predicate AtMostOneReset(c: Config, s: State, from: nat, n: nat) {
    Closed(s) ==> s.failures < c.threshold && (n <= s.failures || (s.windowStart >= from && n <= c.threshold - 1 + s.failures))
  }

  lemma ReactOneReset(c: Config, s: State, from: nat, n: nat, e: Event)
    requires AtMostOneReset(c, s, from, n) && !e.Succeeded? && from <= e.at <= from + c.window && c.threshold >= 1
    ensures AtMostOneReset(c, React(c, s, e), from, n + if e.Failed? then 1 else 0)
  {
    if e.Failed? { PackIff(e.at, OPEN); }
    if e.Asked? { PackIff(e.at, HALF_OPEN); }
  }

  lemma {:induction false} SpanOneReset(c: Config, s: State, from: nat, events: seq<Event>)
    requires c.threshold >= 1 && NoSuccess(events) && (Closed(s) ==> s.failures < c.threshold)
    requires forall i :: 0 <= i < |events| ==> from <= events[i].at <= from + c.window
    ensures AtMostOneReset(c, After(c, s, events), from, FailuresIn(events))
  {
    hide React, NoSuccess;
    if events != [] {
      var before, e := events[..|events| - 1], events[|events| - 1];
      assert NoSuccess(before) && !e.Succeeded? by {
        NoSuccessSplit(events);
      }
      SpanOneReset(c, s, from, before);
      ReactOneReset(c, After(c, s, before), from, FailuresIn(before), e);
    }
  }

  lemma NoSuccessSplit(events: seq<Event>)
    requires events != [] && NoSuccess(events)
    ensures NoSuccess(events[..|events| - 1]) && !events[|events| - 1].Succeeded?
  {
  }

  lemma {:induction false} AfterAppend(c: Config, s: State, a: seq<Event>, b: seq<Event>)
    ensures After(c, s, a + b) == After(c, After(c, s, a), b)
  {
    hide React;
    if b == [] {
      assert a + b == a;
    } else {
      AfterAppend(c, s, a, b[..|b| - 1]);
      assert (a + b)[..|a + b| - 1] == a + b[..|b| - 1];
    }
  }

  /**
   Whatever came before, 2T-1 failures within one window's length and no success among them leave the
   breaker not closed: the tumbling window sees at least half of what a sliding one would.
   */
  lemma TwiceTheThresholdOpens(c: Config, before: seq<Event>, span: seq<Event>, from: nat)
    requires c.threshold >= 1 && Ordered(before) && NoSuccess(span)
    requires forall i :: 0 <= i < |span| ==> from <= span[i].at <= from + c.window
    requires FailuresIn(span) >= 2 * c.threshold - 1
    ensures !Closed(After(c, FRESH, before + span))
  {
    hide React, After, NoSuccess, FailuresIn, Closed;
    AfterAppend(c, FRESH, before, span);
    AfterCounting(c, before);
    SpanOneReset(c, After(c, FRESH, before), from, span);
  }

  // ----- the bench, and recovery

  /** Until its deadline a bench holds, whatever is asked, fails or is benched for longer or shorter meanwhile. */
  lemma {:induction false} BenchHolds(c: Config, s: State, until: nat, events: seq<Event>, now: nat)
    requires NoSuccess(events) && now < until && forall i :: 0 <= i < |events| ==> events[i].at < until
    ensures (var later := After(c, BenchUntil(s, until), events);
             IsBenched(later, now) && Admit(c, later, now).0 == No && later.bench >= until)
  {
    hide NoSuccess;
    if events != [] {
      NoSuccessSplit(events);
      BenchHolds(c, s, until, events[..|events| - 1], now);
    }
  }

  /** A closed key is refused before the latest deadline it was given, and admitted from that deadline on. */
  lemma BenchEnds(c: Config, s: State, until: nat, now: nat)
    requires Closed(s)
    ensures Admit(c, BenchUntil(s, until), now).0 == (if now < s.bench || now < until then No else Yes)
    ensures now >= s.bench && now >= until ==> Admit(c, BenchUntil(s, until), now).1 == s.(bench := 0)
  {
  }

  /** A success forgets everything that held the key out, and the next failure is the first again. */
  lemma SuccessRecovers(c: Config, s: State, now: nat)
    ensures LooksHealthy(RecordSuccess(s), now) && Admit(c, RecordSuccess(s), now).0 == Yes
    ensures c.threshold > 1 ==> LooksHealthy(RecordFailure(c, RecordSuccess(s), now), now)
    ensures RecordFailure(c, RecordSuccess(s), now).failures == 1
  {
    PackIff(0, CLOSED);
  }

  // ----- one failure fewer is not enough

  function Failures(at: nat, n: nat): seq<Event> {
    if n == 0 then [] else Failures(at, n - 1) + [Failed(at)]
  }

  lemma {:induction false} FailuresAre(at: nat, n: nat)
    ensures |Failures(at, n)| == n == FailuresIn(Failures(at, n))
    ensures forall i :: 0 <= i < n ==> Failures(at, n)[i] == Failed(at)
  {
    if n > 0 {
      FailuresAre(at, n - 1);
      assert Failures(at, n)[..n - 1] == Failures(at, n - 1);
    }
  }

  lemma {:induction false} FailuresCount(c: Config, s: State, at: nat, n: nat)
    requires Closed(s) && s.windowStart <= at <= s.windowStart + c.window && s.failures + n < c.threshold
    ensures After(c, s, Failures(at, n)) == s.(failures := s.failures + n)
  {
    hide After, Failures;
    if n == 0 {
      NoFailures(c, s, at);
    } else {
      FailuresCount(c, s, at, n - 1);
      OneMoreFailure(c, s, at, n);
    }
  }

  lemma NoFailures(c: Config, s: State, at: nat)
    ensures Failures(at, 0) == [] && After(c, s, []) == s
  {
  }

  lemma OneMoreFailure(c: Config, s: State, at: nat, n: nat)
    requires n > 0
    ensures After(c, s, Failures(at, n)) == RecordFailure(c, After(c, s, Failures(at, n - 1)), at)
  {
    hide RecordFailure;
    FailuresAre(at, n - 1);
    assert Failures(at, n)[..n - 1] == Failures(at, n - 1);
  }

  /** 2T-2 failures within two milliseconds can leave the breaker closed, split by the start of a window. */
  lemma OneFewerMayNot(c: Config)
    requires c.threshold >= 2 && c.window >= 1
    ensures (var span := Failures(c.window, c.threshold - 1) + Failures(c.window + 1, c.threshold - 1);
             FailuresIn(span) == 2 * c.threshold - 2 && Closed(After(c, FRESH, span)))
  {
    hide After, Failures, FailuresIn, Closed, Pack;
    var n, w := c.threshold - 1, c.window;
    var a, b := Failures(w, n), Failures(w + 1, n);
    FailuresInAppend(a, b);
    FailuresAre(w, n);
    FailuresAre(w + 1, n);
    FreshClosed();
    FailuresCount(c, FRESH, w, n);
    var full := FRESH.(failures := n);
    var one := full.(failures := 1, windowStart := w + 1);
    ResetOne(c, full, w + 1);
    FailuresCount(c, one, w + 1, n - 1);
    FailuresFront(w + 1, n);
    AfterAppend(c, FRESH, a, b);
    AfterAppend(c, full, [Failed(w + 1)], Failures(w + 1, n - 1));
  }

  lemma FreshClosed()
    ensures forall f, w :: Closed(FRESH.(failures := f, windowStart := w))
    ensures FRESH.windowStart == 0 == FRESH.failures && Closed(FRESH)
  {
  }

  lemma ResetOne(c: Config, s: State, at: nat)
    requires Closed(s) && at > s.windowStart + c.window && c.threshold >= 2
    ensures After(c, s, [Failed(at)]) == s.(failures := 1, windowStart := at)
  {
    assert [Failed(at)][..0] == [];
    assert After(c, s, []) == s;
  }

  lemma FailuresFront(at: nat, n: nat)
    requires n > 0
    ensures Failures(at, n) == [Failed(at)] + Failures(at, n - 1)
  {
    FailuresAre(at, n);
    FailuresAre(at, n - 1);
  }

  lemma {:induction false} FailuresInAppend(a: seq<Event>, b: seq<Event>)
    ensures FailuresIn(a + b) == FailuresIn(a) + FailuresIn(b)
  {
    if b == [] {
      assert a + b == a;
    } else {
      FailuresInAppend(a, b[..|b| - 1]);
      assert (a + b)[..|a + b| - 1] == a + b[..|b| - 1];
    }
  }
}
