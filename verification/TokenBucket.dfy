/**
 The token bucket of `token_bucket.rs` as one caller at a time sees it. Amounts are millitokens;
 a clock reading is in milliseconds.
 */
module TokenBucket {
  import opened Saturating

  const U64_MAX: nat := 0xFFFF_FFFF_FFFF_FFFF

  datatype Bucket = Bucket(available: nat, lastRefill: nat, capacity: nat, rate: nat)

  /** The whole tokens a bucket holds, `available_tokens`. */
  function Tokens(b: Bucket): nat {
    b.available / 1000
  }

  function FromTokens(capacity: nat, perSecond: nat): Bucket {
    Bucket(capacity * 1000, 0, capacity * 1000, perSecond)
  }

  /** At this reading no 64-bit product or sum below leaves its range. */
  predicate Fits(b: Bucket, now: nat) {
    b.available <= b.capacity && b.capacity + b.rate * now <= U64_MAX
  }

  function Credited(b: Bucket, now: nat): Bucket {
    if now <= b.lastRefill then b
    else b.(available := Min(b.available + (now - b.lastRefill) * b.rate, b.capacity), lastRefill := now)
  }

  datatype Call = Consume(tokens: nat, now: nat) | Debit(tokens: nat, now: nat)

  function Need(call: Call): nat {
    call.tokens * 1000
  }

  /** Whether the call is granted, and the bucket after it. A debit is always granted. */
  function Answer(b: Bucket, call: Call): (bool, Bucket) {
    var b1 := Credited(b, call.now);
    match call
    case Consume(_, _) => if b1.available < Need(call) then (false, b1) else (true, b1.(available := b1.available - Need(call)))
    case Debit(_, _) => (true, b1.(available := Less(b1.available, Need(call))))
  }

  lemma CreditFits(b: Bucket, now: nat)
    requires Fits(b, now) && now > b.lastRefill
    ensures b.available + (now - b.lastRefill) * b.rate <= U64_MAX
  {
    Spread(b.rate, b.lastRefill, now);
  }

  lemma Spread(rate: nat, s: nat, t: nat)
    requires s <= t
    ensures (t - s) * rate == rate * t - rate * s >= 0
  {
  }

  class LimiterBucket {
    var available: nat
    var lastRefill: nat
    const capacity: nat
    const rate: nat

    /** Starts full. */
    constructor (tokens: nat, perSecond: nat)
      ensures Contents() == FromTokens(tokens, perSecond)
    {
      available := tokens * 1000;
      lastRefill := 0;
      capacity := tokens * 1000;
      rate := perSecond;
    }

    constructor Restore(available: nat, lastRefill: nat, capacity: nat, rate: nat)
      ensures Contents() == Bucket(available, lastRefill, capacity, rate)
    {
      this.available := available;
      this.lastRefill := lastRefill;
      this.capacity := capacity;
      this.rate := rate;
    }

    function Contents(): Bucket
      reads this
    {
      Bucket(available, lastRefill, capacity, rate)
    }

    method Refill(now: nat)
      requires Fits(Contents(), now)
      modifies this
      ensures Contents() == Credited(old(Contents()), now)
    {
      var last := lastRefill;
      if now <= last {
        return;
      }
      CreditFits(Contents(), now);
      lastRefill := now;
      var credit := Min((now - last) * rate, U64_MAX);
      var next := Min(available + credit, capacity);
      if next == available {
        return;
      }
      available := next;
    }

    method TryConsume(tokens: nat, now: nat) returns (granted: bool)
      requires Fits(Contents(), now) && tokens * 1000 <= U64_MAX
      modifies this
      ensures (granted, Contents()) == Answer(old(Contents()), Consume(tokens, now))
    {
      Refill(now);
      var need := tokens * 1000;
      if available < need {
        return false;
      }
      available := available - need;
      granted := true;
    }

    /** A debit settled after the fact; it stops at zero. */
    method DebitSaturating(tokens: nat, now: nat)
      requires Fits(Contents(), now)
      modifies this
      ensures (true, Contents()) == Answer(old(Contents()), Debit(tokens, now))
    {
      Refill(now);
      var need := Min(tokens * 1000, U64_MAX);
      var next := Less(available, need);
      if next == available {
        return;
      }
      available := next;
    }

    method CloneState() returns (copy: LimiterBucket)
      ensures fresh(copy) && copy.Contents() == Contents()
    {
      copy := new LimiterBucket.Restore(available, lastRefill, capacity, rate);
    }  }

  // ----- any window of calls

  /** A sequence of calls, its answers, and the bucket at the end. */
  function Answers(b: Bucket, calls: seq<Call>): (seq<bool>, Bucket)
    decreases |calls|
  {
    if calls == [] then ([], b)
    else
      var (granted, b1) := Answer(b, calls[0]);
      var (more, last) := Answers(b1, calls[1..]);
      ([granted] + more, last)
  }

  /** The millitokens granted to takers. */
  function Granted(b: Bucket, calls: seq<Call>): nat
    decreases |calls|
  {
    if calls == [] then 0
    else
      var (granted, b1) := Answer(b, calls[0]);
      (if granted && calls[0].Consume? then calls[0].tokens * 1000 else 0) + Granted(b1, calls[1..])
  }

  predicate Within(calls: seq<Call>, s: nat, t: nat) {
    forall i :: 0 <= i < |calls| ==> s <= calls[i].now <= t
  }

  lemma CreditBound(b: Bucket, now: nat)
    ensures (var b1 := Credited(b, now);
             && b1.lastRefill == (if now <= b.lastRefill then b.lastRefill else now)
             && b1.available <= b.available + b.rate * (b1.lastRefill - b.lastRefill)
             && (b.available <= b.capacity ==> b1.available <= b.capacity)
             && b1.capacity == b.capacity && b1.rate == b.rate)
  {
  }

  lemma AnswerBound(b: Bucket, call: Call)
    ensures (var b1 := Credited(b, call.now);
             var (granted, b2) := Answer(b, call);
             && b2.lastRefill == b1.lastRefill && b2.capacity == b.capacity && b2.rate == b.rate
             && (if granted && call.Consume? then call.tokens * 1000 else 0) + b2.available <= b1.available)
  {
  }

  /** What is granted up to time `t` is covered by the balance and the credit still to come. */
  lemma {:induction false} BalanceCovers(b: Bucket, calls: seq<Call>, t: nat)
    requires forall i :: 0 <= i < |calls| ==> calls[i].now <= t
    ensures Granted(b, calls) <= b.available + b.rate * Less(t, b.lastRefill)
    decreases |calls|
  {
    hide Answer, Credited;
    if calls != [] {
      var b1 := Credited(b, calls[0].now);
      var b2 := Answer(b, calls[0]).1;
      CreditBound(b, calls[0].now);
      AnswerBound(b, calls[0]);
      BalanceCovers(b2, calls[1..], t);
      if t <= b.lastRefill {
        assert b1.lastRefill == b.lastRefill;
      } else {
        assert b1.lastRefill <= t;
        Telescope(b.rate, b.lastRefill, b1.lastRefill, t);
      }
    } else {
      assert b.rate * Less(t, b.lastRefill) >= 0;
    }
  }

  lemma Telescope(rate: nat, a: nat, b: nat, c: nat)
    requires a <= b <= c
    ensures rate * (b - a) + rate * (c - b) == rate * (c - a)
  {
  }

  lemma RateGrows(rate: nat, a: nat, b: nat)
    requires a <= b
    ensures rate * a <= rate * b
  {
    assert rate * b == rate * a + rate * (b - a);
  }

  /**
   No run of calls timed within [s, t] is granted more than the capacity and what accrues from s to t,
   whatever came before and whatever order their clock readings have.
   */
  lemma WindowBound(b: Bucket, calls: seq<Call>, s: nat, t: nat)
    requires b.available <= b.capacity && s <= t && Within(calls, s, t)
    ensures Granted(b, calls) <= b.capacity + b.rate * (t - s)
  {
    hide Answer, Credited;
    RateGrows(b.rate, 0, t - s);
    if calls != [] {
      var b2 := Answer(b, calls[0]).1;
      CreditBound(b, calls[0].now);
      AnswerBound(b, calls[0]);
      BalanceCovers(b2, calls[1..], t);
      RateGrows(b.rate, Less(t, b2.lastRefill), t - s);
    }
  }

  /** The bound is reached: a full bucket empties at s, and what accrues by t is granted again. */
  lemma WindowBoundReached(tokens: nat, rate: nat, s: nat, t: nat, accrued: nat)
    requires s <= t && rate * (t - s) == accrued * 1000 && accrued <= tokens
    ensures (var b := FromTokens(tokens, rate);
             Granted(b, [Consume(tokens, s), Consume(accrued, t)]) == b.capacity + rate * (t - s))
  {
    var b := FromTokens(tokens, rate);
    var first, second := Consume(tokens, s), Consume(accrued, t);
    var b2 := Answer(b, first).1;
    assert b2 == Bucket(0, s, b.capacity, rate) by {
      assert s > 0 ==> (s - 0) * rate >= 0;
    }
    assert Answer(b2, second).0 by {
      if t > s { assert (t - s) * rate == accrued * 1000; }
    }
    assert [first, second][1..] == [second] && [second][1..] == [];
    assert Granted(b2, [second]) == accrued * 1000 + Granted(Answer(b2, second).1, []);
  }

  // ----- polls

  predicate IsPoll(call: Call) {
    call.Consume? && call.tokens == 0
  }

  predicate Ordered(calls: seq<Call>) {
    forall i, j :: 0 <= i < j < |calls| ==> calls[i].now <= calls[j].now
  }

  /** The calls that are not polls. */
  function Payers(calls: seq<Call>): seq<Call> {
    if calls == [] then [] else (if IsPoll(calls[0]) then [] else [calls[0]]) + Payers(calls[1..])
  }

  /** The answers to the calls that are not polls. */
  function PayersAnswers(b: Bucket, calls: seq<Call>): seq<bool>
    decreases |calls|
  {
    if calls == [] then []
    else
      var (granted, b1) := Answer(b, calls[0]);
      (if IsPoll(calls[0]) then [] else [granted]) + PayersAnswers(b1, calls[1..])
  }

  lemma CreditTwice(b: Bucket, n: nat, m: nat)
    requires n <= m && b.available <= b.capacity
    ensures Credited(Credited(b, n), m) == Credited(b, m)
  {
    if n > b.lastRefill {
      Telescope(b.rate, b.lastRefill, n, m);
    }
  }

  /** Crediting up to a time no later than any of the calls changes no answer. */
  lemma {:induction false} EarlyCredit(b: Bucket, n: nat, calls: seq<Call>)
    requires b.available <= b.capacity && Ordered(calls)
    requires forall i :: 0 <= i < |calls| ==> n <= calls[i].now
    ensures Answers(Credited(b, n), calls).0 == Answers(b, calls).0
    ensures calls != [] ==> Answers(Credited(b, n), calls).1 == Answers(b, calls).1
  {
    hide Credited;
    if calls != [] {
      CreditTwice(b, n, calls[0].now);
    }
  }

  lemma AnswersFront(b: Bucket, call: Call, rest: seq<Call>)
    ensures Answers(b, [call] + rest).0 == [Answer(b, call).0] + Answers(Answer(b, call).1, rest).0
  {
    assert ([call] + rest)[1..] == rest;
  }

  lemma {:induction false} PayersLater(calls: seq<Call>, n: nat)
    requires Ordered(calls) && forall i :: 0 <= i < |calls| ==> n <= calls[i].now
    ensures Ordered(Payers(calls)) && forall i :: 0 <= i < |Payers(calls)| ==> n <= Payers(calls)[i].now
  {
    if calls != [] {
      PayersLater(calls[1..], calls[0].now);
    }
  }

  /** With a clock that never goes back, polling the bucket changes no other caller's answer. */
  lemma {:induction false} PollsDoNotMatter(b: Bucket, calls: seq<Call>)
    requires b.available <= b.capacity && Ordered(calls)
    ensures PayersAnswers(b, calls) == Answers(b, Payers(calls)).0
    decreases |calls|
  {
    hide Answer, Answers;
    if calls == [] {
      NoAnswers(b);
    } else {
      var call, rest := calls[0], calls[1..];
      var b1 := Answer(b, call).1;
      CreditBound(b, call.now);
      AnswerBound(b, call);
      PollsDoNotMatter(b1, rest);
      PayersLater(rest, call.now);
      if IsPoll(call) {
        PollCredits(b, call);
        EarlyCredit(b, call.now, Payers(rest));
        assert [] + Payers(rest) == Payers(rest);
        assert [] + PayersAnswers(b1, rest) == PayersAnswers(b1, rest);
      } else {
        AnswersFront(b, call, Payers(rest));
      }
    }
  }

  lemma NoAnswers(b: Bucket)
    ensures Answers(b, []) == ([], b)
  {
  }

  lemma PollCredits(b: Bucket, call: Call)
    requires IsPoll(call)
    ensures Answer(b, call) == (true, Credited(b, call.now))
  {
  }

  /**
   A debit counts against the next request as a grant would: right after it, a request is granted exactly when the
   balance holds both, a thousand millitokens for each token.
   */
  lemma DebitIsFelt(b: Bucket, debited: nat, tokens: nat, now: nat)
    requires tokens > 0
    ensures Answer(Answer(b, Debit(debited, now)).1, Consume(tokens, now)).0
       <==> (tokens + debited) * 1000 <= Credited(b, now).available
    ensures Answer(b, Consume(tokens, now)).0 <==> tokens * 1000 <= Credited(b, now).available
  {
  }

  /** Polling to look is the same as trying: one token is granted exactly when a poll then shows one. */
  lemma PollTells(b: Bucket, now: nat)
    ensures Answer(b, Consume(1, now)).0 <==> Tokens(Answer(b, Consume(0, now)).1) > 0
  {
  }
}
