/**
 `OpenAiToGeminiStream` of `gemini.rs`: tool calls arrive in fragments and leave whole, the moment
 their arguments are complete JSON.
 */
module Gemini {
  import opened Wrappers
  import opened Bytes
  import opened JsonGrammar
  import opened JsonScan
  import opened JsonAgreement
  import opened JsonParse
  import opened JsonReading
  import opened OpenAiChunks
  import Ascending

  datatype GeminiFinish = MaxTokens | Safety | Stop

  datatype Part = TextPart(text: bytes) | FunctionCall(name: bytes, args: Json)

  datatype GeminiChunk = GeminiChunk(model: Option<bytes>, parts: seq<Part>, finish: Option<GeminiFinish>, usage: Option<Usage>)

  /** A call being assembled: its name so far (empty until named) and its argument text so far. */
  datatype Pending = Pending(name: bytes, args: bytes)

  /** A call that was sent on, with the index it was assembled under. */
  datatype Emission = Emission(index: nat, name: bytes, args: Json)

  // ----- what the translator does, on values

  function NameOf(p: map<nat, Pending>, i: nat): bytes {
    if i in p then p[i].name else []
  }

  function ArgsOf(p: map<nat, Pending>, i: nat): bytes {
    if i in p then p[i].args else []
  }

  function AbsorbCall(p: map<nat, Pending>, c: CallDelta): map<nat, Pending> {
    var i := IndexOf(c);
    p[i := Pending(c.name.GetOr(NameOf(p, i)), ArgsOf(p, i) + c.arguments.GetOr([]))]
  }

  function Absorb(p: map<nat, Pending>, calls: seq<CallDelta>): map<nat, Pending> {
    if calls == [] then p else AbsorbCall(Absorb(p, calls[..|calls| - 1]), calls[|calls| - 1])
  }

  /**
   The value a pending call can leave with. Blank text never parses, so the wider whitespace that `trim`
   removes changes nothing.
   */
  function Ready(p: Pending): Option<Json> {
    if p.name == [] || AllWs(p.args) then None else Parse(p.args)
  }

  function EmitIfReady(p: map<nat, Pending>, emitted: set<nat>, i: nat): seq<Emission> {
    if i in p && i !in emitted && Ready(p[i]).Some? then [Emission(i, p[i].name, Ready(p[i]).value)] else []
  }

  /** One pass over the pending calls, in the order `order`: what leaves, and which calls have left. */
  function Flush(p: map<nat, Pending>, emitted: set<nat>, order: seq<nat>): (seq<Emission>, set<nat>) {
    if order == [] then ([], emitted)
    else
      var (out, done) := Flush(p, emitted, order[..|order| - 1]);
      var e := EmitIfReady(p, done, order[|order| - 1]);
      (out + e, if e == [] then done else done + {order[|order| - 1]})
  }

  datatype State = State(pending: map<nat, Pending>, emitted: set<nat>)

  function Step(st: State, calls: seq<CallDelta>): (State, seq<Emission>) {
    var p := Absorb(st.pending, calls);
    var (out, done) := Flush(p, st.emitted, Ascending.Order(p.Keys));
    (State(p, done), out)
  }

  const START := State(map[], {})

  /** A whole stream, from a fresh translator. */
  function Run(chunks: seq<seq<CallDelta>>): (State, seq<Emission>) {
    if chunks == [] then (START, [])
    else
      var (st, out) := Run(chunks[..|chunks| - 1]);
      var (st', more) := Step(st, chunks[|chunks| - 1]);
      (st', out + more)
  }

  function AsParts(es: seq<Emission>): seq<Part> {
    if es == [] then [] else AsParts(es[..|es| - 1]) + [FunctionCall(es[|es| - 1].name, es[|es| - 1].args)]
  }

  function FinishOf(f: Finish): GeminiFinish {
    match f
    case Length => MaxTokens
    case ContentFilter => Safety
    case _ => GeminiFinish.Stop
  }

  function Translated(chunk: Chunk, calls: seq<Part>): Option<GeminiChunk> {
    var text := if chunk.content.Some? && chunk.content.value != [] then [TextPart(chunk.content.value)] else [];
    if text + calls == [] && chunk.finish.None? then None
    else if chunk.finish.None? then Some(GeminiChunk(chunk.model, text + calls, None, None))
    else Some(GeminiChunk(chunk.model, text + calls, Some(FinishOf(chunk.finish.value)), chunk.usage))
  }

  // ----- the translator

  class OpenAiToGeminiStream {
    var pending: map<nat, Pending>
    var emitted: set<nat>

    constructor ()
      ensures Contents() == START
    {
      pending := map[];
      emitted := {};
    }

    function Contents(): State
      reads this
    {
      State(pending, emitted)
    }

    method OnChunk(chunk: Chunk) returns (out: Option<GeminiChunk>)
      modifies this
      ensures Contents() == Step(old(Contents()), chunk.calls).0
      ensures out == Translated(chunk, AsParts(Step(old(Contents()), chunk.calls).1))
    {
      hide Absorb, Flush, AsParts;
      var parts := [];
      if chunk.content.Some? && chunk.content.value != [] {
        parts := parts + [TextPart(chunk.content.value)];
      }
      AbsorbCalls(chunk.calls);
      var flushed := FlushCompleteCalls();
      assert flushed == AsParts(Step(old(Contents()), chunk.calls).1);
      ghost var text := if chunk.content.Some? && chunk.content.value != [] then [TextPart(chunk.content.value)] else [];
      assert parts == text;
      parts := parts + flushed;
      var finish := if chunk.finish.Some? then Some(FinishOf(chunk.finish.value)) else None;
      if parts == [] && finish == None {
        return None;
      }
      out := Some(GeminiChunk(chunk.model, parts, finish, if finish.Some? then chunk.usage else None));
    }

    /** Append every fragment of a chunk to the call it belongs to. */
    method AbsorbCalls(calls: seq<CallDelta>)
      modifies this
      ensures emitted == old(emitted)
      ensures pending == Absorb(old(pending), calls)
    {
      for k := 0 to |calls|
        invariant emitted == old(emitted)
        invariant pending == Absorb(old(pending), calls[..k])
      {
        assert calls[..k + 1][..k] == calls[..k];
        var call := calls[k];
        var index := IndexOf(call);
        var name := NameOf(pending, index);
        var args := ArgsOf(pending, index);
        if call.name.Some? {
          name := call.name.value;
        }
        if call.arguments.Some? {
          args := args + call.arguments.value;
        }
        assert call.arguments.None? ==> args + [] == args;
        pending := pending[index := Pending(name, args)];
      }
      assert calls[..|calls|] == calls;
    }

    /** Send on every call whose arguments are now complete. */
    method FlushCompleteCalls() returns (parts: seq<Part>)
      modifies this
      ensures pending == old(pending)
      ensures emitted == Flush(pending, old(emitted), Ascending.Order(pending.Keys)).1
      ensures parts == AsParts(Flush(pending, old(emitted), Ascending.Order(pending.Keys)).0)
    {
      hide Parse, AllWs, Flush, AsParts;
      parts := [];
      var order := Ascending.Order(pending.Keys);
      FlushNone(pending, emitted);
      assert order[..0] == [];
      for k := 0 to |order|
        invariant pending == old(pending)
        invariant emitted == Flush(pending, old(emitted), order[..k]).1
        invariant parts == AsParts(Flush(pending, old(emitted), order[..k]).0)
      {
        assert order[..k + 1][..k] == order[..k];
        var index := order[k];
        var Pending(name, args) := pending[index];
        ghost var sofar := Flush(pending, old(emitted), order[..k]).0;
        FlushSnoc(pending, old(emitted), order[..k + 1]);
        if index in emitted || name == [] {
          assert sofar + [] == sofar;
          continue;
        }
        var parsed := if AllWs(args) then None else Parse(args);
        if parsed.Some? {
          AsPartsSnoc(sofar, Emission(index, name, parsed.value));
          parts := parts + [FunctionCall(name, parsed.value)];
          emitted := emitted + {index};
        } else {
          assert sofar + [] == sofar;
        }
      }
      assert order[..|order|] == order;
    }
  }

  lemma FlushNone(p: map<nat, Pending>, emitted: set<nat>)
    ensures Flush(p, emitted, []) == ([], emitted) && AsParts([]) == []
  {
  }

  lemma FlushSnoc(p: map<nat, Pending>, emitted: set<nat>, order: seq<nat>)
    requires order != []
    ensures (var (out, done) := Flush(p, emitted, order[..|order| - 1]);
             var e := EmitIfReady(p, done, order[|order| - 1]);
             Flush(p, emitted, order) == (out + e, if e == [] then done else done + {order[|order| - 1]}))
  {
    hide EmitIfReady;
  }

  lemma AsPartsSnoc(es: seq<Emission>, e: Emission)
    ensures AsParts(es + [e]) == AsParts(es) + [FunctionCall(e.name, e.args)]
  {
    assert (es + [e])[..|es|] == es;
  }

  // ----- one call seen through the whole stream

  /** What left for the call at `i`. */
  function For(i: nat, es: seq<Emission>): seq<Emission> {
    if es == [] then []
    else For(i, es[..|es| - 1]) + (if es[|es| - 1].index == i then [es[|es| - 1]] else [])
  }

  lemma {:induction false} ForAppend(i: nat, a: seq<Emission>, b: seq<Emission>)
    ensures For(i, a + b) == For(i, a) + For(i, b)
  {
    if b == [] {
      assert a + b == a;
    } else {
      ForAppend(i, a, b[..|b| - 1]);
      assert (a + b)[..|a + b| - 1] == a + b[..|b| - 1];
    }
  }

  lemma ForOne(i: nat, k: nat, e: seq<Emission>)
    requires |e| <= 1 && (e != [] ==> e[0].index == k)
    ensures For(i, e) == if k == i then e else []
  {
    if e != [] {
      assert e[..0] == [];
      assert For(i, []) == [];
    }
  }

  /** The argument text sent for the call at `i`. */
  function ArgsSent(calls: seq<CallDelta>, i: nat): bytes {
    if calls == [] then []
    else
      var c := calls[|calls| - 1];
      ArgsSent(calls[..|calls| - 1], i) + (if IndexOf(c) == i then c.arguments.GetOr([]) else [])
  }

  /** The call at `i` is only ever named `name`. */
  predicate NamedOnly(calls: seq<CallDelta>, i: nat, name: bytes) {
    calls == [] ||
    (var c := calls[|calls| - 1];
     (IndexOf(c) == i && c.name.Some? ==> c.name.value == name) && NamedOnly(calls[..|calls| - 1], i, name))
  }

  predicate Named(calls: seq<CallDelta>, i: nat) {
    calls != [] &&
    (var c := calls[|calls| - 1];
     (IndexOf(c) == i && c.name.Some?) || Named(calls[..|calls| - 1], i))
  }

  function Flatten(chunks: seq<seq<CallDelta>>): seq<CallDelta> {
    if chunks == [] then [] else Flatten(chunks[..|chunks| - 1]) + chunks[|chunks| - 1]
  }

  /** A stream, in any number of chunks and interleaved with any other calls, that sends one call at `i`. */
  predicate Delivers(chunks: seq<seq<CallDelta>>, i: nat, name: bytes, args: bytes) {
    var calls := Flatten(chunks);
    ArgsSent(calls, i) == args && NamedOnly(calls, i, name) && Named(calls, i)
  }

  lemma {:induction false} ArgsSentAppend(a: seq<CallDelta>, b: seq<CallDelta>, i: nat)
    ensures ArgsSent(a + b, i) == ArgsSent(a, i) + ArgsSent(b, i)
  {
    if b == [] {
      assert a + b == a;
    } else {
      ArgsSentAppend(a, b[..|b| - 1], i);
      assert (a + b)[..|a + b| - 1] == a + b[..|b| - 1];
    }
  }

  lemma AbsorbOne(p: map<nat, Pending>, calls: seq<CallDelta>, i: nat)
    requires calls != []
    ensures (var (front, c) := (calls[..|calls| - 1], calls[|calls| - 1]);
             var piece := if IndexOf(c) == i then c.arguments.GetOr([]) else [];
             var (before, after) := (Absorb(p, front), Absorb(p, calls));
             && ArgsSent(calls, i) == ArgsSent(front, i) + piece
             && ArgsOf(after, i) == ArgsOf(before, i) + piece
             && NameOf(after, i) == (if IndexOf(c) == i then c.name.GetOr(NameOf(before, i)) else NameOf(before, i))
             && (i in after <==> i in before || IndexOf(c) == i))
  {
    var before := Absorb(p, calls[..|calls| - 1]);
    assert ArgsOf(before, i) + [] == ArgsOf(before, i);
  }

  lemma NamedOne(calls: seq<CallDelta>, i: nat, name: bytes)
    requires calls != []
    ensures (var (front, c) := (calls[..|calls| - 1], calls[|calls| - 1]);
             var here := IndexOf(c) == i && c.name.Some?;
             && (Named(calls, i) <==> here || Named(front, i))
             && (NamedOnly(calls, i, name) <==> (here ==> c.name.value == name) && NamedOnly(front, i, name)))
  {
  }

  lemma AbsorbNone(p: map<nat, Pending>, i: nat)
    ensures Absorb(p, []) == p && ArgsSent([], i) == [] && !Named([], i)
    ensures ArgsOf(p, i) + [] == ArgsOf(p, i)
  {
  }

  /** What has been gathered for the call at `i` is what was sent for it. */
  lemma {:induction false} AbsorbAt(p: map<nat, Pending>, calls: seq<CallDelta>, i: nat, name: bytes)
    requires NamedOnly(calls, i, name)
    ensures ArgsOf(Absorb(p, calls), i) == ArgsOf(p, i) + ArgsSent(calls, i)
    ensures NameOf(Absorb(p, calls), i) == if Named(calls, i) then name else NameOf(p, i)
    ensures Named(calls, i) || i in p ==> i in Absorb(p, calls)
  {
    hide Absorb, ArgsSent, ArgsOf, NameOf, Named, NamedOnly;
    if calls == [] {
      AbsorbNone(p, i);
    } else {
      var front, c := calls[..|calls| - 1], calls[|calls| - 1];
      AbsorbOne(p, calls, i);
      NamedOne(calls, i, name);
      AbsorbAt(p, front, i, name);
      var piece := if IndexOf(c) == i then c.arguments.GetOr([]) else [];
      assert ArgsOf(p, i) + (ArgsSent(front, i) + piece) == (ArgsOf(p, i) + ArgsSent(front, i)) + piece;
    }
  }

  /** A flush sends the call at `i` at most once, and only on its own account. */
  lemma {:induction false} FlushAt(p: map<nat, Pending>, emitted: set<nat>, order: seq<nat>, i: nat)
    requires forall a, b :: 0 <= a < b < |order| ==> order[a] < order[b]
    ensures (var (out, done) := Flush(p, emitted, order);
             && For(i, out) == (if i in order then EmitIfReady(p, emitted, i) else [])
             && (i in done <==> i in emitted || For(i, out) != []))
  {
    hide Flush, For, EmitIfReady;
    if order == [] {
      FlushNone(p, emitted);
      ForOne(i, i, []);
    } else {
      var front, k := order[..|order| - 1], order[|order| - 1];
      FlushAt(p, emitted, front, i);
      FlushSnoc(p, emitted, order);
      var (out, done) := Flush(p, emitted, front);
      var e := EmitIfReady(p, done, k);
      EmitShape(p, emitted, done, k);
      ForAppend(i, out, e);
      ForOne(i, k, e);
      assert order == front + [k] && k !in front;
      if k == i {
        assert For(i, out) + e == [] + e == e;
      } else {
        assert For(i, out) + [] == For(i, out);
      }
    }
  }

  lemma EmitShape(p: map<nat, Pending>, emitted: set<nat>, done: set<nat>, k: nat)
    ensures (var e := EmitIfReady(p, done, k); |e| <= 1 && (e != [] ==> e[0].index == k && k !in done))
    ensures (k in done <==> k in emitted) ==> EmitIfReady(p, done, k) == EmitIfReady(p, emitted, k)
  {
    hide Ready;
  }

  lemma {:induction false} NamedAppend(a: seq<CallDelta>, b: seq<CallDelta>, i: nat, name: bytes)
    ensures Named(a + b, i) <==> Named(a, i) || Named(b, i)
    ensures NamedOnly(a + b, i, name) <==> NamedOnly(a, i, name) && NamedOnly(b, i, name)
  {
    if b == [] {
      assert a + b == a;
    } else {
      NamedAppend(a, b[..|b| - 1], i, name);
      assert (a + b)[..|a + b| - 1] == a + b[..|b| - 1];
    }
  }

  /** A prefix of complete JSON, other than a several-digit number, has the value of the whole or none. */
  lemma ReadyOnly(args: bytes, prefix: bytes, name: bytes)
    requires Parse(args).Some? && !MultiDigit(ParseDocument(args).value.root)
    requires prefix <= args
    ensures Ready(Pending(name, prefix)).Some? ==> Ready(Pending(name, prefix)) == Parse(args)
  {
    hide Parse, ParseDocument, MultiDigit;
    NoEarlyValue(args);
  }

  lemma BlankIsNotJson(s: bytes)
    requires AllWs(s)
    ensures Parse(s).None?
  {
    WsRun(s, []);
    assert s + [] == s;
    assert s[|s|..] == [];
  }

  /** Everything known about the call at `i` part-way through its delivery. */
  ghost predicate OnTrack(st: State, out: seq<Emission>, calls: seq<CallDelta>, i: nat, name: bytes, args: bytes)
    requires Parse(args).Some?
  {
    && ArgsOf(st.pending, i) == ArgsSent(calls, i)
    && NameOf(st.pending, i) == (if Named(calls, i) then name else [])
    && (Named(calls, i) ==> i in st.pending)
    && (i in st.emitted ==> For(i, out) == [Emission(i, name, Parse(args).value)])
    && (i !in st.emitted ==> For(i, out) == [])
    && (Named(calls, i) && ArgsSent(calls, i) == args ==> i in st.emitted)
  }

  lemma StepAt(st: State, calls: seq<CallDelta>, i: nat)
    ensures (var (st', more) := Step(st, calls);
             && st'.pending == Absorb(st.pending, calls)
             && For(i, more) == EmitIfReady(st'.pending, st.emitted, i)
             && (i in st'.emitted <==> i in st.emitted || For(i, more) != []))
  {
    hide Absorb, Flush, Ready;
    var p := Absorb(st.pending, calls);
    FlushAt(p, st.emitted, Ascending.Order(p.Keys), i);
  }

  lemma StepOnTrack(st: State, out: seq<Emission>, sent: seq<CallDelta>, calls: seq<CallDelta>,
                                       i: nat, name: bytes, args: bytes)
    requires Parse(args).Some? && !MultiDigit(ParseDocument(args).value.root) && name != []
    requires OnTrack(st, out, sent, i, name, args)
    requires ArgsSent(sent + calls, i) <= args && NamedOnly(sent + calls, i, name)
    ensures (var (st', more) := Step(st, calls); OnTrack(st', out + more, sent + calls, i, name, args))
  {
    hide Parse, ParseDocument, MultiDigit, Absorb, ArgsSent, Named, NamedOnly, For, Step, AllWs;
    ArgsSentAppend(sent, calls, i);
    NamedAppend(sent, calls, i, name);
    AbsorbAt(st.pending, calls, i, name);
    var p := Absorb(st.pending, calls);
    StepAt(st, calls, i);
    var (_, more) := Step(st, calls);
    ForAppend(i, out, more);
    ReadyOnly(args, ArgsOf(p, i), NameOf(p, i));
    if AllWs(args) { BlankIsNotJson(args); }
  }

  lemma FlattenPrefix(chunks: seq<seq<CallDelta>>, i: nat, name: bytes)
    requires chunks != []
    ensures (var front := Flatten(chunks[..|chunks| - 1]);
             && Flatten(chunks) == front + chunks[|chunks| - 1]
             && ArgsSent(front, i) <= ArgsSent(Flatten(chunks), i)
             && (NamedOnly(Flatten(chunks), i, name) ==> NamedOnly(front, i, name)))
  {
    var front, last := Flatten(chunks[..|chunks| - 1]), chunks[|chunks| - 1];
    ArgsSentAppend(front, last, i);
    NamedAppend(front, last, i, name);
  }

  lemma {:induction false} RunOnTrack(chunks: seq<seq<CallDelta>>, i: nat, name: bytes, args: bytes)
    requires Parse(args).Some? && !MultiDigit(ParseDocument(args).value.root) && name != []
    requires ArgsSent(Flatten(chunks), i) <= args && NamedOnly(Flatten(chunks), i, name)
    ensures OnTrack(Run(chunks).0, Run(chunks).1, Flatten(chunks), i, name, args)
  {
    hide Parse, ParseDocument, MultiDigit, Step;
    if chunks == [] {
    } else {
      FlattenPrefix(chunks, i, name);
      var front := chunks[..|chunks| - 1];
      RunOnTrack(front, i, name, args);
      var (st, out) := Run(front);
      StepOnTrack(st, out, Flatten(front), chunks[|chunks| - 1], i, name, args);
    }
  }

  /**
   However its fragments are cut and interleaved, a named call leaves exactly once, with exactly the
   value of its full argument text, provided that text is complete JSON and not a several-digit number.
   */
  lemma LeavesOnceWhole(chunks: seq<seq<CallDelta>>, i: nat, name: bytes, args: bytes)
    requires name != [] && Delivers(chunks, i, name, args)
    requires Parse(args).Some? && !MultiDigit(ParseDocument(args).value.root)
    ensures For(i, Run(chunks).1) == [Emission(i, name, Parse(args).value)]
  {
    RunOnTrack(chunks, i, name, args);
  }

  ghost predicate AlwaysWhole(i: nat, name: bytes, args: bytes)
    requires Parse(args).Some?
  {
    forall chunks :: Delivers(chunks, i, name, args) ==> For(i, Run(chunks).1) == [Emission(i, name, Parse(args).value)]
  }

  /** The argument texts for which every delivery is exact: all complete JSON but several-digit numbers. */
  lemma AlwaysWholeIff(i: nat, name: bytes, args: bytes)
    requires name != [] && Parse(args).Some?
    ensures AlwaysWhole(i, name, args) <==> !MultiDigit(ParseDocument(args).value.root)
  {
    if !MultiDigit(ParseDocument(args).value.root) {
      forall chunks | Delivers(chunks, i, name, args)
        ensures For(i, Run(chunks).1) == [Emission(i, name, Parse(args).value)]
      {
        LeavesOnceWhole(chunks, i, name, args);
      }
    } else {
      NoEarlyValue(args);
      var p: bytes :| p <= args && Parse(p).Some? && Parse(p) != Parse(args);
      CutEarly(i, name, args, p);
    }
  }

  function TwoParts(i: nat, name: bytes, args: bytes, p: bytes): seq<seq<CallDelta>>
    requires p <= args
  {
    [[CallDelta(Some(i), None, Some(name), Some(p))], [CallDelta(Some(i), None, None, Some(args[|p|..]))]]
  }

  lemma TwoPartsDeliver(i: nat, name: bytes, args: bytes, p: bytes)
    requires p <= args
    ensures Delivers(TwoParts(i, name, args, p), i, name, args)
  {
    var chunks := TwoParts(i, name, args, p);
    var a, b := chunks[0], chunks[1];
    assert chunks[..1] == [a];
    var none: seq<seq<CallDelta>> := [a][..0];
    assert none == [];
    assert Flatten([a]) == [] + a;
    assert Flatten(chunks) == a + b;
    assert a[..0] == [] && b[..0] == [];
    assert ArgsSent(a, i) == [] + p && ArgsSent(b, i) == [] + args[|p|..];
    assert p == args[..|p|];
    assert p + args[|p|..] == args;
    ArgsSentAppend(a, b, i);
    NamedAppend(a, b, i, name);
  }

  lemma CutEarly(i: nat, name: bytes, args: bytes, p: bytes)
    requires name != [] && Parse(args).Some?
    requires p <= args && Parse(p).Some? && Parse(p) != Parse(args)
    ensures !AlwaysWhole(i, name, args)
  {
    hide Parse, ParseDocument, Flush, For;
    var chunks := TwoParts(i, name, args, p);
    TwoPartsDeliver(i, name, args, p);
    var a, b := chunks[0], chunks[1];
    assert chunks[..1] == [a];
    var none: seq<seq<CallDelta>> := [a][..0];
    assert none == [];
    assert a[..0] == [];
    StepAt(START, a, i);
    var (st, out) := Step(START, a);
    assert Run([a]).0 == st && Run([a]).1 == [] + out;
    if AllWs(p) { BlankIsNotJson(p); }
    assert st.pending[i] == Pending(name, [] + p);
    assert [] + p == p;
    assert For(i, out) == [Emission(i, name, Parse(p).value)];
    var (_, more) := Step(st, b);
    assert Run(chunks).1 == ([] + out) + more;
    assert [] + out == out;
    ForAppend(i, out, more);
    assert For(i, Run(chunks).1)[0] == Emission(i, name, Parse(p).value);
  }

  // ----- whether a call leaves at all

  /** What holds of the call at `i` after any chunks that only ever call it `name`. */
  ghost predicate Gathered(st: State, out: seq<Emission>, calls: seq<CallDelta>, i: nat, name: bytes) {
    && ArgsOf(st.pending, i) == ArgsSent(calls, i)
    && NameOf(st.pending, i) == (if Named(calls, i) then name else [])
    && (Named(calls, i) ==> i in st.pending)
    && (i in st.emitted <==> For(i, out) != [])
    && (For(i, out) != [] ==> exists p: bytes :: p <= ArgsSent(calls, i) && Parse(p).Some?)
    && (Named(calls, i) && name != [] && Parse(ArgsSent(calls, i)).Some? ==> i in st.emitted)
  }

  lemma StepGathered(st: State, out: seq<Emission>, sent: seq<CallDelta>, calls: seq<CallDelta>, i: nat, name: bytes)
    requires Gathered(st, out, sent, i, name) && NamedOnly(sent + calls, i, name)
    ensures (var (st', more) := Step(st, calls); Gathered(st', out + more, sent + calls, i, name))
  {
    hide Parse, Absorb, ArgsSent, Named, NamedOnly, For, Step, AllWs;
    ArgsSentAppend(sent, calls, i);
    NamedAppend(sent, calls, i, name);
    AbsorbAt(st.pending, calls, i, name);
    var p := Absorb(st.pending, calls);
    StepAt(st, calls, i);
    var (_, more) := Step(st, calls);
    ForAppend(i, out, more);
    var args := ArgsOf(p, i);
    if AllWs(args) { BlankIsNotJson(args); }
    if For(i, more) != [] {
      assert args <= ArgsSent(sent + calls, i) && Parse(args).Some?;
    } else if For(i, out) != [] {
      var q: bytes :| q <= ArgsSent(sent, i) && Parse(q).Some?;
      PrefixOfSum(q, ArgsSent(sent, i), ArgsSent(calls, i));
    }
  }

  lemma PrefixOfSum(p: bytes, a: bytes, b: bytes)
    requires p <= a
    ensures p <= a + b
  {
  }

  lemma {:induction false} RunGathered(chunks: seq<seq<CallDelta>>, i: nat, name: bytes)
    requires NamedOnly(Flatten(chunks), i, name)
    ensures Gathered(Run(chunks).0, Run(chunks).1, Flatten(chunks), i, name)
  {
    hide Parse, Step, Gathered;
    if chunks == [] {
      NothingGathered(i, name);
    } else {
      FlattenPrefix(chunks, i, name);
      var front := chunks[..|chunks| - 1];
      RunGathered(front, i, name);
      var (st, out) := Run(front);
      StepGathered(st, out, Flatten(front), chunks[|chunks| - 1], i, name);
    }
  }

  lemma NothingGathered(i: nat, name: bytes)
    ensures Gathered(START, [], [], i, name)
  {
  }

  ghost predicate AlwaysLeaves(i: nat, name: bytes, args: bytes) {
    forall chunks :: Delivers(chunks, i, name, args) ==> For(i, Run(chunks).1) != []
  }

  ghost predicate NeverLeaves(i: nat, name: bytes, args: bytes) {
    forall chunks :: Delivers(chunks, i, name, args) ==> For(i, Run(chunks).1) == []
  }

  ghost predicate SomePrefixReads(args: bytes) {
    exists p: bytes :: p <= args && Parse(p).Some?
  }

  /** What the first chunk alone makes of a call whose first text is `p`. */
  lemma FirstChunk(i: nat, name: bytes, p: bytes)
    requires name != []
    ensures (var a := [CallDelta(Some(i), None, Some(name), Some(p))];
             && Delivers([a], i, name, p)
             && (For(i, Run([a]).1) != [] <==> Parse(p).Some?))
  {
    hide Parse, Flush, For;
    var a := [CallDelta(Some(i), None, Some(name), Some(p))];
    var none: seq<seq<CallDelta>> := [a][..0];
    assert none == [];
    assert a[..0] == [];
    assert Flatten([a]) == [] + a;
    assert [] + a == a;
    StepAt(START, a, i);
    var (st, out) := Step(START, a);
    assert Run([a]).1 == [] + out;
    assert [] + out == out;
    if AllWs(p) { BlankIsNotJson(p); }
    assert st.pending[i] == Pending(name, [] + p);
    assert [] + p == p;
    assert ArgsSent(a, i) == [] + p;
    assert Named(a, i) && NamedOnly(a, i, name);
  }

  /** A named call leaves under every delivery exactly when its whole argument text is complete JSON. */
  lemma AlwaysLeavesIff(i: nat, name: bytes, args: bytes)
    requires name != []
    ensures AlwaysLeaves(i, name, args) <==> Parse(args).Some?
  {
    hide Parse, Run, For;
    forall chunks | Delivers(chunks, i, name, args)
      ensures Gathered(Run(chunks).0, Run(chunks).1, Flatten(chunks), i, name)
    {
      RunGathered(chunks, i, name);
    }
    FirstChunk(i, name, args);
  }

  /** And under no delivery exactly when no beginning of that text is complete JSON. */
  lemma NeverLeavesIff(i: nat, name: bytes, args: bytes)
    requires name != []
    ensures NeverLeaves(i, name, args) <==> !SomePrefixReads(args)
  {
    hide Parse, Run, For;
    forall chunks | Delivers(chunks, i, name, args)
      ensures Gathered(Run(chunks).0, Run(chunks).1, Flatten(chunks), i, name)
    {
      RunGathered(chunks, i, name);
    }
    if SomePrefixReads(args) {
      var p: bytes :| p <= args && Parse(p).Some?;
      LeavesEarly(i, name, args, p);
      TwoPartsDeliver(i, name, args, p);
    }
  }

  lemma LeavesEarly(i: nat, name: bytes, args: bytes, p: bytes)
    requires name != [] && p <= args && Parse(p).Some?
    ensures For(i, Run(TwoParts(i, name, args, p)).1) != []
  {
    hide Parse, For, Step, Delivers;
    FirstChunk(i, name, p);
    var chunks := TwoParts(i, name, args, p);
    var a, b := chunks[0], chunks[1];
    assert chunks[..1] == [a];
    ForAppend(i, Run([a]).1, Step(Run([a]).0, b).1);
  }

  /**
   A call whose arguments are blank, the empty text of a tool without input among them, never leaves,
   however it is delivered.
   */
  lemma BlankNeverLeaves(i: nat, name: bytes, args: bytes)
    requires name != [] && AllWs(args)
    ensures NeverLeaves(i, name, args)
  {
    hide Parse;
    forall p: bytes | p <= args
      ensures Parse(p).None?
    {
      BlankIsNotJson(p);
    }
    NeverLeavesIff(i, name, args);
  }
}
