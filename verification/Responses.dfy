/**
 `ChunksToResponses` of `responses.rs`: chat chunks become the numbered event sequence of the Responses
 API, one output item open at a time.
 */
module Responses {
  import opened Wrappers
  import opened Bytes
  import opened OpenAiChunks

  /** An output item; a message is named after its output index, a call after its tool index. */
  datatype Item =
    | Message(index: nat, text: bytes)
    | FunctionCall(index: nat, callId: bytes, name: bytes, arguments: bytes)

  datatype ItemId = Msg(n: nat) | Fc(n: nat)

  datatype Status = Complete | Incomplete

  datatype Body =
    | Created(id: bytes, model: bytes)
    | ItemAdded(outputIndex: nat, item: Item)
    | PartAdded(itemId: ItemId, outputIndex: nat)
    | TextDelta(itemId: ItemId, outputIndex: nat, delta: bytes)
    | ArgumentsDelta(itemId: ItemId, outputIndex: nat, delta: bytes)
    | TextDone(itemId: ItemId, outputIndex: nat, text: bytes)
    | ArgumentsDone(itemId: ItemId, outputIndex: nat, arguments: bytes)
    | ItemDone(outputIndex: nat, item: Item)
    | Completed(id: bytes, model: bytes, status: Status, output: seq<Item>, usage: Option<Usage>)

  datatype Event = Event(sequence: nat, body: Body)

  datatype OpenItem = OpenMessage | OpenCall(index: nat)

  datatype Call = Call(callId: bytes, name: bytes, arguments: bytes)

  datatype State = State(started: bool, id: bytes, model: bytes, text: Option<bytes>, calls: map<nat, Call>,
                         open: Option<OpenItem>, outputIndex: nat, finish: Option<Finish>, usage: Option<Usage>,
                         output: seq<Item>)

  const FRESH: State := State(false, [], [], None, map[], None, 0, None, None, [])

  const STREAM: bytes := FromText("stream")
  const CALL_0: bytes := FromText("call_0")
  const RESP: bytes := FromText("resp_")

  // ----- what a chunk asks for, one thing at a time

  datatype Op = Say(text: bytes) | Open(index: nat, callId: bytes, name: bytes) | Args(index: nat, fragment: bytes)

  function CallOps(c: CallDelta): seq<Op> {
    (if c.name.Some? then [Open(IndexOf(c), c.id.GetOr(CALL_0), c.name.value)] else [])
    + (if c.arguments.GetOr([]) != [] then [Args(IndexOf(c), c.arguments.value)] else [])
  }

  function CallsOps(calls: seq<CallDelta>): seq<Op> {
    if calls == [] then [] else CallsOps(calls[..|calls| - 1]) + CallOps(calls[|calls| - 1])
  }

  function TextOps(content: Option<bytes>): seq<Op> {
    if content.GetOr([]) != [] then [Say(content.value)] else []
  }

  function Ops(chunk: Chunk): seq<Op> {
    TextOps(chunk.content) + CallsOps(chunk.calls)
  }

  // ----- the translator on values

  function Number(from: nat, bodies: seq<Body>): seq<Event> {
    seq(|bodies|, i requires 0 <= i < |bodies| => Event(from + i, bodies[i]))
  }

  /** Finish the open item, if there is one. */
  function Close(s: State): (State, seq<Body>) {
    match s.open
    case None => (s, [])
    case Some(OpenMessage) =>
      var k, text := s.outputIndex, s.text.GetOr([]);
      (s.(open := None, text := None, output := s.output + [Message(k, text)], outputIndex := k + 1),
       [TextDone(Msg(k), k, text), ItemDone(k, Message(k, text))])
    case Some(OpenCall(i)) =>
      if i !in s.calls then (s.(open := None), [])
      else
        var k, c := s.outputIndex, s.calls[i];
        var item := FunctionCall(i, c.callId, c.name, c.arguments);
        (s.(open := None, output := s.output + [item], outputIndex := k + 1),
         [ArgumentsDone(Fc(i), k, c.arguments), ItemDone(k, item)])
  }

  function OpenText(s: State): (State, seq<Body>) {
    if s.open == Some(OpenMessage) then (s, [])
    else
      var (s1, bodies) := Close(s);
      var k := s1.outputIndex;
      (s1.(open := Some(OpenMessage), text := Some([])), bodies + [ItemAdded(k, Message(k, [])), PartAdded(Msg(k), k)])
  }

  function Do(s: State, op: Op): (State, seq<Body>) {
    match op
    case Say(text) =>
      var (s1, bodies) := OpenText(s);
      (s1.(text := Some(s1.text.GetOr([]) + text)), bodies + [TextDelta(Msg(s1.outputIndex), s1.outputIndex, text)])
    case Open(i, callId, name) =>
      var (s1, bodies) := Close(s);
      (s1.(calls := s1.calls[i := Call(callId, name, [])], open := Some(OpenCall(i))),
       bodies + [ItemAdded(s1.outputIndex, FunctionCall(i, callId, name, []))])
    case Args(i, fragment) =>
      if i !in s.calls then (s, [])
      else (s.(calls := s.calls[i := s.calls[i].(arguments := s.calls[i].arguments + fragment)]),
            [ArgumentsDelta(Fc(i), s.outputIndex, fragment)])
  }

  function DoAll(s: State, ops: seq<Op>): (State, seq<Body>) {
    if ops == [] then (s, [])
    else
      var (s1, bodies) := DoAll(s, ops[..|ops| - 1]);
      var (s2, more) := Do(s1, ops[|ops| - 1]);
      (s2, bodies + more)
  }

  function Begin(s: State, chunk: Chunk): (State, seq<Body>) {
    if s.started then (s, [])
    else
      var s1 := s.(started := true, id := RESP + chunk.id.GetOr(STREAM), model := chunk.model.GetOr([]));
      (s1, [Created(s1.id, s1.model)])
  }

  function Note(s: State, chunk: Chunk): State {
    s.(usage := if chunk.usage.Some? then chunk.usage else s.usage,
       finish := if chunk.finish.Some? then chunk.finish else s.finish)
  }

  function AfterChunk(s: State, chunk: Chunk): (State, seq<Body>) {
    var (s1, start) := Begin(s, chunk);
    var (s2, bodies) := DoAll(s1, Ops(chunk));
    (Note(s2, chunk), start + bodies)
  }

  function StatusOf(finish: Option<Finish>): Status {
    if finish == Some(Length) then Incomplete else Complete
  }

  function Finishing(s: State): (State, seq<Body>) {
    var (s1, bodies) := Close(s);
    (s1, bodies + [Completed(s1.id, s1.model, StatusOf(s1.finish), s1.output, s1.usage)])
  }

  /** The state and the events after some chunks, before the end of the stream. */
  function Run(chunks: seq<Chunk>): (State, seq<Event>) {
    if chunks == [] then (FRESH, [])
    else
      var (s, events) := Run(chunks[..|chunks| - 1]);
      var (s1, bodies) := AfterChunk(s, chunks[|chunks| - 1]);
      (s1, events + Number(|events|, bodies))
  }

  /** A whole stream. */
  function Stream(chunks: seq<Chunk>): seq<Event> {
    var (s, events) := Run(chunks);
    events + Number(|events|, Finishing(s).1)
  }

  // ----- the translator

  class ChunksToResponses {
    var state: State
    var sequence: nat

    constructor ()
      ensures state == FRESH && sequence == 0
    {
      state := FRESH;
      sequence := 0;
    }

    method Emit(body: Body) returns (event: Event)
      modifies this`sequence
      ensures event == Event(old(sequence), body) && sequence == old(sequence) + 1
    {
      event := Event(sequence, body);
      sequence := sequence + 1;
    }

    method OnChunk(chunk: Chunk) returns (frames: seq<Event>)
      modifies this
      ensures (var (s, bodies) := AfterChunk(old(state), chunk);
               && state == s && frames == Number(old(sequence), bodies) && sequence == old(sequence) + |bodies|)
    {
      hide Close, DoAll, Ops, Number, OpenText, Do, CallsOps;
      ghost var (s1, start) := Begin(state, chunk);
      frames := [];
      NumberNone(sequence);
      if !state.started {
        state := state.(started := true, id := RESP + chunk.id.GetOr(STREAM), model := chunk.model.GetOr([]));
        frames := PushEvent(frames, Created(state.id, state.model), old(sequence), []);
      }
      assert [] + start == start;
      assert state == s1 && frames == Number(old(sequence), start);
      ghost var done: seq<Op> := [];
      DoNothing(s1);
      assert start + [] == start;
      if chunk.content.GetOr([]) != [] {
        frames := AddText(frames, chunk.content.value, old(sequence), start);
        DoOne(s1, Say(chunk.content.value));
        done := [Say(chunk.content.value)];
      }
      assert done == TextOps(chunk.content);
      NoCallsOps();
      assert chunk.calls[..0] == [] && done + [] == done;
      for k := 0 to |chunk.calls|
        invariant state == DoAll(s1, done + CallsOps(chunk.calls[..k])).0
        invariant frames == Number(old(sequence), start + DoAll(s1, done + CallsOps(chunk.calls[..k])).1)
        invariant sequence == old(sequence) + |start| + |DoAll(s1, done + CallsOps(chunk.calls[..k])).1|
      {
        ghost var before := done + CallsOps(chunk.calls[..k]);
        frames := AddCall(frames, chunk.calls[k], old(sequence), start + DoAll(s1, before).1);
        CallsOpsStep(chunk.calls, k);
        assert done + (CallsOps(chunk.calls[..k]) + CallOps(chunk.calls[k])) == before + CallOps(chunk.calls[k]);
        DoAppend(s1, before, CallOps(chunk.calls[k]));
        ghost var more := DoAll(DoAll(s1, before).0, CallOps(chunk.calls[k])).1;
        assert (start + DoAll(s1, before).1) + more == start + (DoAll(s1, before).1 + more);
      }
      assert chunk.calls[..|chunk.calls|] == chunk.calls;
      assert done + CallsOps(chunk.calls) == Ops(chunk) by { OpsIs(chunk); }
      if chunk.usage.Some? {
        state := state.(usage := chunk.usage);
      }
      if chunk.finish.Some? {
        state := state.(finish := chunk.finish);
      }
    }

    /** Append one numbered event to frames that number `bodies` from `from`. */
    method PushEvent(frames: seq<Event>, body: Body, ghost from: nat, ghost bodies: seq<Body>) returns (r: seq<Event>)
      requires frames == Number(from, bodies) && sequence == from + |bodies|
      modifies this`sequence
      ensures r == Number(from, bodies + [body]) && sequence == from + |bodies| + 1
    {
      var event := Emit(body);
      r := frames + [event];
    }

    method AddText(frames: seq<Event>, text: bytes, ghost from: nat, ghost bodies: seq<Body>) returns (r: seq<Event>)
      requires frames == Number(from, bodies) && sequence == from + |bodies|
      modifies this
      ensures (var (s, more) := Do(old(state), Say(text));
               && state == s && r == Number(from, bodies + more) && sequence == from + |bodies| + |more|)
    {
      hide Close, Number;
      r := frames;
      ghost var all := bodies;
      if state.open != Some(OpenMessage) {
        r := CloseOpenItem(r, from, all);
        all := all + Close(old(state)).1;
        state := state.(open := Some(OpenMessage), text := Some([]));
        var k := state.outputIndex;
        r := PushEvent(r, ItemAdded(k, Message(k, [])), from, all);
        all := all + [ItemAdded(k, Message(k, []))];
        r := PushEvent(r, PartAdded(Msg(k), k), from, all);
        all := all + [PartAdded(Msg(k), k)];
        assert all == bodies + OpenText(old(state)).1;
      }
      assert all == bodies + OpenText(old(state)).1;
      state := state.(text := Some(state.text.GetOr([]) + text));
      r := PushEvent(r, TextDelta(Msg(state.outputIndex), state.outputIndex, text), from, all);
      assert all + [TextDelta(Msg(state.outputIndex), state.outputIndex, text)] == bodies + Do(old(state), Say(text)).1;
    }

    method AddCall(frames: seq<Event>, call: CallDelta, ghost from: nat, ghost bodies: seq<Body>) returns (r: seq<Event>)
      requires frames == Number(from, bodies) && sequence == from + |bodies|
      modifies this
      ensures (var (s, more) := DoAll(old(state), CallOps(call));
               && state == s && r == Number(from, bodies + more) && sequence == from + |bodies| + |more|)
    {
      hide Close, Number, DoAll;
      var index := IndexOf(call);
      r := frames;
      ghost var all := bodies;
      ghost var s1 := state;
      DoNothing(state);
      if call.name.Some? {
        r := CloseOpenItem(r, from, all);
        all := all + Close(old(state)).1;
        var callId := call.id.GetOr(CALL_0);
        state := state.(calls := state.calls[index := Call(callId, call.name.value, [])], open := Some(OpenCall(index)));
        r := PushEvent(r, ItemAdded(state.outputIndex, FunctionCall(index, callId, call.name.value, [])), from, all);
        all := all + [ItemAdded(state.outputIndex, FunctionCall(index, callId, call.name.value, []))];
        ghost var op := Open(index, callId, call.name.value);
        DoOne(old(state), op);
        assert all == bodies + Do(old(state), op).1;
        s1 := state;
      }
      assert bodies + [] == bodies;
      ghost var named := if call.name.Some? then [Open(index, call.id.GetOr(CALL_0), call.name.value)] else [];
      assert s1 == state == DoAll(old(state), named).0 && all == bodies + DoAll(old(state), named).1;
      if call.arguments.GetOr([]) != [] {
        var fragment := call.arguments.value;
        DoAppend(old(state), named, [Args(index, fragment)]);
        DoOne(state, Args(index, fragment));
        if index in state.calls {
          var entry := state.calls[index];
          state := state.(calls := state.calls[index := entry.(arguments := entry.arguments + fragment)]);
          r := PushEvent(r, ArgumentsDelta(Fc(index), state.outputIndex, fragment), from, all);
          assert all + [ArgumentsDelta(Fc(index), state.outputIndex, fragment)]
              == bodies + (DoAll(old(state), named).1 + [ArgumentsDelta(Fc(index), state.outputIndex, fragment)]);
        } else {
          assert DoAll(old(state), named).1 + [] == DoAll(old(state), named).1;
        }
        assert CallOps(call) == named + [Args(index, fragment)];
      } else {
        assert CallOps(call) == named + [] == named;
      }
    }

    method CloseOpenItem(frames: seq<Event>, ghost from: nat, ghost bodies: seq<Body>) returns (r: seq<Event>)
      requires frames == Number(from, bodies) && sequence == from + |bodies|
      modifies this
      ensures (var (s, more) := Close(old(state));
               && state == s && r == Number(from, bodies + more) && sequence == from + |bodies| + |more|)
    {
      hide Number;
      var wasOpen := state.open;
      state := state.(open := None);
      r := frames;
      match wasOpen {
        case Some(OpenMessage) =>
          var text, k := state.text.GetOr([]), state.outputIndex;
          state := state.(text := None);
          r := PushEvent(r, TextDone(Msg(k), k, text), from, bodies);
          var item := Message(k, text);
          r := PushEvent(r, ItemDone(k, item), from, bodies + [TextDone(Msg(k), k, text)]);
          state := state.(output := state.output + [item], outputIndex := k + 1);
          assert bodies + [TextDone(Msg(k), k, text)] + [ItemDone(k, item)]
              == bodies + [TextDone(Msg(k), k, text), ItemDone(k, item)];
        case Some(OpenCall(index)) =>
          if index in state.calls {
            var Call(callId, name, args) := state.calls[index];
            var k := state.outputIndex;
            r := PushEvent(r, ArgumentsDone(Fc(index), k, args), from, bodies);
            var item := FunctionCall(index, callId, name, args);
            r := PushEvent(r, ItemDone(k, item), from, bodies + [ArgumentsDone(Fc(index), k, args)]);
            state := state.(output := state.output + [item], outputIndex := k + 1);
            assert bodies + [ArgumentsDone(Fc(index), k, args)] + [ItemDone(k, item)]
                == bodies + [ArgumentsDone(Fc(index), k, args), ItemDone(k, item)];
          } else {
            assert bodies + [] == bodies;
          }
        case None =>
          assert bodies + [] == bodies;
      }
    }

    method Finish() returns (frames: seq<Event>)
      modifies this
      ensures (var (s, bodies) := Finishing(old(state));
               && state == s && frames == Number(old(sequence), bodies) && sequence == old(sequence) + |bodies|)
    {
      hide Close, Number;
      NumberNone(sequence);
      frames := CloseOpenItem([], sequence, []);
      assert [] + Close(old(state)).1 == Close(old(state)).1;
      frames := PushEvent(frames, Completed(state.id, state.model, StatusOf(state.finish), state.output, state.usage),
                          old(sequence), Close(old(state)).1);
    }
  }

  lemma NumberNone(from: nat)
    ensures Number(from, []) == []
  {
  }

  lemma NoCallsOps()
    ensures CallsOps([]) == []
  {
  }

  lemma OpsIs(chunk: Chunk)
    ensures Ops(chunk) == TextOps(chunk.content) + CallsOps(chunk.calls)
  {
  }

  lemma CallsOpsStep(calls: seq<CallDelta>, k: nat)
    requires k < |calls|
    ensures CallsOps(calls[..k + 1]) == CallsOps(calls[..k]) + CallOps(calls[k])
  {
    assert calls[..k + 1][..k] == calls[..k];
  }

  lemma DoNothing(s: State)
    ensures DoAll(s, []) == (s, [])
  {
  }

  lemma DoOne(s: State, op: Op)
    ensures DoAll(s, [op]) == Do(s, op)
  {
    hide Do;
    assert [op][..0] == [];
    DoNothing(s);
    assert [] + Do(s, op).1 == Do(s, op).1;
  }

  lemma {:induction false} DoAppend(s: State, a: seq<Op>, b: seq<Op>)
    ensures (var (s1, first) := DoAll(s, a);
             var (s2, second) := DoAll(s1, b);
             DoAll(s, a + b) == (s2, first + second))
  {
    hide Do;
    var (s1, first) := DoAll(s, a);
    if b == [] {
      assert a + b == a;
      assert first + [] == first;
    } else {
      DoAppend(s, a, b[..|b| - 1]);
      assert (a + b)[..|a + b| - 1] == a + b[..|b| - 1];
      var (s2, second) := DoAll(s1, b[..|b| - 1]);
      var more := Do(s2, b[|b| - 1]).1;
      assert (first + second) + more == first + (second + more);
    }
  }

  // ----- numbering

  lemma NumberAppend(from: nat, a: seq<Body>, b: seq<Body>)
    ensures Number(from, a + b) == Number(from, a) + Number(from + |a|, b)
  {
  }

  /** On every run the events are numbered 0, 1, 2 and on, and the output index counts the finished items. */
  lemma Numbered(chunks: seq<Chunk>)
    ensures forall k :: 0 <= k < |Stream(chunks)| ==> Stream(chunks)[k].sequence == k
    ensures Run(chunks).0.outputIndex == |Run(chunks).0.output|
  {
    RunNumbered(chunks);
  }

  lemma {:induction false} RunNumbered(chunks: seq<Chunk>)
    ensures Run(chunks).1 == Number(0, Bodies(chunks))
    ensures Run(chunks).0.outputIndex == |Run(chunks).0.output|
  {
    hide AfterChunk;
    if chunks != [] {
      var front, chunk := chunks[..|chunks| - 1], chunks[|chunks| - 1];
      RunNumbered(front);
      var (s1, bodies) := AfterChunk(Run(front).0, chunk);
      NumberAppend(0, Bodies(front), bodies);
      ChunkCounts(Run(front).0, chunk);
    }
  }

  /** The bodies of the events of `Run`. */
  function Bodies(chunks: seq<Chunk>): seq<Body> {
    if chunks == [] then []
    else Bodies(chunks[..|chunks| - 1]) + AfterChunk(Run(chunks[..|chunks| - 1]).0, chunks[|chunks| - 1]).1
  }

  predicate Counts(s: State) {
    s.outputIndex == |s.output|
  }

  lemma {:induction false} DoAllCounts(s: State, ops: seq<Op>)
    requires Counts(s)
    ensures Counts(DoAll(s, ops).0)
  {
    if ops != [] {
      DoAllCounts(s, ops[..|ops| - 1]);
    }
  }

  lemma ChunkCounts(s: State, chunk: Chunk)
    requires Counts(s)
    ensures Counts(AfterChunk(s, chunk).0)
  {
    hide DoAll;
    DoAllCounts(Begin(s, chunk).0, Ops(chunk));
  }

  // ----- what was said, without events

  /** The items a stream describes: text joins the message before it, a fragment the call it continues. */
  function Spoken(ops: seq<Op>): seq<Item> {
    if ops == [] then []
    else
      var before := Spoken(ops[..|ops| - 1]);
      var n := |before|;
      match ops[|ops| - 1]
      case Say(text) =>
        if n > 0 && before[n - 1].Message? then before[n - 1 := before[n - 1].(text := before[n - 1].text + text)]
        else before + [Message(n, text)]
      case Open(i, callId, name) => before + [FunctionCall(i, callId, name, [])]
      case Args(i, fragment) =>
        if n > 0 && before[n - 1].FunctionCall? && before[n - 1].index == i
        then before[n - 1 := before[n - 1].(arguments := before[n - 1].arguments + fragment)]
        else before
  }

  /** Which item a stream has open, and which calls it has opened. */
  function OpenAfter(ops: seq<Op>): Option<OpenItem> {
    if ops == [] then None
    else
      match ops[|ops| - 1]
      case Say(_) => Some(OpenMessage)
      case Open(i, _, _) => Some(OpenCall(i))
      case Args(_, _) => OpenAfter(ops[..|ops| - 1])
  }

  function Known(ops: seq<Op>): set<nat> {
    if ops == [] then {}
    else Known(ops[..|ops| - 1]) + (if ops[|ops| - 1].Open? then {ops[|ops| - 1].index} else {})
  }

  /** Every fragment of a call that was opened arrives while that call's item is open. */
  predicate InTime(ops: seq<Op>) {
    ops == [] ||
    (var front, op := ops[..|ops| - 1], ops[|ops| - 1];
     InTime(front) && (op.Args? && op.index in Known(front) ==> OpenAfter(front) == Some(OpenCall(op.index))))
  }

  function AllOps(chunks: seq<Chunk>): seq<Op> {
    if chunks == [] then [] else AllOps(chunks[..|chunks| - 1]) + Ops(chunks[|chunks| - 1])
  }

  /** The item the translator has open, as far as it has got. */
  function Current(s: State): Option<Item> {
    match s.open
    case None => None
    case Some(OpenMessage) => Some(Message(s.outputIndex, s.text.GetOr([])))
    case Some(OpenCall(i)) =>
      if i in s.calls then Some(FunctionCall(i, s.calls[i].callId, s.calls[i].name, s.calls[i].arguments)) else None
  }

  function Items(s: State): seq<Item> {
    match Current(s)
    case None => s.output
    case Some(item) => s.output + [item]
  }

  /** The translator's state after `ops`, in terms of `ops`. */
  ghost predicate Tracks(s: State, ops: seq<Op>) {
    && Counts(s)
    && s.open == OpenAfter(ops)
    && s.calls.Keys == Known(ops)
    && (s.open.Some? <==> Current(s).Some?)
    && (s.open.None? ==> s.output == [])
    && Items(s) == Spoken(ops)
  }

  lemma CloseKeepsItems(s: State)
    requires Counts(s)
    ensures (var s1 := Close(s).0;
             && Counts(s1) && s1.open == None && s1.output == Items(s) && s1.calls == s.calls
             && s1 == s.(open := None, text := s1.text, output := s1.output, outputIndex := s1.outputIndex))
  {
  }

  lemma DoTracks(s: State, ops: seq<Op>, op: Op)
    requires Tracks(s, ops)
    ensures Tracks(Do(s, op).0, ops + [op])
  {
    hide Do, Tracks;
    match op
    case Say(text) => SayTracks(s, ops, text);
    case Open(i, callId, name) => OpenTracks(s, ops, i, callId, name);
    case Args(i, fragment) => ArgsTrack(s, ops, i, fragment);
  }

  /** One more op, as the reference sees it. */
  lemma {:induction false} SpokenSnoc(ops: seq<Op>, op: Op)
    ensures OpenAfter(ops + [op])
         == match op case Say(_) => Some(OpenMessage) case Open(i, _, _) => Some(OpenCall(i)) case Args(_, _) => OpenAfter(ops)
    ensures Known(ops + [op]) == Known(ops) + if op.Open? then {op.index} else {}
    ensures (var before, n := Spoken(ops), |Spoken(ops)|;
             Spoken(ops + [op])
             == match op
                case Say(text) =>
                  if n > 0 && before[n - 1].Message? then before[n - 1 := before[n - 1].(text := before[n - 1].text + text)]
                  else before + [Message(n, text)]
                case Open(i, callId, name) => before + [FunctionCall(i, callId, name, [])]
                case Args(i, fragment) =>
                  if n > 0 && before[n - 1].FunctionCall? && before[n - 1].index == i
                  then before[n - 1 := before[n - 1].(arguments := before[n - 1].arguments + fragment)]
                  else before)
  {
    assert (ops + [op])[..|ops|] == ops;
  }

  lemma SayTracks(s: State, ops: seq<Op>, text: bytes)
    requires Tracks(s, ops)
    ensures Tracks(Do(s, Say(text)).0, ops + [Say(text)])
  {
    hide Close, Spoken, Known, OpenAfter;
    SpokenSnoc(ops, Say(text));
    CloseKeepsItems(s);
    LastIsOpen(s, ops);
    assert [] + text == text;
    if s.open == Some(OpenMessage) {
      var k := s.outputIndex;
      assert (s.output + [Message(k, s.text.GetOr([]))])[k := Message(k, s.text.GetOr([]) + text)]
          == s.output + [Message(k, s.text.GetOr([]) + text)];
    }
  }

  lemma OpenTracks(s: State, ops: seq<Op>, i: nat, callId: bytes, name: bytes)
    requires Tracks(s, ops)
    ensures Tracks(Do(s, Open(i, callId, name)).0, ops + [Open(i, callId, name)])
  {
    hide Close, Spoken, Known, OpenAfter;
    SpokenSnoc(ops, Open(i, callId, name));
    CloseKeepsItems(s);
  }

  lemma ArgsTrack(s: State, ops: seq<Op>, i: nat, fragment: bytes)
    requires Tracks(s, ops)
    ensures Tracks(Do(s, Args(i, fragment)).0, ops + [Args(i, fragment)])
  {
    hide Close, Spoken, Known, OpenAfter;
    SpokenSnoc(ops, Args(i, fragment));
    LastIsOpen(s, ops);
    if s.open == Some(OpenCall(i)) {
      var k, call := s.outputIndex, s.calls[i];
      var longer := call.arguments + fragment;
      assert (s.output + [FunctionCall(i, call.callId, call.name, call.arguments)])
               [k := FunctionCall(i, call.callId, call.name, longer)]
          == s.output + [FunctionCall(i, call.callId, call.name, longer)];
    }
  }

  /** The last item said is the open one. */
  lemma LastIsOpen(s: State, ops: seq<Op>)
    requires Tracks(s, ops)
    ensures Spoken(ops) != [] <==> s.open.Some?
    ensures Spoken(ops) != [] ==> Some(Spoken(ops)[|Spoken(ops)| - 1]) == Current(s)
  {
    hide Spoken, Known, OpenAfter;
  }

  lemma {:induction false} DoAllTracks(s: State, ops: seq<Op>, more: seq<Op>)
    requires Tracks(s, ops)
    ensures Tracks(DoAll(s, more).0, ops + more)
  {
    hide Do, Tracks;
    if more == [] {
      assert ops + more == ops;
    } else {
      var front, op := more[..|more| - 1], more[|more| - 1];
      DoAllTracks(s, ops, front);
      DoTracks(DoAll(s, front).0, ops + front, op);
      assert ops + more == (ops + front) + [op];
    }
  }

  lemma ChunkTracks(s: State, ops: seq<Op>, chunk: Chunk)
    requires Tracks(s, ops)
    ensures Tracks(AfterChunk(s, chunk).0, ops + Ops(chunk))
    ensures AfterChunk(s, chunk).0.started
  {
    hide Do, Ops, Spoken, Known, OpenAfter;
    var s1 := Begin(s, chunk).0;
    assert Tracks(s1, ops);
    DoAllTracks(s1, ops, Ops(chunk));
    DoAllStarted(s1, Ops(chunk));
  }

  lemma {:induction false} DoAllStarted(s: State, ops: seq<Op>)
    ensures DoAll(s, ops).0.started == s.started
  {
    if ops != [] {
      DoAllStarted(s, ops[..|ops| - 1]);
    }
  }

  lemma {:induction false} RunTracks(chunks: seq<Chunk>)
    ensures Tracks(Run(chunks).0, AllOps(chunks))
    ensures Run(chunks).0.started <==> chunks != []
  {
    hide AfterChunk, Tracks;
    if chunks == [] {
      FreshTracks();
    } else {
      RunTracks(chunks[..|chunks| - 1]);
      ChunkTracks(Run(chunks[..|chunks| - 1]).0, AllOps(chunks[..|chunks| - 1]), chunks[|chunks| - 1]);
    }
  }

  lemma FreshTracks()
    ensures Tracks(FRESH, [])
  {
  }

  /** On every run, `response.completed` lists exactly the items the chunks describe. */
  lemma CompletedListsWhatWasSaid(chunks: seq<Chunk>)
    ensures (var (s, bodies) := Finishing(Run(chunks).0);
             && bodies != [] && bodies[|bodies| - 1].Completed?
             && bodies[|bodies| - 1].output == Spoken(AllOps(chunks)))
  {
    hide Run, Spoken, AllOps, Close;
    RunTracks(chunks);
    CloseKeepsItems(Run(chunks).0);
  }

  // ----- a client that watches the events

  /** A client of the event stream: what is finished, and the item it is in the middle of. */
  datatype Client =
    | Waiting
    | Between(done: seq<Item>)
    | Inside(done: seq<Item>, item: Item)
    | Ending(done: seq<Item>, item: Item)
    | Ended(output: seq<Item>, status: Status, usage: Option<Usage>)
    | Confused

  function IdOf(item: Item): ItemId {
    match item
    case Message(k, _) => Msg(k)
    case FunctionCall(i, _, _, _) => Fc(i)
  }

  predicate Empty(item: Item, k: nat) {
    match item
    case Message(n, text) => n == k && text == []
    case FunctionCall(_, _, _, args) => args == []
  }

  /** A client takes an event only where the protocol allows it, and only about the item that is open. */
  function Watch(c: Client, body: Body): Client {
    match body
    case Created(_, _) => if c.Waiting? then Between([]) else Confused
    case ItemAdded(k, item) => if c.Between? && k == |c.done| && Empty(item, k) then Inside(c.done, item) else Confused
    case PartAdded(id, k) =>
      if c.Inside? && k == |c.done| && c.item.Message? && id == IdOf(c.item) then c else Confused
    case TextDelta(id, k, delta) =>
      if c.Inside? && k == |c.done| && c.item.Message? && id == IdOf(c.item)
      then Inside(c.done, c.item.(text := c.item.text + delta)) else Confused
    case ArgumentsDelta(id, k, delta) =>
      if c.Inside? && k == |c.done| && c.item.FunctionCall? && id == IdOf(c.item)
      then Inside(c.done, c.item.(arguments := c.item.arguments + delta)) else Confused
    case TextDone(id, k, text) =>
      if c.Inside? && k == |c.done| && c.item.Message? && id == IdOf(c.item) && text == c.item.text
      then Ending(c.done, c.item) else Confused
    case ArgumentsDone(id, k, args) =>
      if c.Inside? && k == |c.done| && c.item.FunctionCall? && id == IdOf(c.item) && args == c.item.arguments
      then Ending(c.done, c.item) else Confused
    case ItemDone(k, item) =>
      if c.Ending? && k == |c.done| && item == c.item then Between(c.done + [item]) else Confused
    case Completed(_, _, status, output, usage) =>
      if c.Between? && output == c.done then Ended(output, status, usage) else Confused
  }

  function WatchAll(c: Client, bodies: seq<Body>): Client {
    if bodies == [] then c else Watch(WatchAll(c, bodies[..|bodies| - 1]), bodies[|bodies| - 1])
  }

  lemma {:induction false} WatchAppend(c: Client, a: seq<Body>, b: seq<Body>)
    ensures WatchAll(c, a + b) == WatchAll(WatchAll(c, a), b)
  {
    hide Watch;
    if b == [] {
      assert a + b == a;
    } else {
      WatchAppend(c, a, b[..|b| - 1]);
      assert (a + b)[..|a + b| - 1] == a + b[..|b| - 1];
    }
  }

  lemma WatchFew(c: Client, x: Body, y: Body)
    ensures WatchAll(c, []) == c
    ensures WatchAll(c, [x]) == Watch(c, x)
    ensures WatchAll(c, [x, y]) == Watch(Watch(c, x), y)
  {
    hide Watch;
    assert [x][..0] == [] && [x, y][..1] == [x];
  }

  lemma {:induction false} StaysConfused(bodies: seq<Body>)
    ensures WatchAll(Confused, bodies) == Confused
  {
    if bodies != [] {
      StaysConfused(bodies[..|bodies| - 1]);
    }
  }

  /** What a client that has followed so far must have seen. */
  function Expected(s: State): Client {
    match Current(s)
    case None => Between(s.output)
    case Some(item) => Inside(s.output, item)
  }

  predicate Whole(s: State) {
    Counts(s) && (s.open.Some? <==> Current(s).Some?)
  }

  lemma CloseWatched(s: State)
    requires Whole(s)
    ensures WatchAll(Expected(s), Close(s).1) == Between(Close(s).0.output)
    ensures Whole(Close(s).0) && Close(s).0.open == None
  {
    var bodies := Close(s).1;
    if bodies == [] {
      WatchFew(Expected(s), Created([], []), Created([], []));
    } else {
      assert bodies == [bodies[0], bodies[1]];
      WatchFew(Expected(s), bodies[0], bodies[1]);
    }
  }

  lemma OpenTextWatched(s: State)
    requires Whole(s)
    ensures (var (s1, bodies) := OpenText(s);
             && WatchAll(Expected(s), bodies) == Expected(s1) && Whole(s1)
             && s1.open == Some(OpenMessage))
  {
    hide WatchAll, Close;
    CloseWatched(s);
    var (s1, bodies) := Close(s);
    var k := s1.outputIndex;
    var x, y := ItemAdded(k, Message(k, [])), PartAdded(Msg(k), k);
    WatchFew(Between(s1.output), x, y);
    WatchFew(Expected(s), x, y);
    WatchAppend(Expected(s), bodies, [x, y]);
  }

  /** One thing said: the client follows, except for a fragment of a call that is not the open one. */
  lemma DoWatched(s: State, op: Op)
    requires Whole(s)
    ensures Whole(Do(s, op).0)
    ensures WatchAll(Expected(s), Do(s, op).1)
         == if op.Args? && op.index in s.calls && s.open != Some(OpenCall(op.index)) then Confused else Expected(Do(s, op).0)
  {
    hide WatchAll, Close, OpenText;
    match op
    case Say(text) =>
      var (s1, bodies) := OpenText(s);
      OpenTextWatched(s);
      var x := TextDelta(Msg(s1.outputIndex), s1.outputIndex, text);
      WatchAppend(Expected(s), bodies, [x]);
      WatchFew(Expected(s1), x, x);
    case Open(i, callId, name) =>
      var (s1, bodies) := Close(s);
      CloseWatched(s);
      var x := ItemAdded(s1.outputIndex, FunctionCall(i, callId, name, []));
      WatchAppend(Expected(s), bodies, [x]);
      WatchFew(Between(s1.output), x, x);
    case Args(i, fragment) =>
      var x := ArgumentsDelta(Fc(i), s.outputIndex, fragment);
      WatchFew(Expected(s), x, x);
  }

  lemma {:induction false} DoAllWatched(s: State, ops: seq<Op>, more: seq<Op>, c: Client)
    requires Tracks(s, ops) && c == (if InTime(ops) then Expected(s) else Confused)
    ensures WatchAll(c, DoAll(s, more).1) == if InTime(ops + more) then Expected(DoAll(s, more).0) else Confused
  {
    hide Do, Tracks, Watch, Expected;
    if more == [] {
      assert ops + more == ops;
      WatchFew(c, Created([], []), Created([], []));
    } else {
      var front, op := more[..|more| - 1], more[|more| - 1];
      DoAllWatched(s, ops, front, c);
      DoAllTracks(s, ops, front);
      var (s1, bodies) := DoAll(s, front);
      WatchAppend(c, bodies, Do(s1, op).1);
      TracksWhole(s1, ops + front);
      DoWatched(s1, op);
      StaysConfused(Do(s1, op).1);
      assert ops + more == (ops + front) + [op];
      InTimeSnoc(ops + front, op);
    }
  }

  lemma InTimeSnoc(ops: seq<Op>, op: Op)
    ensures InTime(ops + [op])
        <==> InTime(ops) && (op.Args? && op.index in Known(ops) ==> OpenAfter(ops) == Some(OpenCall(op.index)))
  {
    assert (ops + [op])[..|ops|] == ops;
  }

  lemma TracksWhole(s: State, ops: seq<Op>)
    requires Tracks(s, ops)
    ensures Whole(s) && s.calls.Keys == Known(ops) && s.open == OpenAfter(ops)
  {
  }

  lemma {:induction false} RunWatched(chunks: seq<Chunk>)
    ensures chunks != [] ==>
              WatchAll(Waiting, Bodies(chunks))
              == if InTime(AllOps(chunks)) then Expected(Run(chunks).0) else Confused
  {
    hide Do, DoAll, Tracks, Watch, WatchAll, InTime, Ops;
    if chunks != [] {
      var front, chunk := chunks[..|chunks| - 1], chunks[|chunks| - 1];
      RunWatched(front);
      RunTracks(front);
      var s := Run(front).0;
      var (s1, start) := Begin(s, chunk);
      BeginWatched(s, chunk, AllOps(front));
      var bodies := DoAll(s1, Ops(chunk)).1;
      WatchAppend(Waiting, Bodies(front), start + bodies);
      var c := WatchAll(Waiting, Bodies(front));
      WatchAppend(c, start, bodies);
      if front == [] {
        WatchFew(Waiting, Created([], []), Created([], []));
        NothingIsInTime();
      }
      DoAllWatched(s1, AllOps(front), Ops(chunk), if InTime(AllOps(front)) then Expected(s1) else Confused);
    }
  }

  lemma NothingIsInTime()
    ensures InTime([])
  {
  }

  lemma BeginWatched(s: State, chunk: Chunk, ops: seq<Op>)
    requires Tracks(s, ops)
    ensures (var (s1, start) := Begin(s, chunk);
             && Tracks(s1, ops)
             && (s.started ==> s1 == s && forall c :: WatchAll(c, start) == c)
             && (!s.started && ops == [] ==> WatchAll(Waiting, start) == Expected(s1)))
  {
    var (s1, start) := Begin(s, chunk);
    if !s.started {
      WatchFew(Waiting, start[0], start[0]);
    }
  }

  /**
   A client that checks every event against the protocol reaches the end exactly when there was a chunk
   and every fragment arrived while its call's item was open; then it has the items the chunks describe, the
   usage they last gave, and knows the answer to be cut short exactly when they last said so.
   */
  lemma ClientFollowsIff(chunks: seq<Chunk>)
    ensures (var bodies := Bodies(chunks) + Finishing(Run(chunks).0).1;
             && Stream(chunks) == Number(0, bodies)
             && (WatchAll(Waiting, bodies).Ended? <==> chunks != [] && InTime(AllOps(chunks)))
             && (WatchAll(Waiting, bodies).Ended? ==>
                   (var end := WatchAll(Waiting, bodies);
                    && end.output == Spoken(AllOps(chunks))
                    && (end.status == Incomplete <==> LastFinish(chunks) == Some(Length))
                    && end.usage == LastUsage(chunks))))
  {
    hide Tracks, WatchAll, InTime, Spoken, Run, Bodies, Close, Number, AllOps, Whole, Counts;
    hide LastFinish, LastUsage;
    var s := Run(chunks).0;
    RunNumbered(chunks);
    RunNotes(chunks);
    RunTracks(chunks);
    RunWatched(chunks);
    var before, after := Bodies(chunks), Finishing(s).1;
    NumberAppend(0, before, after);
    NumberLength(0, before);
    WatchAppend(Waiting, before, after);
    TracksWhole(s, AllOps(chunks));
    TracksItems(s, AllOps(chunks));
    CloseWatched(s);
    CloseKeepsItems(s);
    var (s1, bodies) := Close(s);
    var x := Completed(s1.id, s1.model, StatusOf(s1.finish), s1.output, s1.usage);
    var c := WatchAll(Waiting, before);
    WatchAppend(c, bodies, [x]);
    StaysConfused(after);
    WatchFew(Between(s1.output), x, x);
    if chunks == [] {
      EmptyRun();
      WatchFew(Waiting, x, x);
    }
  }

  /** What a run remembers of its chunks besides their items. */
  lemma {:induction false} RunNotes(chunks: seq<Chunk>)
    ensures (var s := Run(chunks).0;
             && s.finish == LastFinish(chunks) && s.usage == LastUsage(chunks)
             && (s.started <==> chunks != [])
             && (chunks != [] ==> s.id == RESP + chunks[0].id.GetOr(STREAM) && s.model == chunks[0].model.GetOr([])))
  {
    hide DoAll, Ops;
    if chunks != [] {
      var front, chunk := chunks[..|chunks| - 1], chunks[|chunks| - 1];
      RunNotes(front);
      DoAllKeeps(Begin(Run(front).0, chunk).0, Ops(chunk));
    }
  }

  lemma {:induction false} DoAllKeeps(s: State, ops: seq<Op>)
    ensures DoAll(s, ops).0 == s.(text := DoAll(s, ops).0.text, calls := DoAll(s, ops).0.calls, open := DoAll(s, ops).0.open,
                                  outputIndex := DoAll(s, ops).0.outputIndex, output := DoAll(s, ops).0.output)
  {
    if ops != [] {
      DoAllKeeps(s, ops[..|ops| - 1]);
    }
  }

  /** Both ends of the stream carry one name and one model, those of the first chunk. */
  lemma {:induction false} SameEnvelope(chunks: seq<Chunk>)
    requires chunks != []
    ensures (var id, model := RESP + chunks[0].id.GetOr(STREAM), chunks[0].model.GetOr([]);
             var last := Finishing(Run(chunks).0).1;
             && Bodies(chunks) != [] && Bodies(chunks)[0] == Created(id, model)
             && last != [] && last[|last| - 1].Completed?
             && last[|last| - 1].id == id && last[|last| - 1].model == model)
  {
    hide Run, DoAll, Ops, Close;
    RunNotes(chunks);
    CloseKeepsNames(Run(chunks).0);
    FirstIsCreated(chunks);
  }

  lemma CloseKeepsNames(s: State)
    ensures Close(s).0.id == s.id && Close(s).0.model == s.model
  {
  }

  lemma {:induction false} FirstIsCreated(chunks: seq<Chunk>)
    requires chunks != []
    ensures Bodies(chunks) != []
    ensures Bodies(chunks)[0] == Created(RESP + chunks[0].id.GetOr(STREAM), chunks[0].model.GetOr([]))
  {
    hide DoAll, Ops;
    if |chunks| > 1 {
      FirstIsCreated(chunks[..|chunks| - 1]);
    } else {
      assert chunks[..0] == [];
      assert Run([]).0 == FRESH && Bodies([]) == [];
    }
  }

  lemma NumberLength(from: nat, bodies: seq<Body>)
    ensures |Number(from, bodies)| == |bodies|
  {
  }

  lemma TracksItems(s: State, ops: seq<Op>)
    requires Tracks(s, ops)
    ensures Items(s) == Spoken(ops)
  {
  }

  lemma EmptyRun()
    ensures Run([]) == (FRESH, []) && Bodies([]) == [] && Close(FRESH) == (FRESH, [])
    ensures forall x: Body :: [] + [x] == [x]
  {
  }

  /** A call, then text, then a fragment of the call: the client is lost, whatever they say. */
  lemma LateFragment(i: nat, name: bytes, text: bytes, fragment: bytes)
    requires text != [] && fragment != []
    ensures (var start := Chunk(None, None, None, [CallDelta(Some(i), None, Some(name), None)], None, None);
             var said := Chunk(None, None, Some(text), [], None, None);
             var late := Chunk(None, None, None, [CallDelta(Some(i), None, None, Some(fragment))], None, None);
             var chunks := [start, said, late];
             !InTime(AllOps(chunks)) && !WatchAll(Waiting, Bodies(chunks) + Finishing(Run(chunks).0).1).Ended?)
  {
    hide FromText;
    var start := Chunk(None, None, None, [CallDelta(Some(i), None, Some(name), None)], None, None);
    var said := Chunk(None, None, Some(text), [], None, None);
    var late := Chunk(None, None, None, [CallDelta(Some(i), None, None, Some(fragment))], None, None);
    OpsOfOne(start);
    OpsOfOne(said);
    OpsOfOne(late);
    AllOpsOfThree(start, said, late);
    var ops := AllOps([start, said, late]);
    assert ops == [Open(i, CALL_0, name), Say(text), Args(i, fragment)];
    assert ops[..2] == [Open(i, CALL_0, name), Say(text)] && ops[..2][..1] == [Open(i, CALL_0, name)];
    assert OpenAfter(ops[..2]) == Some(OpenMessage) && Known(ops[..2][..1]) == {} + {i} && i in Known(ops[..2]);
    ClientFollowsIff([start, said, late]);
  }

  lemma OpsOfOne(chunk: Chunk)
    ensures chunk.calls == [] ==> CallsOps(chunk.calls) == []
    ensures |chunk.calls| == 1 ==> CallsOps(chunk.calls) == CallOps(chunk.calls[0])
  {
    hide CallOps;
    if |chunk.calls| == 1 {
      assert chunk.calls[..0] == [];
      assert CallsOps([]) == [];
      assert [] + CallOps(chunk.calls[0]) == CallOps(chunk.calls[0]);
    }
  }

  lemma AllOpsOfThree(a: Chunk, b: Chunk, c: Chunk)
    ensures AllOps([a, b, c]) == Ops(a) + Ops(b) + Ops(c)
  {
    hide Ops;
    assert [a, b, c][..2] == [a, b] && [a, b][..1] == [a] && [a][..0] == [];
    assert AllOps([a]) == [] + Ops(a) == Ops(a);
    assert AllOps([a, b]) == Ops(a) + Ops(b);
  }
}
