/** When the Anthropic events made from an arbitrary chunk stream form a message, and which. */
module AnthropicContiguity {
  import opened Wrappers
  import opened Bytes
  import opened OpenAiChunks
  import opened Anthropic
  import opened AnthropicRoundTrip

  /** What chunks say, one thing at a time: text, the start of a call, a fragment of its arguments. */
  datatype Op = Text(text: bytes) | Start(call: CallDelta) | More(call: CallDelta)

  function CallOps(c: CallDelta): seq<Op> {
    (if c.name.Some? then [Start(c)] else []) + (if c.arguments.GetOr([]) != [] then [More(c)] else [])
  }

  function CallsOps(calls: seq<CallDelta>): seq<Op> {
    if calls == [] then [] else CallsOps(calls[..|calls| - 1]) + CallOps(calls[|calls| - 1])
  }

  function Ops(chunk: Chunk): seq<Op> {
    (if chunk.content.GetOr([]) != [] then [Text(chunk.content.value)] else []) + CallsOps(chunk.calls)
  }

  function AllOps(chunks: seq<Chunk>): seq<Op> {
    if chunks == [] then [] else AllOps(chunks[..|chunks| - 1]) + Ops(chunks[|chunks| - 1])
  }

  /** The call whose block is open: the last one started, unless text came after it. */
  function OpenCall(ops: seq<Op>): Option<nat> {
    if ops == [] then None
    else
      match ops[|ops| - 1]
      case Text(_) => None
      case Start(c) => Some(IndexOf(c))
      case More(_) => OpenCall(ops[..|ops| - 1])
  }

  function Known(ops: seq<Op>): set<nat> {
    if ops == [] then {}
    else Known(ops[..|ops| - 1]) + (if ops[|ops| - 1].Start? then {IndexOf(ops[|ops| - 1].call)} else {})
  }

  /** Every fragment of a call that was started arrives while that call's block is open. */
  predicate InTime(ops: seq<Op>) {
    ops == [] ||
    (var front, op := ops[..|ops| - 1], ops[|ops| - 1];
     InTime(front) && (op.More? && IndexOf(op.call) in Known(front) ==> OpenCall(front) == Some(IndexOf(op.call))))
  }

  /** The blocks the chunks describe. */
  function Blocks(ops: seq<Op>): seq<Block> {
    if ops == [] then []
    else
      var before := Blocks(ops[..|ops| - 1]);
      match ops[|ops| - 1]
      case Text(text) => AddBlock(before, TextBlock(text))
      case Start(c) => before + [ToolBlock(c.id, c.name.GetOr([]), [])]
      case More(c) =>
        if before != [] && before[|before| - 1].ToolBlock? && OpenCall(ops[..|ops| - 1]) == Some(IndexOf(c))
        then
          var last := before[|before| - 1];
          before[..|before| - 1] + [last.(input := last.input + c.arguments.GetOr([]))]
        else before
  }

  predicate Proper(op: Op) {
    match op
    case Text(text) => text != []
    case Start(c) => c.name.Some?
    case More(c) => c.arguments.GetOr([]) != []
  }

  function Do(b: Back, op: Op): (Back, seq<Event>) {
    match op
    case Text(text) => SayText(b, text)
    case Start(c) => StartCall(b, c)
    case More(c) => (b, Fragment(b, c))
  }

  function DoAll(b: Back, ops: seq<Op>): (Back, seq<Event>) {
    if ops == [] then (b, [])
    else
      var (b1, events) := DoAll(b, ops[..|ops| - 1]);
      var (b2, more) := Do(b1, ops[|ops| - 1]);
      (b2, events + more)
  }

  // ----- the translator does a chunk's ops

  lemma DoSnoc(b: Back, ops: seq<Op>, op: Op)
    ensures (var (b1, events) := DoAll(b, ops);
             var (b2, more) := Do(b1, op);
             DoAll(b, ops + [op]) == (b2, events + more))
  {
    assert (ops + [op])[..|ops|] == ops;
  }

  lemma DoNothing(b: Back)
    ensures DoAll(b, []) == (b, [])
  {
  }

  lemma CallDone(b: Back, ops: seq<Op>, c: CallDelta)
    ensures (var (b1, events) := DoAll(b, ops);
             var (b2, more) := SayCall(b1, c);
             DoAll(b, ops + CallOps(c)) == (b2, events + more))
  {
    hide DoAll, StartCall, Fragment;
    var (b1, events) := DoAll(b, ops);
    var start := if c.name.Some? then [Start(c)] else [];
    var (b2, begun) := StartCall(b1, c);
    NoCall(b1, c);
    if c.name.Some? { DoSnoc(b, ops, Start(c)); }
    assert ops + [] == ops && events + [] == events;
    assert DoAll(b, ops + start) == (b2, events + begun);
    if c.arguments.GetOr([]) != [] {
      DoSnoc(b, ops + start, More(c));
      assert (ops + start) + [More(c)] == ops + CallOps(c);
    } else {
      assert start + [] == start;
    }
    assert (events + begun) + Fragment(b2, c) == events + (begun + Fragment(b2, c));
    assert (events + begun) + [] == events + begun;
  }

  lemma NoCall(b: Back, c: CallDelta)
    ensures c.name.None? ==> StartCall(b, c) == (b, [])
    ensures forall b1: Back :: c.arguments.GetOr([]) == [] ==> Fragment(b1, c) == []
  {
  }

  lemma {:induction false} CallsDone(b: Back, ops: seq<Op>, calls: seq<CallDelta>)
    ensures (var (b1, events) := DoAll(b, ops);
             var (b2, more) := SayCalls(b1, calls);
             DoAll(b, ops + CallsOps(calls)) == (b2, events + more))
  {
    hide DoAll, SayCall, CallOps;
    var (b1, events) := DoAll(b, ops);
    if calls == [] {
      assert ops + [] == ops && events + [] == events;
    } else {
      var front, c := calls[..|calls| - 1], calls[|calls| - 1];
      CallsDone(b, ops, front);
      CallDone(b, ops + CallsOps(front), c);
      assert (ops + CallsOps(front)) + CallOps(c) == ops + CallsOps(calls);
      var (b2, some) := SayCalls(b1, front);
      assert (events + some) + SayCall(b2, c).1 == events + (some + SayCall(b2, c).1);
    }
  }

  /** A chunk is its ops, after the start of the message and before its notes on how the message ends. */
  lemma ChunkDone(b: Back, chunk: Chunk)
    ensures (var (b1, start) := Begin(b, chunk);
             var (b2, events) := DoAll(b1, Ops(chunk));
             var (b3, all) := Return(b, chunk);
             && b3 == b2.(usage := b3.usage, finish := b3.finish)
             && all == start + events)
  {
    hide SayCalls, SayText, CallsOps, DoAll;
    var (b1, start) := Begin(b, chunk);
    var text := if chunk.content.GetOr([]) != [] then [Text(chunk.content.value)] else [];
    DoNothing(b1);
    assert [] + text == text;
    SayNothing(b1);
    if text != [] { DoSnoc(b1, [], text[0]); }
    var (b2, said) := SayText(b1, chunk.content.GetOr([]));
    assert [] + said == said;
    CallsDone(b1, text, chunk.calls);
    assert (start + said) + SayCalls(b2, chunk.calls).1 == start + (said + SayCalls(b2, chunk.calls).1);
  }

  lemma SayNothing(b: Back)
    ensures SayText(b, []) == (b, [])
  {
  }

  // ----- what its client has

  /** The translator after `ops`, in terms of `ops`. */
  ghost predicate Tracks(b: Back, ops: seq<Op>) {
    var ns := Blocks(ops);
    && Wired(b, ns)
    && b.toolBlocks.Keys == Known(ops)
    && (ns != [] ==> (ns[|ns| - 1].ToolBlock? <==> OpenCall(ops).Some?))
    && (ns == [] ==> OpenCall(ops).None?)
    && (forall j :: j in b.toolBlocks ==>
          b.toolBlocks[j] < |ns| && (b.toolBlocks[j] == |ns| - 1 <==> OpenCall(ops) == Some(j)))
    && (OpenCall(ops).Some? ==> OpenCall(ops).value in b.toolBlocks)
  }

  ghost predicate Follows(h: Head, r: Reader, ops: seq<Op>) {
    r == if InTime(ops) then Assembled(h, Blocks(ops)) else Bad
  }

  /** The reference, one op further. */
  lemma {:induction false} OpSnoc(ops: seq<Op>, op: Op)
    ensures OpenCall(ops + [op])
         == match op case Text(_) => None case Start(c) => Some(IndexOf(c)) case More(_) => OpenCall(ops)
    ensures Known(ops + [op]) == Known(ops) + if op.Start? then {IndexOf(op.call)} else {}
    ensures InTime(ops + [op])
        <==> InTime(ops) && (op.More? && IndexOf(op.call) in Known(ops) ==> OpenCall(ops) == Some(IndexOf(op.call)))
    ensures (var ns := Blocks(ops);
             Blocks(ops + [op])
             == match op
                case Text(text) => AddBlock(ns, TextBlock(text))
                case Start(c) => ns + [ToolBlock(c.id, c.name.GetOr([]), [])]
                case More(c) =>
                  if ns != [] && ns[|ns| - 1].ToolBlock? && OpenCall(ops) == Some(IndexOf(c))
                  then ns[..|ns| - 1] + [ns[|ns| - 1].(input := ns[|ns| - 1].input + c.arguments.GetOr([]))]
                  else ns)
  {
    assert (ops + [op])[..|ops|] == ops;
  }

  lemma {:induction false} BadStays(es: seq<Event>)
    ensures ReadAll(Bad, es) == Bad
  {
    if es != [] {
      BadStays(es[..|es| - 1]);
    }
  }

  lemma TextFollows(h: Head, b: Back, ops: seq<Op>, text: bytes)
    requires Tracks(b, ops) && text != []
    ensures (var (b1, events) := SayText(b, text);
             var ops1 := ops + [Text(text)];
             Tracks(b1, ops1) && ReadAll(Assembled(h, Blocks(ops)), events) == Assembled(h, Blocks(ops1)))
  {
    hide ReadAll, SayText, Blocks, Known, InTime, OpenCall;
    OpSnoc(ops, Text(text));
    BackText(b, h, Blocks(ops), text);
  }

  lemma StartFollows(h: Head, b: Back, ops: seq<Op>, c: CallDelta)
    requires Tracks(b, ops) && c.name.Some?
    ensures (var (b1, events) := StartCall(b, c);
             var ops1 := ops + [Start(c)];
             Tracks(b1, ops1) && ReadAll(Assembled(h, Blocks(ops)), events) == Assembled(h, Blocks(ops1)))
  {
    hide ReadAll, StartCall, Blocks, Known, InTime, OpenCall;
    OpSnoc(ops, Start(c));
    var plain := c.(arguments := Some([]));
    BackCall(b, h, Blocks(ops), plain);
    PlainStart(b, c);
  }

  lemma PlainStart(b: Back, c: CallDelta)
    ensures SayCall(b, c.(arguments := Some([]))) == StartCall(b, c)
  {
    assert StartCall(b, c).1 + [] == StartCall(b, c).1;
  }

  /** A fragment is taken exactly when its call is the open one; of an unknown call it is not even sent. */
  lemma {:induction false} MoreFollows(h: Head, b: Back, ops: seq<Op>, c: CallDelta)
    requires Tracks(b, ops) && c.arguments.GetOr([]) != []
    ensures (var ops1 := ops + [More(c)];
             && Tracks(b, ops1)
             && ReadAll(Assembled(h, Blocks(ops)), Fragment(b, c))
                == if IndexOf(c) in Known(ops) && OpenCall(ops) != Some(IndexOf(c)) then Bad else Assembled(h, Blocks(ops1)))
  {
    hide ReadAll, Blocks, Known, InTime, OpenCall, Assembled;
    OpSnoc(ops, More(c));
    var ns := Blocks(ops);
    if IndexOf(c) !in b.toolBlocks {
      ReadFew(Assembled(h, ns), OtherEvent, OtherEvent, OtherEvent);
    } else {
      var k := b.toolBlocks[IndexOf(c)];
      var x := BlockDelta(Some(k), JsonDelta(c.arguments));
      ReadFew(Assembled(h, ns), x, x, x);
      ReadFragment(h, ns, k, c.arguments.value);
    }
  }

  /** A client takes a fragment for the last block if that is a tool, and no other. */
  lemma ReadFragment(h: Head, ns: seq<Block>, k: nat, fragment: bytes)
    requires k < |ns|
    ensures (var n := |ns| - 1;
             Read(Assembled(h, ns), BlockDelta(Some(k), JsonDelta(Some(fragment))))
             == if k != n || ns[n].TextBlock? then Bad
                else Assembled(h, ns[..n] + [Extended(ns[n], JsonDelta(Some(fragment)))]))
  {
  }

  lemma DoFollows(h: Head, b: Back, ops: seq<Op>, op: Op, r: Reader)
    requires Tracks(b, ops) && Proper(op) && Follows(h, r, ops)
    ensures (var (b1, events) := Do(b, op); Tracks(b1, ops + [op]) && Follows(h, ReadAll(r, events), ops + [op]))
  {
    hide ReadAll, SayText, StartCall, Fragment, Blocks, Known, InTime, OpenCall, Tracks, Assembled;
    OpSnoc(ops, op);
    BadStays(Do(b, op).1);
    match op
    case Text(text) => TextFollows(h, b, ops, text);
    case Start(c) => StartFollows(h, b, ops, c);
    case More(c) => MoreFollows(h, b, ops, c);
  }

  lemma {:induction false} DoAllFollows(h: Head, b: Back, ops: seq<Op>, more: seq<Op>, r: Reader)
    requires Tracks(b, ops) && Follows(h, r, ops) && forall k :: 0 <= k < |more| ==> Proper(more[k])
    ensures (var (b1, events) := DoAll(b, more); Tracks(b1, ops + more) && Follows(h, ReadAll(r, events), ops + more))
  {
    hide Do, Tracks, Follows, Proper, ReadAll;
    if more == [] {
      assert ops + more == ops;
      ReadFew(r, OtherEvent, OtherEvent, OtherEvent);
    } else {
      var front, op := more[..|more| - 1], more[|more| - 1];
      DoAllFollows(h, b, ops, front, r);
      var (b1, events) := DoAll(b, front);
      DoFollows(h, b1, ops + front, op, ReadAll(r, events));
      ReadAppend(r, events, Do(b1, op).1);
      assert ops + more == (ops + front) + [op];
    }
  }

  lemma OpsProper(chunk: Chunk)
    ensures forall k :: 0 <= k < |Ops(chunk)| ==> Proper(Ops(chunk)[k])
  {
    CallsProper(chunk.calls);
  }

  lemma {:induction false} CallsProper(calls: seq<CallDelta>)
    ensures forall k :: 0 <= k < |CallsOps(calls)| ==> Proper(CallsOps(calls)[k])
  {
    if calls != [] {
      CallsProper(calls[..|calls| - 1]);
    }
  }

  function HeadOf(chunks: seq<Chunk>): Head
    requires chunks != []
  {
    Head(chunks[0].id, chunks[0].model)
  }

  lemma BeginFollows(chunk: Chunk)
    ensures (var (b, events) := Begin(NEW_BACK, chunk);
             Tracks(b, []) && Follows(Head(chunk.id, chunk.model), ReadAll(Before, events), []))
  {
    hide ReadAll;
    var x := Begin(NEW_BACK, chunk).1[0];
    ReadFew(Before, x, x, x);
  }

  lemma ChunkFollows(h: Head, b: Back, ops: seq<Op>, chunk: Chunk, r: Reader)
    requires Tracks(b, ops) && Follows(h, r, ops)
    ensures (var (b1, events) := Return(b, chunk);
             Tracks(b1, ops + Ops(chunk)) && Follows(h, ReadAll(r, events), ops + Ops(chunk)))
  {
    hide ReadAll, Return, DoAll, Follows, Blocks, Known, OpenCall, Ops;
    ChunkDone(b, chunk);
    OpsProper(chunk);
    DoAllFollows(h, b, ops, Ops(chunk), r);
    var events := DoAll(b, Ops(chunk)).1;
    assert [] + events == events;
  }

  lemma FirstFollows(chunk: Chunk)
    ensures (var (b1, events) := Return(NEW_BACK, chunk);
             Tracks(b1, Ops(chunk)) && Follows(Head(chunk.id, chunk.model), ReadAll(Before, events), Ops(chunk)))
  {
    hide ReadAll, Return, DoAll, Follows, Blocks, Known, OpenCall, Ops;
    ChunkDone(NEW_BACK, chunk);
    OpsProper(chunk);
    BeginFollows(chunk);
    var (b, start) := Begin(NEW_BACK, chunk);
    var h := Head(chunk.id, chunk.model);
    DoAllFollows(h, b, [], Ops(chunk), ReadAll(Before, start));
    ReadAppend(Before, start, DoAll(b, Ops(chunk)).1);
    assert [] + Ops(chunk) == Ops(chunk);
  }

  lemma {:induction false} RunFollows(chunks: seq<Chunk>)
    requires chunks != []
    ensures (var (b, events) := ReturnAll(NEW_BACK, chunks);
             Tracks(b, AllOps(chunks)) && Follows(HeadOf(chunks), ReadAll(Before, events), AllOps(chunks)))
  {
    hide ReadAll, Return, Follows, Tracks, Ops;
    var front, chunk := chunks[..|chunks| - 1], chunks[|chunks| - 1];
    if front == [] {
      FirstFollows(chunk);
      assert ReturnAll(NEW_BACK, front) == (NEW_BACK, []);
      assert [] + Return(NEW_BACK, chunk).1 == Return(NEW_BACK, chunk).1 && [] + Ops(chunk) == Ops(chunk);
    } else {
      RunFollows(front);
      var (b, events) := ReturnAll(NEW_BACK, front);
      ChunkFollows(HeadOf(chunks), b, AllOps(front), chunk, ReadAll(Before, events));
      ReadAppend(Before, events, Return(b, chunk).1);
    }
  }

  /** The way back remembers the last finish reason and the last usage. */
  lemma {:induction false} BackNotes(chunks: seq<Chunk>)
    ensures (var b := ReturnAll(NEW_BACK, chunks).0; b.finish == LastFinish(chunks) && b.usage == LastUsage(chunks))
  {
    hide SayCalls;
    if chunks != [] {
      var front, chunk := chunks[..|chunks| - 1], chunks[|chunks| - 1];
      BackNotes(front);
      var b := SayText(Begin(ReturnAll(NEW_BACK, front).0, chunk).0, chunk.content.GetOr([])).0;
      CallsKeepNotes(b, chunk.calls);
    }
  }

  lemma {:induction false} CallsKeepNotes(b: Back, calls: seq<CallDelta>)
    ensures SayCalls(b, calls).0.finish == b.finish && SayCalls(b, calls).0.usage == b.usage
  {
    if calls != [] { CallsKeepNotes(b, calls[..|calls| - 1]); }
  }

  /** Everything the translator says about a chunk stream, its end included. */
  function Translation(chunks: seq<Chunk>): seq<Event> {
    var (b, events) := ReturnAll(NEW_BACK, chunks);
    events + Finishing(b).1
  }

  lemma EndFollows(h: Head, b: Back, ns: seq<Block>, r: Reader)
    requires Wired(b, ns) && (r == Bad || r == Assembled(h, ns))
    ensures ReadAll(r, Finishing(b).1).Over? <==> r != Bad
    ensures r != Bad ==>
              ReadAll(r, Finishing(b).1).m
              == Message(h.id, h.model, 0, ns, Some(StopFor(b.finish)), if b.usage.Some? then b.usage.value.completion else 0)
  {
    hide ReadAll, Close;
    BadStays(Finishing(b).1);
    BackCloses(b, h, ns);
    var tokens := if b.usage.Some? then b.usage.value.completion else 0;
    var x, y := MessageDelta(Some(StopFor(b.finish)), Some(tokens)), MessageStop;
    ReadAppend(Assembled(h, ns), Close(b).1, [x, y]);
    ReadFew(Assembled(h, ns).(open := false), x, y, y);
  }

  /**
   For any chunks at all, the translated stream is a complete sequential message exactly when there was a
   chunk and every fragment arrived while its call's block was open; it then has the blocks the chunks describe,
   the name and the model of the first chunk, the completion tokens the chunks last gave, and stops for its tools
   or for its length exactly when the chunks last said so.
   */
  lemma TranslationReadsIff(chunks: seq<Chunk>)
    ensures ReadAll(Before, Translation(chunks)).Over? <==> chunks != [] && InTime(AllOps(chunks))
    ensures ReadAll(Before, Translation(chunks)).Over? ==>
              (var m := ReadAll(Before, Translation(chunks)).m;
               && m.blocks == Blocks(AllOps(chunks))
               && m.id == chunks[0].id && m.model == chunks[0].model && m.inputTokens == 0
               && m.stop.Some?
               && (m.stop.value == ToolUseStop <==> LastFinish(chunks) == Some(ToolCalls))
               && (m.stop.value == MaxTokens <==> LastFinish(chunks) == Some(Length))
               && (m.stop.value != ToolUseStop && m.stop.value != MaxTokens ==> m.stop.value == EndTurn)
               && m.outputTokens == if LastUsage(chunks).Some? then LastUsage(chunks).value.completion else 0)
  {
    hide ReadAll, ReturnAll, Finishing, InTime, Blocks, AllOps, LastFinish, LastUsage;
    BackNotes(chunks);
    var (b, events) := ReturnAll(NEW_BACK, chunks);
    ReadAppend(Before, events, Finishing(b).1);
    if chunks == [] {
      NothingTranslated();
    } else {
      RunFollows(chunks);
      EndFollows(HeadOf(chunks), b, Blocks(AllOps(chunks)), ReadAll(Before, events));
    }
  }

  lemma NothingTranslated()
    ensures !ReadAll(Before, Translation([])).Over?
    ensures (var (b, events) := ReturnAll(NEW_BACK, []); !ReadAll(ReadAll(Before, events), Finishing(b).1).Over?)
  {
    hide ReadAll;
    assert ReturnAll(NEW_BACK, []) == (NEW_BACK, []);
    var x, y := MessageDelta(Some(EndTurn), Some(0)), MessageStop;
    ReadFew(Before, x, y, y);
    assert [] + [x, y] == [x, y];
    assert [] + ([] + [x, y]) == [x, y];
  }

  /** A call, then text, then a fragment of the call: the client is lost, whatever they say. */
  lemma LateFragment(i: nat, name: bytes, text: bytes, fragment: bytes)
    requires text != [] && fragment != []
    ensures (var start := Chunk(None, None, None, [CallDelta(Some(i), None, Some(name), None)], None, None);
             var said := Chunk(None, None, Some(text), [], None, None);
             var late := Chunk(None, None, None, [CallDelta(Some(i), None, None, Some(fragment))], None, None);
             var chunks := [start, said, late];
             !InTime(AllOps(chunks)) && !ReadAll(Before, Translation(chunks)).Over?)
  {
    var start := Chunk(None, None, None, [CallDelta(Some(i), None, Some(name), None)], None, None);
    var said := Chunk(None, None, Some(text), [], None, None);
    var late := Chunk(None, None, None, [CallDelta(Some(i), None, None, Some(fragment))], None, None);
    OpsOfOne(start);
    OpsOfOne(said);
    OpsOfOne(late);
    AllOpsOfThree(start, said, late);
    var ops := AllOps([start, said, late]);
    assert ops == [Start(start.calls[0]), Text(text), More(late.calls[0])];
    assert ops[..2] == [Start(start.calls[0]), Text(text)] && ops[..2][..1] == [Start(start.calls[0])];
    var before := ops[..2];
    assert OpenCall(before) == None;
    assert before[..1][..0] == [] && Known([]) == {};
    assert Known(before[..1]) == {} + {i};
    assert Known(before) == Known(before[..1]) + {};
    TranslationReadsIff([start, said, late]);
  }

  lemma OpsOfOne(chunk: Chunk)
    ensures chunk.calls == [] ==> CallsOps(chunk.calls) == []
    ensures |chunk.calls| == 1 ==> CallsOps(chunk.calls) == CallOps(chunk.calls[0])
  {
    hide CallOps;
    if |chunk.calls| == 1 {
      assert chunk.calls[..0] == [];
      assert CallsOps([]) == [];
      assert [] + CallOps(chunk.calls[0]) == CallOps(chunk.calls[0]);
    }
  }

  lemma AllOpsOfThree(a: Chunk, b: Chunk, c: Chunk)
    ensures AllOps([a, b, c]) == Ops(a) + Ops(b) + Ops(c)
  {
    hide Ops;
    assert [a, b, c][..2] == [a, b] && [a, b][..1] == [a] && [a][..0] == [];
    assert AllOps([a]) == [] + Ops(a) == Ops(a);
    assert AllOps([a, b]) == Ops(a) + Ops(b);
  }
}
