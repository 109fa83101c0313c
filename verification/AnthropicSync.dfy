/** Streaming and sync translation of one Anthropic message tell an OpenAI client the same. */
module AnthropicSync {
  import opened Wrappers
  import opened Bytes
  import opened JsonParse
  import opened JsonReading
  import opened JsonGrammar
  import opened OpenAiChunks
  import opened Anthropic

  // ----- the sync translation

  datatype Content =
    | TextContent(text: Option<bytes>)
    | ToolContent(id: Option<bytes>, name: Option<bytes>, input: Json)
    | OtherContent

  datatype Body = Body(id: Option<bytes>, model: Option<bytes>, content: seq<Content>, stop: Option<StopReason>,
                       inputTokens: Option<nat>, outputTokens: Option<nat>)

  datatype Call = Call(id: Option<bytes>, name: bytes, arguments: bytes)

  /** `content` is null when there are calls and no text. */
  datatype Completion = Completion(id: Option<bytes>, model: Option<bytes>, content: Option<bytes>, calls: seq<Call>,
                                   finish: Finish, prompt: Option<nat>, completion: Option<nat>, total: nat)

  /** What one content block adds to the text, and to the calls. */
  function SyncPiece(emulated: bool, c: Content): bytes {
    match c
    case TextContent(text) => text.GetOr([])
    case ToolContent(_, name, input) => if EmulatedTool(emulated, Some(name.GetOr([]))) then Print(input) else []
    case OtherContent => []
  }

  function SyncCall(emulated: bool, c: Content): seq<Call> {
    if c.ToolContent? && !EmulatedTool(emulated, Some(c.name.GetOr([])))
    then [Call(c.id, c.name.GetOr([]), Print(c.input))]
    else []
  }

  function SyncText(emulated: bool, cs: seq<Content>): bytes {
    if cs == [] then [] else SyncText(emulated, cs[..|cs| - 1]) + SyncPiece(emulated, cs[|cs| - 1])
  }

  function SyncCalls(emulated: bool, cs: seq<Content>): seq<Call> {
    if cs == [] then [] else SyncCalls(emulated, cs[..|cs| - 1]) + SyncCall(emulated, cs[|cs| - 1])
  }

  function Sync(emulated: bool, body: Body): Completion {
    var text, calls := SyncText(emulated, body.content), SyncCalls(emulated, body.content);
    Completion(body.id, body.model, if text == [] && calls != [] then None else Some(text), calls,
               FinishFor(emulated, body.stop), body.inputTokens, body.outputTokens,
               body.inputTokens.GetOr(0) + body.outputTokens.GetOr(0))
  }

  /** Build a completion from a whole message, block by block. */
  method ResponseToOpenAi(body: Body, emulated: bool) returns (c: Completion)
    ensures c == Sync(emulated, body)
  {
    hide Print, SyncText, SyncCalls;
    var text: bytes := [];
    var toolCalls: seq<Call> := [];
    SyncNone(emulated);
    assert body.content[..0] == [];
    for k := 0 to |body.content|
      invariant text == SyncText(emulated, body.content[..k])
      invariant toolCalls == SyncCalls(emulated, body.content[..k])
    {
      SyncStep(emulated, body.content, k);
      var block := body.content[k];
      assert text + [] == text && toolCalls + [] == toolCalls;
      match block {
        case TextContent(t) => text := text + t.GetOr([]);
        case ToolContent(id, n, input) =>
          var name := n.GetOr([]);
          var arguments := Print(input);
          if emulated && name == JSON_SCHEMA_TOOL {
            text := text + arguments;
          } else {
            toolCalls := toolCalls + [Call(id, name, arguments)];
          }
        case OtherContent =>
      }
    }
    assert body.content[..|body.content|] == body.content;
    var content := if text == [] && toolCalls != [] then None else Some(text);
    c := Completion(body.id, body.model, content, toolCalls, FinishFor(emulated, body.stop),
                    body.inputTokens, body.outputTokens, body.inputTokens.GetOr(0) + body.outputTokens.GetOr(0));
  }

  lemma SyncNone(emulated: bool)
    ensures SyncText(emulated, []) == [] && SyncCalls(emulated, []) == []
  {
  }

  lemma SyncStep(emulated: bool, cs: seq<Content>, k: nat)
    requires k < |cs|
    ensures SyncText(emulated, cs[..k + 1]) == SyncText(emulated, cs[..k]) + SyncPiece(emulated, cs[k])
    ensures SyncCalls(emulated, cs[..k + 1]) == SyncCalls(emulated, cs[..k]) + SyncCall(emulated, cs[k])
  {
    hide SyncPiece, SyncCall;
    assert cs[..k + 1][..k] == cs[..k];
  }

  // ----- a client that assembles chunks

  datatype Reply = Reply(text: bytes, calls: seq<Call>, finish: Option<Finish>, usage: Option<Usage>)

  const NO_REPLY: Reply := Reply([], [], None, None)

  /** The first fragment of a call names it; later ones add to its arguments. */
  function GatherCall(calls: seq<Call>, c: CallDelta): seq<Call> {
    var i := IndexOf(c);
    if i < |calls| then calls[i := calls[i].(arguments := calls[i].arguments + c.arguments.GetOr([]))]
    else if i == |calls| then calls + [Call(c.id, c.name.GetOr([]), c.arguments.GetOr([]))]
    else calls
  }

  function GatherCalls(calls: seq<Call>, cs: seq<CallDelta>): seq<Call> {
    if cs == [] then calls else GatherCall(GatherCalls(calls, cs[..|cs| - 1]), cs[|cs| - 1])
  }

  function Gather(r: Reply, chunk: Chunk): Reply {
    Reply(r.text + chunk.content.GetOr([]), GatherCalls(r.calls, chunk.calls),
          if chunk.finish.Some? then chunk.finish else r.finish,
          if chunk.usage.Some? then chunk.usage else r.usage)
  }

  function GatherAll(r: Reply, chunks: seq<Chunk>): Reply {
    if chunks == [] then r else Gather(GatherAll(r, chunks[..|chunks| - 1]), chunks[|chunks| - 1])
  }

  lemma {:induction false} GatherAppend(r: Reply, a: seq<Chunk>, b: seq<Chunk>)
    ensures GatherAll(r, a + b) == GatherAll(GatherAll(r, a), b)
  {
    hide Gather;
    if b == [] {
      assert a + b == a;
    } else {
      GatherAppend(r, a, b[..|b| - 1]);
      assert (a + b)[..|a + b| - 1] == a + b[..|b| - 1];
    }
  }

  lemma GatherFew(r: Reply, chunk: Chunk)
    ensures GatherAll(r, []) == r && GatherAll(r, [chunk]) == Gather(r, chunk)
    ensures GatherCalls(r.calls, []) == r.calls
    ensures |chunk.calls| == 1 ==> GatherCalls(r.calls, chunk.calls) == GatherCall(r.calls, chunk.calls[0])
  {
    hide Gather, GatherCall;
    assert [chunk][..0] == [];
    if |chunk.calls| == 1 { assert chunk.calls[..0] == []; }
  }

  // ----- what a streamed message amounts to

  function StreamPiece(emulated: bool, b: Block): bytes {
    match b
    case TextBlock(text) => text
    case ToolBlock(_, name, input) => if EmulatedTool(emulated, Some(name)) then input else []
    case UnknownBlock(json) => if emulated then json else []
  }

  function StreamCall(emulated: bool, b: Block): seq<Call> {
    if b.ToolBlock? && !EmulatedTool(emulated, Some(b.name)) then [Call(b.id, b.name, b.input)] else []
  }

  function StreamText(emulated: bool, bs: seq<Block>): bytes {
    if bs == [] then [] else StreamText(emulated, bs[..|bs| - 1]) + StreamPiece(emulated, bs[|bs| - 1])
  }

  function StreamCalls(emulated: bool, bs: seq<Block>): seq<Call> {
    if bs == [] then [] else StreamCalls(emulated, bs[..|bs| - 1]) + StreamCall(emulated, bs[|bs| - 1])
  }

  lemma StreamSnoc(emulated: bool, bs: seq<Block>, b: Block)
    ensures StreamText(emulated, bs + [b]) == StreamText(emulated, bs) + StreamPiece(emulated, b)
    ensures StreamCalls(emulated, bs + [b]) == StreamCalls(emulated, bs) + StreamCall(emulated, b)
  {
    assert (bs + [b])[..|bs|] == bs;
  }

  /** The translator and its client, part-way through a message. */
  ghost predicate Midway(emulated: bool, m: Message, open: bool, f: Forth, r: Reply) {
    && f.emulated == emulated && f.inputTokens == m.inputTokens
    && r.text == StreamText(emulated, m.blocks)
    && r.calls == StreamCalls(emulated, m.blocks)
    && f.nextTool == |r.calls|
    && (forall k :: k in f.toolIndices ==> k < |m.blocks| && f.toolIndices[k] < f.nextTool)
    && (open ==> OpenTold(emulated, m, f))
  }

  /** The open block's fragments go to the last call, if it is a call. */
  ghost predicate OpenTold(emulated: bool, m: Message, f: Forth) {
    m.blocks != [] &&
    (var k := |m.blocks| - 1;
     if StreamCall(emulated, m.blocks[k]) != []
     then f.nextTool > 0 && k in f.toolIndices && f.toolIndices[k] == f.nextTool - 1
     else k !in f.toolIndices)
  }

  ghost predicate Told(emulated: bool, reader: Reader, f: Forth, r: Reply) {
    f.emulated == emulated &&
    match reader
    case Before => f == NewForth(emulated) && r == NO_REPLY
    case Reading(m, open) => Midway(emulated, m, open, f, r)
    case Stopping(m) => Ended(emulated, m, f, r)
    case Over(m) => Ended(emulated, m, f, r)
    case Bad => true
  }

  ghost predicate Ended(emulated: bool, m: Message, f: Forth, r: Reply) {
    && Midway(emulated, m, false, f, r)
    && r.finish == Some(FinishFor(emulated, m.stop))
    && r.usage == Some(Usage(m.inputTokens, m.outputTokens, m.inputTokens + m.outputTokens))
  }

  lemma StartTold(em: bool, reader: Reader, f: Forth, r: Reply, e: Event)
    requires Told(em, reader, f, r) && e.MessageStart? && Read(reader, e) != Bad
    ensures (var (f1, chunks) := Feed(f, e); Told(em, Read(reader, e), f1, GatherAll(r, chunks)))
  {
    hide GatherAll, GatherCalls;
    GatherFew(r, Feed(f, e).1[0]);
  }

  lemma BlockTold(em: bool, reader: Reader, f: Forth, r: Reply, e: Event)
    requires Told(em, reader, f, r) && e.BlockStart? && Read(reader, e) != Bad
    ensures (var (f1, chunks) := Feed(f, e); Told(em, Read(reader, e), f1, GatherAll(r, chunks)))
  {
    hide GatherAll, GatherCalls, StreamText, StreamCalls;
    var (f1, chunks) := Feed(f, e);
    var b := Started(e.block);
    StreamSnoc(em, reader.m.blocks, b);
    assert r.text + [] == r.text && r.calls + [] == r.calls;
    GatherFew(r, if chunks == [] then TextChunk(f, None) else chunks[0]);
  }

  /** A fragment of an open call joins the last call's arguments. */
  lemma FragmentTold(em: bool, m: Message, f: Forth, r: Reply, e: Event)
    requires Midway(em, m, true, f, r) && e.BlockDelta? && e.delta.JsonDelta? && Read(Reading(m, true), e) != Bad
    requires StreamCall(em, m.blocks[|m.blocks| - 1]) != []
    ensures (var (f1, chunks) := Feed(f, e);
             f1 == f && Midway(em, Read(Reading(m, true), e).m, true, f, GatherAll(r, chunks)))
  {
    hide GatherAll, GatherCalls, StreamText, StreamCalls;
    var n := |m.blocks| - 1;
    var front, last := m.blocks[..n], m.blocks[n];
    var after := Extended(last, e.delta);
    assert front + [last] == m.blocks;
    StreamSnoc(em, front, last);
    StreamSnoc(em, front, after);
    var d := e.delta.partial.GetOr([]);
    assert Feed(f, e).1 == [CallChunk(f, CallDelta(Some(f.nextTool - 1), None, None, Some(d)))];
    GatherFew(r, Feed(f, e).1[0]);
    assert r.text + [] == r.text;
    var cs := StreamCalls(em, front);
    assert r.calls == cs + [Call(last.id, last.name, last.input)];
    assert r.calls[|cs| := Call(last.id, last.name, last.input + d)] == cs + [Call(last.id, last.name, last.input + d)];
  }

  /** Anything else in an open block is content, or nothing. */
  lemma ContentTold(em: bool, m: Message, f: Forth, r: Reply, e: Event)
    requires Midway(em, m, true, f, r) && e.BlockDelta? && Read(Reading(m, true), e) != Bad
    requires e.delta.JsonDelta? ==> StreamCall(em, m.blocks[|m.blocks| - 1]) == []
    ensures (var (f1, chunks) := Feed(f, e);
             f1 == f && Midway(em, Read(Reading(m, true), e).m, true, f, GatherAll(r, chunks)))
  {
    hide GatherAll, StreamText, StreamCalls, StreamPiece, StreamCall, Feed;
    var n := |m.blocks| - 1;
    var front, last := m.blocks[..n], m.blocks[n];
    assert front + [last] == m.blocks;
    StreamSnoc(em, front, last);
    StreamSnoc(em, front, Extended(last, e.delta));
    PieceGrows(em, last, e.delta);
    var d := Said(em, e.delta);
    ContentFed(em, f, r, e);
    assert (StreamText(em, front) + StreamPiece(em, last)) + d == StreamText(em, front) + (StreamPiece(em, last) + d);
  }

  /** What a delta outside a call says as content. */
  function Said(em: bool, d: Delta): bytes {
    match d
    case TextDelta(text) => text.GetOr([])
    case JsonDelta(partial) => if em then partial.GetOr([]) else []
    case OtherDelta => []
  }

  /** A client hears a delta outside a call as that content and nothing else. */
  lemma ContentFed(em: bool, f: Forth, r: Reply, e: Event)
    requires f.emulated == em && e.BlockDelta? && (e.delta.JsonDelta? ==> e.index.GetOr(0) !in f.toolIndices)
    ensures Feed(f, e).0 == f
    ensures GatherAll(r, Feed(f, e).1) == r.(text := r.text + Said(em, e.delta))
  {
    hide GatherAll, GatherCalls;
    var chunks := Feed(f, e).1;
    GatherFew(r, if chunks == [] then TextChunk(f, None) else chunks[0]);
    assert r.text + [] == r.text;
  }

  /** What a delta outside a call adds to its block's piece of the text. */
  lemma PieceGrows(em: bool, b: Block, d: Delta)
    requires Extends(b, d) && (d.JsonDelta? ==> StreamCall(em, b) == [])
    ensures StreamPiece(em, Extended(b, d)) == StreamPiece(em, b) + Said(em, d)
    ensures d.OtherDelta? || StreamCall(em, Extended(b, d)) == StreamCall(em, b) == []
  {
    assert StreamPiece(em, b) + [] == StreamPiece(em, b);
  }

  lemma DeltaTold(em: bool, reader: Reader, f: Forth, r: Reply, e: Event)
    requires Told(em, reader, f, r) && e.BlockDelta? && Read(reader, e) != Bad
    ensures (var (f1, chunks) := Feed(f, e); Told(em, Read(reader, e), f1, GatherAll(r, chunks)))
  {
    hide GatherAll, Midway, Feed, StreamCall;
    if e.delta.JsonDelta? && StreamCall(em, reader.m.blocks[|reader.m.blocks| - 1]) != [] {
      FragmentTold(em, reader.m, f, r, e);
    } else {
      ContentTold(em, reader.m, f, r, e);
    }
  }

  lemma StopTold(em: bool, reader: Reader, f: Forth, r: Reply, e: Event)
    requires Told(em, reader, f, r) && e.MessageDelta? && Read(reader, e) != Bad
    ensures (var (f1, chunks) := Feed(f, e); Told(em, Read(reader, e), f1, GatherAll(r, chunks)))
  {
    hide GatherAll, GatherCalls, StreamText, StreamCalls;
    GatherFew(r, Feed(f, e).1[0]);
    assert r.text + [] == r.text;
  }

  lemma StepTold(em: bool, reader: Reader, f: Forth, r: Reply, e: Event)
    requires Told(em, reader, f, r)
    ensures (var (f1, chunks) := Feed(f, e); Told(em, Read(reader, e), f1, GatherAll(r, chunks)))
  {
    hide GatherAll, Midway;
    if Read(reader, e) == Bad {
    } else if e.MessageStart? {
      StartTold(em, reader, f, r, e);
    } else if e.BlockStart? {
      BlockTold(em, reader, f, r, e);
    } else if e.BlockDelta? {
      DeltaTold(em, reader, f, r, e);
    } else if e.MessageDelta? {
      StopTold(em, reader, f, r, e);
    } else {
      GatherFew(r, TextChunk(f, None));
      if e.BlockStop? { ClosedToo(em, reader.m, f, r); }
    }
  }

  lemma ClosedToo(em: bool, m: Message, f: Forth, r: Reply)
    ensures Midway(em, m, true, f, r) ==> Midway(em, m, false, f, r)
  {
  }

  /** What a client assembles from the chunks of a stream. */
  function Streamed(emulated: bool, es: seq<Event>): Reply {
    GatherAll(NO_REPLY, FeedAll(NewForth(emulated), es).1)
  }

  lemma {:induction false} StreamTold(em: bool, es: seq<Event>)
    ensures Told(em, ReadAll(Before, es), FeedAll(NewForth(em), es).0, Streamed(em, es))
  {
    hide Feed, Read, Told;
    if es == [] {
      FreshTold(em);
    } else {
      var front, e := es[..|es| - 1], es[|es| - 1];
      StreamTold(em, front);
      var (f, chunks) := FeedAll(NewForth(em), front);
      StepTold(em, ReadAll(Before, front), f, Streamed(em, front), e);
      GatherAppend(NO_REPLY, chunks, Feed(f, e).1);
    }
  }

  lemma FreshTold(em: bool)
    ensures Told(em, Before, NewForth(em), NO_REPLY)
  {
  }

  /** The chunk carries a message's name and model. */
  predicate Names(c: Chunk, m: Message) {
    c.id == Some(m.id.GetOr(FromText("msg"))) && c.model == Some(m.model.GetOr([]))
  }

  predicate NamedBy(f: Forth, m: Message) {
    f.id == m.id.GetOr(FromText("msg")) && f.model == m.model.GetOr([])
  }

  /** The chunk that opens an answer: empty text and nothing else. */
  predicate Opening(c: Chunk) {
    c.content == Some([]) && c.calls == [] && c.finish.None? && c.usage.None?
  }

  /** What a client of the original has of the message so far. */
  function SoFar(r: Reader): Option<Message> {
    match r
    case Reading(m, _) => Some(m)
    case Stopping(m) => Some(m)
    case Over(m) => Some(m)
    case _ => None
  }

  lemma DefaultName()
    ensures MSG == FromText("msg")
  {
  }

  lemma StepNamed(f: Forth, r: Reader, e: Event)
    requires Read(r, e) != Bad && (SoFar(r).Some? ==> NamedBy(f, SoFar(r).value))
    ensures (var (f1, chunks) := Feed(f, e);
             var later := SoFar(Read(r, e));
             && (later.Some? ==> NamedBy(f1, later.value) && forall k :: 0 <= k < |chunks| ==> Names(chunks[k], later.value))
             && (later.None? ==> chunks == [] && SoFar(r).None?)
             && (later.Some? && SoFar(r).None? ==> chunks != [] && Opening(chunks[0]))
             && (later.Some? && SoFar(r).Some? ==> later.value.id == SoFar(r).value.id && later.value.model == SoFar(r).value.model))
    ensures r.Before? && SoFar(Read(r, e)).Some? ==> e.MessageStart?
  {
    DefaultName();
  }

  lemma {:induction false} ChunksNamed(em: bool, es: seq<Event>)
    requires ReadAll(Before, es) != Bad
    ensures (var (f, chunks) := FeedAll(NewForth(em), es);
             var m := SoFar(ReadAll(Before, es));
             && (m.Some? ==> NamedBy(f, m.value) && forall k :: 0 <= k < |chunks| ==> Names(chunks[k], m.value))
             && (m.Some? ==> chunks != [] && Opening(chunks[0]))
             && (m.None? ==> chunks == []))
  {
    hide Feed, Read, Names, NamedBy, SoFar, Opening;
    if es == [] {
      NothingRead();
    } else {
      var front, e := es[..|es| - 1], es[|es| - 1];
      var r := ReadAll(Before, front);
      BadIsRead(e);
      ChunksNamed(em, front);
      var (f, before) := FeedAll(NewForth(em), front);
      StepNamed(f, r, e);
      SameNames(r, Read(r, e), before);
    }
  }

  lemma NothingRead()
    ensures SoFar(ReadAll(Before, [])).None?
  {
  }

  lemma BadIsRead(e: Event)
    ensures Read(Bad, e) == Bad
  {
  }

  lemma SameNames(r: Reader, later: Reader, chunks: seq<Chunk>)
    requires SoFar(r).None? ==> chunks == []
    requires SoFar(r).Some? ==> forall k :: 0 <= k < |chunks| ==> Names(chunks[k], SoFar(r).value)
    requires SoFar(r).Some? && SoFar(later).Some? ==>
               SoFar(later).value.id == SoFar(r).value.id && SoFar(later).value.model == SoFar(r).value.model
    ensures SoFar(later).Some? ==> forall k :: 0 <= k < |chunks| ==> Names(chunks[k], SoFar(later).value)
  {
  }

  /**
   A complete message as its chunks tell it: each names it and its model, the first is empty text; the finish reason is its stop reason,
   which is always `stop` under emulation; the usage is its tokens and their sum.
   */
  lemma MessageIsTold(em: bool, es: seq<Event>)
    requires ReadAll(Before, es).Over?
    ensures (var (m, r) := (ReadAll(Before, es).m, Streamed(em, es));
             var chunks := FeedAll(NewForth(em), es).1;
             && (forall k :: 0 <= k < |chunks| ==> Names(chunks[k], m))
             && chunks != [] && Opening(chunks[0])
             && r.finish.Some?
             && (r.finish.value == ToolCalls <==> !em && m.stop == Some(ToolUseStop))
             && (r.finish.value == Length <==> !em && m.stop == Some(MaxTokens))
             && (r.finish.value != ToolCalls && r.finish.value != Length ==> r.finish.value == Stop)
             && r.usage == Some(Usage(m.inputTokens, m.outputTokens, m.inputTokens + m.outputTokens)))
  {
    hide ReadAll, FeedAll, Streamed, Names, NamedBy, Opening;
    StreamTold(em, es);
    ChunksNamed(em, es);
  }

  // ----- one message, streamed and whole

  /** The value an argument text stands for; none at all is the empty object. */
  function ArgumentsValue(args: bytes): Option<Json> {
    if args == [] then Some(JObject([])) else Parse(args)
  }

  /** A streamed block and a content block that are the same. */
  ghost predicate Matches(b: Block, c: Content) {
    match c
    case TextContent(text) => b == TextBlock(text.GetOr([]))
    case ToolContent(id, name, input) =>
      b.ToolBlock? && b.id == id && name == Some(b.name) && ArgumentsValue(b.input) == Some(input) && Printable(input)
    case OtherContent => b.UnknownBlock?
  }

  ghost predicate AllMatch(bs: seq<Block>, cs: seq<Content>) {
    |bs| == |cs| && forall k :: 0 <= k < |bs| ==> Matches(bs[k], cs[k])
  }

  /** The events stream exactly the message `body`. */
  ghost predicate Streams(es: seq<Event>, body: Body) {
    && ReadAll(Before, es).Over?
    && var m := ReadAll(Before, es).m;
       && AllMatch(m.blocks, body.content) && m.stop == body.stop
       && m.inputTokens == body.inputTokens.GetOr(0) && m.outputTokens == body.outputTokens.GetOr(0)
  }

  /** Equal calls, their arguments compared as JSON values. */
  predicate SameCalls(xs: seq<Call>, ys: seq<Call>) {
    |xs| == |ys| &&
    forall k :: 0 <= k < |xs| ==>
      && xs[k].id == ys[k].id && xs[k].name == ys[k].name
      && ArgumentsValue(xs[k].arguments).Some? && ArgumentsValue(xs[k].arguments) == Parse(ys[k].arguments)
  }

  /** Equal pieces of content, or one JSON value written twice. */
  predicate SamePiece(x: bytes, y: bytes) {
    x == y || (Parse(x).Some? && Parse(x) == Parse(y))
  }

  lemma {:induction false} CallsAgree(em: bool, bs: seq<Block>, cs: seq<Content>)
    requires AllMatch(bs, cs)
    ensures SameCalls(StreamCalls(em, bs), SyncCalls(em, cs))
  {
    hide StreamCall, SyncCall, SameCalls, Matches;
    if bs == [] {
      SameCallsAppend([], [], [], []);
    } else {
      var b, c := bs[|bs| - 1], cs[|cs| - 1];
      CallsAgree(em, bs[..|bs| - 1], cs[..|cs| - 1]);
      CallAgrees(em, b, c);
      SameCallsAppend(StreamCalls(em, bs[..|bs| - 1]), SyncCalls(em, cs[..|cs| - 1]), StreamCall(em, b), SyncCall(em, c));
    }
  }

  lemma CallAgrees(em: bool, b: Block, c: Content)
    requires Matches(b, c)
    ensures SameCalls(StreamCall(em, b), SyncCall(em, c))
  {
    hide Print, Parse;
    if c.ToolContent? { ParsePrint(c.input); }
  }

  lemma SameCallsAppend(xs: seq<Call>, ys: seq<Call>, us: seq<Call>, vs: seq<Call>)
    ensures SameCalls([], [])
    ensures SameCalls(xs, ys) && SameCalls(us, vs) ==> SameCalls(xs + us, ys + vs)
  {
    hide ArgumentsValue, Parse;
  }

  lemma PieceAgrees(em: bool, b: Block, c: Content)
    requires Matches(b, c)
    ensures SamePiece(StreamPiece(em, b), SyncPiece(em, c)) <==> !(em && (StrayBlock(b) || SilentSchema(b)))
    ensures !em ==> StreamPiece(em, b) == SyncPiece(em, c)
  {
    hide Print, Parse;
    if c.ToolContent? { ParsePrint(c.input); }
    NothingParsesToNothing();
  }

  lemma NothingParsesToNothing()
    ensures Parse([]).None?
  {
  }

  lemma {:induction false} PlainTextAgrees(bs: seq<Block>, cs: seq<Content>)
    requires AllMatch(bs, cs)
    ensures StreamText(false, bs) == SyncText(false, cs)
  {
    hide Matches;
    if bs != [] {
      PlainTextAgrees(bs[..|bs| - 1], cs[..|cs| - 1]);
      PieceAgrees(false, bs[|bs| - 1], cs[|cs| - 1]);
    }
  }

  /** JSON fragments streamed for blocks of kinds the translator does not know. */
  predicate Stray(bs: seq<Block>) {
    exists k :: 0 <= k < |bs| && StrayBlock(bs[k])
  }

  predicate StrayBlock(b: Block) {
    b.UnknownBlock? && b.json != []
  }

  /** An emulated schema's block whose input came without any fragment. */
  predicate Silent(bs: seq<Block>) {
    exists k :: 0 <= k < |bs| && SilentSchema(bs[k])
  }

  predicate SilentSchema(b: Block) {
    b.ToolBlock? && b.name == JSON_SCHEMA_TOOL && b.input == []
  }

  /** The streamed text, as one piece a block. */
  function StreamPieces(em: bool, bs: seq<Block>): seq<bytes> {
    seq(|bs|, k requires 0 <= k < |bs| => StreamPiece(em, bs[k]))
  }

  function SyncPieces(em: bool, cs: seq<Content>): seq<bytes> {
    seq(|cs|, k requires 0 <= k < |cs| => SyncPiece(em, cs[k]))
  }

  function Joined(pieces: seq<bytes>): bytes {
    if pieces == [] then [] else Joined(pieces[..|pieces| - 1]) + pieces[|pieces| - 1]
  }

  lemma {:induction false} PiecesJoin(em: bool, bs: seq<Block>, cs: seq<Content>)
    ensures Joined(StreamPieces(em, bs)) == StreamText(em, bs)
    ensures Joined(SyncPieces(em, cs)) == SyncText(em, cs)
    decreases |bs| + |cs|
  {
    hide StreamPiece, SyncPiece;
    if bs != [] {
      PiecesJoin(em, bs[..|bs| - 1], []);
      assert StreamPieces(em, bs)[..|bs| - 1] == StreamPieces(em, bs[..|bs| - 1]);
    }
    if cs != [] {
      PiecesJoin(em, [], cs[..|cs| - 1]);
      assert SyncPieces(em, cs)[..|cs| - 1] == SyncPieces(em, cs[..|cs| - 1]);
    }
  }

  /**
   A client that assembles the chunks of a streamed message has the calls, the finish reason and the usage
   of the whole message's completion, and without emulation its text, null exactly when there are only calls.
   */
  lemma StreamAgreesWithSync(em: bool, es: seq<Event>, body: Body)
    requires Streams(es, body)
    ensures (var (r, c) := (Streamed(em, es), Sync(em, body));
             && SameCalls(r.calls, c.calls)
             && r.finish == Some(c.finish)
             && r.usage == Some(Usage(c.prompt.GetOr(0), c.completion.GetOr(0), c.total))
             && (!em ==> r.text == c.content.GetOr([]))
             && (!em ==> (c.content.None? <==> r.text == [] && r.calls != [])))
  {
    hide ReadAll, FeedAll, Streamed, StreamText, StreamCalls, SyncText, SyncCalls, AllMatch, SameCalls;
    StreamTold(em, es);
    var m := ReadAll(Before, es).m;
    CallsAgree(em, m.blocks, body.content);
    PlainTextAgrees(m.blocks, body.content);
    SameNumber(Streamed(em, es).calls, Sync(em, body).calls);
  }

  lemma SameNumber(a: seq<Call>, b: seq<Call>)
    requires SameCalls(a, b)
    ensures |a| == |b|
  {
  }

  /**
   With emulation the two texts are made of the same pieces, block by block and up to how a JSON value is
   written, exactly when no fragments were streamed for a block of an unknown kind, which reach a streaming
   client as content and a sync one not at all, and no schema block came without fragments, which a streaming
   client reads as no text and a sync one as an empty object.
   */
  lemma ContentAgreesIff(em: bool, es: seq<Event>, body: Body)
    requires Streams(es, body)
    ensures (var (bs, cs) := (ReadAll(Before, es).m.blocks, body.content);
             && Streamed(em, es).text == Joined(StreamPieces(em, bs))
             && Sync(em, body).content.GetOr([]) == Joined(SyncPieces(em, cs))
             && |bs| == |cs|
             && ((forall k :: 0 <= k < |bs| ==> SamePiece(StreamPieces(em, bs)[k], SyncPieces(em, cs)[k]))
                 <==> !(em && (Stray(bs) || Silent(bs)))))
  {
    hide ReadAll, FeedAll, Streamed, StreamText, StreamCalls, SyncText, SyncCalls, Matches, Joined, SamePiece;
    StreamTold(em, es);
    var bs, cs := ReadAll(Before, es).m.blocks, body.content;
    PiecesJoin(em, bs, cs);
    forall k | 0 <= k < |bs|
      ensures SamePiece(StreamPieces(em, bs)[k], SyncPieces(em, cs)[k]) <==> !(em && (StrayBlock(bs[k]) || SilentSchema(bs[k])))
    {
      PieceAgrees(em, bs[k], cs[k]);
    }
  }

  /** One block of an unknown kind with fragments: under emulation its stream says them and its completion does not. */
  lemma StrayFragments(json: bytes)
    requires json != []
    ensures (var es := [MessageStart(None, None, None), BlockStart(Some(0), OtherBlock), BlockDelta(Some(0), JsonDelta(Some(json))),
                        BlockStop(Some(0)), MessageDelta(Some(EndTurn), None), MessageStop];
             var body := Body(None, None, [OtherContent], Some(EndTurn), None, None);
             && Streams(es, body) && Stray(ReadAll(Before, es).m.blocks)
             && Streamed(true, es).text == json && Sync(true, body).content == Some([]))
  {
    hide ReadAll, FeedAll, Streamed;
    var m := Message(None, None, 0, [UnknownBlock(json)], Some(EndTurn), 0);
    StrayReads(json);
    assert AllMatch(m.blocks, [OtherContent]);
    assert StrayBlock(m.blocks[0]);
    var es := [MessageStart(None, None, None), BlockStart(Some(0), OtherBlock), BlockDelta(Some(0), JsonDelta(Some(json))),
               BlockStop(Some(0)), MessageDelta(Some(EndTurn), None), MessageStop];
    StreamTold(true, es);
    assert m.blocks[..0] == [] && [] + json == json;
    assert StreamText(true, m.blocks) == StreamText(true, []) + json;
    var whole := [OtherContent];
    assert whole[..0] == [];
    assert SyncText(true, whole) == SyncText(true, []) + [] && SyncCalls(true, whole) == SyncCalls(true, []) + [];
  }

  lemma StrayReads(json: bytes)
    ensures ReadAll(Before, [MessageStart(None, None, None), BlockStart(Some(0), OtherBlock),
                             BlockDelta(Some(0), JsonDelta(Some(json))), BlockStop(Some(0)),
                             MessageDelta(Some(EndTurn), None), MessageStop])
         == Over(Message(None, None, 0, [UnknownBlock(json)], Some(EndTurn), 0))
  {
    hide ReadAll, Read;
    var a, b, c := MessageStart(None, None, None), BlockStart(Some(0), OtherBlock), BlockDelta(Some(0), JsonDelta(Some(json)));
    var d, e, f := BlockStop(Some(0)), MessageDelta(Some(EndTurn), None), MessageStop;
    assert [a, b, c] + [d, e, f] == [a, b, c, d, e, f];
    ReadAppend(Before, [a, b, c], [d, e, f]);
    ReadFew(Before, a, b, c);
    StrayBegins(json);
    var m := Message(None, None, 0, [UnknownBlock(json)], None, 0);
    ReadFew(Reading(m, true), d, e, f);
    MessageEnds(m);
  }

  lemma StrayBegins(json: bytes)
    ensures Read(Read(Read(Before, MessageStart(None, None, None)), BlockStart(Some(0), OtherBlock)),
                 BlockDelta(Some(0), JsonDelta(Some(json))))
         == Reading(Message(None, None, 0, [UnknownBlock(json)], None, 0), true)
  {
    var begun: seq<Block> := [UnknownBlock([])];
    assert [] + begun == begun && begun[..0] + [UnknownBlock(json)] == [UnknownBlock(json)] && [] + json == json;
  }

  lemma MessageEnds(m: Message)
    requires |m.blocks| == 1
    ensures Read(Read(Read(Reading(m, true), BlockStop(Some(0))), MessageDelta(Some(EndTurn), None)), MessageStop)
         == Over(m.(stop := Some(EndTurn), outputTokens := 0))
  {
  }

  /** A schema block without fragments: under emulation its stream says nothing and its completion an empty object. */
  lemma SilentSchemaBlock()
    ensures (var es := [MessageStart(None, None, None), BlockStart(Some(0), ToolStart(None, Some(JSON_SCHEMA_TOOL))),
                        BlockStop(Some(0)), MessageDelta(Some(EndTurn), None), MessageStop];
             var body := Body(None, None, [ToolContent(None, Some(JSON_SCHEMA_TOOL), JObject([]))], Some(EndTurn), None, None);
             && Streams(es, body) && !Stray(ReadAll(Before, es).m.blocks) && Silent(ReadAll(Before, es).m.blocks)
             && Streamed(true, es).text == [] && Sync(true, body).content == Some([LBRACE, RBRACE]))
  {
    hide ReadAll, FeedAll, Streamed, Parse;
    var schema := ToolBlock(None, JSON_SCHEMA_TOOL, []);
    var m := Message(None, None, 0, [schema], Some(EndTurn), 0);
    SilentReads();
    var c := ToolContent(None, Some(JSON_SCHEMA_TOOL), JObject([]));
    assert Matches(schema, c) && AllMatch(m.blocks, [c]);
    assert SilentSchema(m.blocks[0]);
    var es := [MessageStart(None, None, None), BlockStart(Some(0), ToolStart(None, Some(JSON_SCHEMA_TOOL))),
               BlockStop(Some(0)), MessageDelta(Some(EndTurn), None), MessageStop];
    StreamTold(true, es);
    assert m.blocks[..0] == [];
    assert StreamText(true, m.blocks) == StreamText(true, []) + [];
    EmptyObjectSyncs(c);
    assert Streamed(true, es).text == [];
    var body := Body(None, None, [c], Some(EndTurn), None, None);
    assert Streams(es, body);
    assert !Stray(m.blocks) && Silent(m.blocks);
  }

  lemma EmptyObjectSyncs(c: Content)
    requires c == ToolContent(None, Some(JSON_SCHEMA_TOOL), JObject([]))
    ensures SyncText(true, [c]) == [LBRACE, RBRACE] && SyncCalls(true, [c]) == []
  {
    EmptyObjectPrints();
    SyncNone(true);
    assert [c][..0] == [];
    var none: seq<Call> := [];
    assert none + none == none && [] + [LBRACE, RBRACE] == [LBRACE, RBRACE];
    assert SyncCalls(true, [c]) == SyncCalls(true, []) + SyncCall(true, c);
  }

  lemma EmptyObjectPrints()
    ensures Print(JObject([])) == [LBRACE, RBRACE]
  {
    assert CompactMembers([]) == NoMembers([]);
  }

  lemma SilentReads()
    ensures ReadAll(Before, [MessageStart(None, None, None), BlockStart(Some(0), ToolStart(None, Some(JSON_SCHEMA_TOOL))),
                             BlockStop(Some(0)), MessageDelta(Some(EndTurn), None), MessageStop])
         == Over(Message(None, None, 0, [ToolBlock(None, JSON_SCHEMA_TOOL, [])], Some(EndTurn), 0))
  {
    hide ReadAll, Read;
    var a, b := MessageStart(None, None, None), BlockStart(Some(0), ToolStart(None, Some(JSON_SCHEMA_TOOL)));
    var d, e, f := BlockStop(Some(0)), MessageDelta(Some(EndTurn), None), MessageStop;
    assert [a, b] + [d, e, f] == [a, b, d, e, f];
    ReadAppend(Before, [a, b], [d, e, f]);
    ReadFew(Before, a, b, b);
    SilentBegins();
    var m := Message(None, None, 0, [ToolBlock(None, JSON_SCHEMA_TOOL, [])], None, 0);
    ReadFew(Reading(m, true), d, e, f);
    MessageEnds(m);
  }

  lemma SilentBegins()
    ensures Read(Read(Before, MessageStart(None, None, None)), BlockStart(Some(0), ToolStart(None, Some(JSON_SCHEMA_TOOL))))
         == Reading(Message(None, None, 0, [ToolBlock(None, JSON_SCHEMA_TOOL, [])], None, 0), true)
  {
    var begun: seq<Block> := [ToolBlock(None, JSON_SCHEMA_TOOL, [])];
    assert [] + begun == begun;
  }
}
