/**
 The two stream translators of `anthropic.rs`: Anthropic events to OpenAI chunks, and back. Events are
 given parsed; what neither translator looks at is `OtherEvent`, `OtherBlock` or `OtherDelta`.
 */
module Anthropic {
  import opened Wrappers
  import opened Bytes
  import opened OpenAiChunks

  datatype StopReason = EndTurn | ToolUseStop | MaxTokens | OtherStop(reason: bytes)

  datatype StartBlock = TextStart | ToolStart(id: Option<bytes>, name: Option<bytes>) | OtherBlock

  datatype Delta = TextDelta(text: Option<bytes>) | JsonDelta(partial: Option<bytes>) | OtherDelta

  datatype Event =
    | MessageStart(id: Option<bytes>, model: Option<bytes>, inputTokens: Option<nat>)
    | BlockStart(index: Option<nat>, block: StartBlock)
    | BlockDelta(index: Option<nat>, delta: Delta)
    | BlockStop(index: Option<nat>)
    | MessageDelta(stop: Option<StopReason>, outputTokens: Option<nat>)
    | MessageStop
    | OtherEvent

  /** The tool a JSON schema is emulated with. */
  const JSON_SCHEMA_TOOL: bytes := FromText("__rapid_json_output")
  const MSG: bytes := FromText("msg")

  function FinishFor(emulated: bool, stop: Option<StopReason>): Finish {
    if emulated then Stop
    else
      match stop
      case Some(ToolUseStop) => ToolCalls
      case Some(MaxTokens) => Length
      case _ => Stop
  }

  function StopFor(finish: Option<Finish>): StopReason {
    match finish
    case Some(ToolCalls) => ToolUseStop
    case Some(Length) => MaxTokens
    case _ => EndTurn
  }

  // ----- Anthropic events to OpenAI chunks, on values

  datatype Forth = Forth(id: bytes, model: bytes, toolIndices: map<nat, nat>, nextTool: nat, roleSent: bool,
                         inputTokens: nat, finish: Option<Finish>, emulated: bool)

  function NewForth(emulated: bool): Forth {
    Forth([], [], map[], 0, false, 0, None, emulated)
  }

  predicate EmulatedTool(emulated: bool, name: Option<bytes>) {
    emulated && name == Some(JSON_SCHEMA_TOOL)
  }

  function TextChunk(f: Forth, content: Option<bytes>): Chunk {
    Chunk(Some(f.id), Some(f.model), content, [], None, None)
  }

  function CallChunk(f: Forth, call: CallDelta): Chunk {
    Chunk(Some(f.id), Some(f.model), None, [call], None, None)
  }

  function LastChunk(f: Forth, finish: Finish, usage: Usage): Chunk {
    Chunk(Some(f.id), Some(f.model), None, [], Some(finish), Some(usage))
  }

  function Feed(f: Forth, e: Event): (Forth, seq<Chunk>) {
    match e
    case MessageStart(id, model, input) =>
      var f1 := f.(id := id.GetOr(MSG), model := model.GetOr([]), inputTokens := input.GetOr(0), roleSent := true);
      (f1, [TextChunk(f1, Some([]))])
    case BlockStart(index, ToolStart(id, name)) =>
      if EmulatedTool(f.emulated, name) then (f, [])
      else (f.(toolIndices := f.toolIndices[index.GetOr(0) := f.nextTool], nextTool := f.nextTool + 1),
            [CallChunk(f, CallDelta(Some(f.nextTool), id, name, Some([])))])
    case BlockDelta(_, TextDelta(text)) => (f, [TextChunk(f, text)])
    case BlockDelta(index, JsonDelta(partial)) =>
      var fragment := partial.GetOr([]);
      if index.GetOr(0) in f.toolIndices
      then (f, [CallChunk(f, CallDelta(Some(f.toolIndices[index.GetOr(0)]), None, None, Some(fragment)))])
      else if f.emulated then (f, [TextChunk(f, Some(fragment))])
      else (f, [])
    case MessageDelta(stop, output) =>
      var finish, tokens := FinishFor(f.emulated, stop), output.GetOr(0);
      (f.(finish := Some(finish)), [LastChunk(f, finish, Usage(f.inputTokens, tokens, f.inputTokens + tokens))])
    case _ => (f, [])
  }

  function FeedAll(f: Forth, es: seq<Event>): (Forth, seq<Chunk>) {
    if es == [] then (f, [])
    else
      var (f1, chunks) := FeedAll(f, es[..|es| - 1]);
      var (f2, more) := Feed(f1, es[|es| - 1]);
      (f2, chunks + more)
  }

  class StreamToOpenAi {
    var id: bytes
    var model: bytes
    var toolIndices: map<nat, nat>
    var nextTool: nat
    var roleSent: bool
    var inputTokens: nat
    var finish: Option<Finish>
    const emulated: bool

    constructor (jsonSchemaEmulated: bool)
      ensures Contents() == NewForth(jsonSchemaEmulated)
    {
      id, model, toolIndices, nextTool := [], [], map[], 0;
      roleSent, inputTokens, finish, emulated := false, 0, None, jsonSchemaEmulated;
    }

    function Contents(): Forth
      reads this
    {
      Forth(id, model, toolIndices, nextTool, roleSent, inputTokens, finish, emulated)
    }

    /** Feed one upstream event. */
    method OnEvent(e: Event) returns (chunks: seq<Chunk>)
      modifies this
      ensures (Contents(), chunks) == Feed(old(Contents()), e)
    {
      chunks := [];
      match e {
        case MessageStart(newId, newModel, input) =>
          id := newId.GetOr(MSG);
          model := newModel.GetOr([]);
          inputTokens := input.GetOr(0);
          roleSent := true;
          chunks := [TextChunk(Contents(), Some([]))];
        case BlockStart(index, block) =>
          if block.ToolStart? && !EmulatedTool(emulated, block.name) {
            var toolIndex := nextTool;
            toolIndices := toolIndices[index.GetOr(0) := toolIndex];
            nextTool := nextTool + 1;
            chunks := [CallChunk(Contents(), CallDelta(Some(toolIndex), block.id, block.name, Some([])))];
          }
        case BlockDelta(index, delta) =>
          match delta {
            case TextDelta(text) => chunks := [TextChunk(Contents(), text)];
            case JsonDelta(partial) =>
              var fragment := partial.GetOr([]);
              if index.GetOr(0) in toolIndices {
                chunks := [CallChunk(Contents(), CallDelta(Some(toolIndices[index.GetOr(0)]), None, None, Some(fragment)))];
              } else if emulated {
                chunks := [TextChunk(Contents(), Some(fragment))];
              }
            case OtherDelta =>
          }
        case MessageDelta(stop, output) =>
          var reason, tokens := FinishFor(emulated, stop), output.GetOr(0);
          finish := Some(reason);
          chunks := [LastChunk(Contents(), reason, Usage(inputTokens, tokens, inputTokens + tokens))];
        case _ =>
      }
    }
  }

  // ----- OpenAI chunks to Anthropic events, on values

  datatype OpenBlock = OpenBlock(index: nat, isTool: bool)

  datatype Back = Back(started: bool, open: Option<OpenBlock>, nextBlock: nat, toolBlocks: map<nat, nat>,
                       finish: Option<Finish>, usage: Option<Usage>)

  const NEW_BACK: Back := Back(false, None, 0, map[], None, None)

  function Close(b: Back): (Back, seq<Event>) {
    if b.open.None? then (b, []) else (b.(open := None), [BlockStop(Some(b.open.value.index))])
  }

  function Begin(b: Back, chunk: Chunk): (Back, seq<Event>) {
    if b.started then (b, []) else (b.(started := true), [MessageStart(chunk.id, chunk.model, Some(0))])
  }

  function SayText(b: Back, text: bytes): (Back, seq<Event>) {
    if text == [] then (b, [])
    else if b.open.Some? && !b.open.value.isTool
    then (b, [BlockDelta(Some(b.open.value.index), TextDelta(Some(text)))])
    else
      var (b1, events) := Close(b);
      var k := b1.nextBlock;
      (b1.(nextBlock := k + 1, open := Some(OpenBlock(k, false))),
       events + [BlockStart(Some(k), TextStart), BlockDelta(Some(k), TextDelta(Some(text)))])
  }

  function StartCall(b: Back, call: CallDelta): (Back, seq<Event>) {
    if call.name.None? then (b, [])
    else
      var (b1, events) := Close(b);
      var k := b1.nextBlock;
      (b1.(nextBlock := k + 1, toolBlocks := b1.toolBlocks[IndexOf(call) := k], open := Some(OpenBlock(k, true))),
       events + [BlockStart(Some(k), ToolStart(call.id, call.name))])
  }

  function Fragment(b: Back, call: CallDelta): seq<Event> {
    if call.arguments.GetOr([]) != [] && IndexOf(call) in b.toolBlocks
    then [BlockDelta(Some(b.toolBlocks[IndexOf(call)]), JsonDelta(call.arguments))]
    else []
  }

  function SayCall(b: Back, call: CallDelta): (Back, seq<Event>) {
    var (b1, events) := StartCall(b, call);
    (b1, events + Fragment(b1, call))
  }

  function SayCalls(b: Back, calls: seq<CallDelta>): (Back, seq<Event>) {
    if calls == [] then (b, [])
    else
      var (b1, events) := SayCalls(b, calls[..|calls| - 1]);
      var (b2, more) := SayCall(b1, calls[|calls| - 1]);
      (b2, events + more)
  }

  function Return(b: Back, chunk: Chunk): (Back, seq<Event>) {
    var (b1, start) := Begin(b, chunk);
    var (b2, text) := SayText(b1, chunk.content.GetOr([]));
    var (b3, calls) := SayCalls(b2, chunk.calls);
    (b3.(usage := if chunk.usage.Some? then chunk.usage else b3.usage,
         finish := if chunk.finish.Some? then chunk.finish else b3.finish),
     start + text + calls)
  }

  function ReturnAll(b: Back, chunks: seq<Chunk>): (Back, seq<Event>) {
    if chunks == [] then (b, [])
    else
      var (b1, events) := ReturnAll(b, chunks[..|chunks| - 1]);
      var (b2, more) := Return(b1, chunks[|chunks| - 1]);
      (b2, events + more)
  }

  function Finishing(b: Back): (Back, seq<Event>) {
    var (b1, events) := Close(b);
    var tokens := if b1.usage.Some? then b1.usage.value.completion else 0;
    (b1, events + [MessageDelta(Some(StopFor(b1.finish)), Some(tokens)), MessageStop])
  }

  class OpenAiToAnthropicStream {
    var started: bool
    var openBlock: Option<OpenBlock>
    var nextBlock: nat
    var toolBlocks: map<nat, nat>
    var finish: Option<Finish>
    var usage: Option<Usage>

    constructor ()
      ensures Contents() == NEW_BACK
    {
      started, openBlock, nextBlock, toolBlocks, finish, usage := false, None, 0, map[], None, None;
    }

    function Contents(): Back
      reads this
    {
      Back(started, openBlock, nextBlock, toolBlocks, finish, usage)
    }

    /** Feed one chunk. */
    method OnChunk(chunk: Chunk) returns (events: seq<Event>)
      modifies this
      ensures (Contents(), events) == Return(old(Contents()), chunk)
    {
      hide SayCalls, SayCall, Close;
      events := [];
      if !started {
        started := true;
        events := events + [MessageStart(chunk.id, chunk.model, Some(0))];
      }
      ghost var (b1, start) := Begin(old(Contents()), chunk);
      assert events == start && Contents() == b1;
      if chunk.content.GetOr([]) != [] {
        var said := AddText(chunk.content.value);
        events := events + said;
      } else {
        assert events + [] == events;
      }
      ghost var (b2, text) := SayText(b1, chunk.content.GetOr([]));
      assert events == start + text && Contents() == b2;
      SayNoCalls(b2);
      assert chunk.calls[..0] == [] && events + [] == events;
      for k := 0 to |chunk.calls|
        invariant Contents() == SayCalls(b2, chunk.calls[..k]).0
        invariant events == start + text + SayCalls(b2, chunk.calls[..k]).1
      {
        SayCallsStep(b2, chunk.calls, k);
        ghost var before, sofar := Contents(), events;
        var more := AddCall(chunk.calls[k]);
        events := events + more;
        assert (start + text + SayCalls(b2, chunk.calls[..k]).1) + SayCall(before, chunk.calls[k]).1
            == start + text + (SayCalls(b2, chunk.calls[..k]).1 + SayCall(before, chunk.calls[k]).1);
      }
      assert chunk.calls[..|chunk.calls|] == chunk.calls;
      if chunk.usage.Some? {
        usage := chunk.usage;
      }
      if chunk.finish.Some? {
        finish := chunk.finish;
      }
    }

    method AddText(text: bytes) returns (events: seq<Event>)
      requires text != []
      modifies this
      ensures (Contents(), events) == SayText(old(Contents()), text)
    {
      events := [];
      if !(openBlock.Some? && !openBlock.value.isTool) {
        events := CloseOpenBlock();
        ghost var closed := events;
        var index := nextBlock;
        nextBlock := nextBlock + 1;
        openBlock := Some(OpenBlock(index, false));
        events := events + [BlockStart(Some(index), TextStart)];
        assert events + [BlockDelta(Some(index), TextDelta(Some(text)))]
            == closed + [BlockStart(Some(index), TextStart), BlockDelta(Some(index), TextDelta(Some(text)))];
      }
      assert [] + [BlockDelta(Some(openBlock.value.index), TextDelta(Some(text)))]
          == [BlockDelta(Some(openBlock.value.index), TextDelta(Some(text)))];
      events := events + [BlockDelta(Some(openBlock.value.index), TextDelta(Some(text)))];
    }

    method AddCall(call: CallDelta) returns (events: seq<Event>)
      modifies this
      ensures (Contents(), events) == SayCall(old(Contents()), call)
    {
      events := [];
      if call.name.Some? {
        events := CloseOpenBlock();
        var index := nextBlock;
        nextBlock := nextBlock + 1;
        toolBlocks := toolBlocks[IndexOf(call) := index];
        openBlock := Some(OpenBlock(index, true));
        events := events + [BlockStart(Some(index), ToolStart(call.id, call.name))];
      }
      assert (Contents(), events) == StartCall(old(Contents()), call);
      if call.arguments.GetOr([]) != [] && IndexOf(call) in toolBlocks {
        events := events + [BlockDelta(Some(toolBlocks[IndexOf(call)]), JsonDelta(call.arguments))];
      } else {
        assert events + [] == events;
      }
    }

    method CloseOpenBlock() returns (events: seq<Event>)
      modifies this
      ensures (Contents(), events) == Close(old(Contents()))
    {
      events := [];
      if openBlock.Some? {
        events := [BlockStop(Some(openBlock.value.index))];
        openBlock := None;
      }
    }

    /** End of the stream: close what is open and say how it ended. */
    method Finish() returns (events: seq<Event>)
      modifies this
      ensures (Contents(), events) == Finishing(old(Contents()))
    {
      events := CloseOpenBlock();
      ghost var closed := events;
      var tokens := if usage.Some? then usage.value.completion else 0;
      events := events + [MessageDelta(Some(StopFor(finish)), Some(tokens))];
      events := events + [MessageStop];
      assert events == closed + [MessageDelta(Some(StopFor(finish)), Some(tokens)), MessageStop];
    }
  }

  lemma SayNoCalls(b: Back)
    ensures SayCalls(b, []) == (b, [])
  {
  }

  lemma SayCallsStep(b: Back, calls: seq<CallDelta>, k: nat)
    requires k < |calls|
    ensures (var (b1, events) := SayCalls(b, calls[..k]);
             var (b2, more) := SayCall(b1, calls[k]);
             SayCalls(b, calls[..k + 1]) == (b2, events + more))
  {
    assert calls[..k + 1][..k] == calls[..k];
  }

  // ----- a client that assembles an Anthropic message

  datatype Block =
    | TextBlock(text: bytes)
    | ToolBlock(id: Option<bytes>, name: bytes, input: bytes)
    | UnknownBlock(json: bytes)

  datatype Message = Message(id: Option<bytes>, model: Option<bytes>, inputTokens: nat, blocks: seq<Block>,
                             stop: Option<StopReason>, outputTokens: nat)

  /** While `open`, the last block is still being filled. */
  datatype Reader = Before | Reading(m: Message, open: bool) | Stopping(m: Message) | Over(m: Message) | Bad

  predicate Startable(block: StartBlock) {
    block.ToolStart? ==> block.name.Some?
  }

  function Started(block: StartBlock): Block
    requires Startable(block)
  {
    match block
    case TextStart => TextBlock([])
    case ToolStart(id, name) => ToolBlock(id, name.value, [])
    case OtherBlock => UnknownBlock([])
  }

  predicate Extends(b: Block, d: Delta) {
    match d
    case TextDelta(_) => b.TextBlock?
    case JsonDelta(_) => !b.TextBlock?
    case OtherDelta => true
  }

  function Extended(b: Block, d: Delta): Block
    requires Extends(b, d)
  {
    match d
    case TextDelta(text) => b.(text := b.text + text.GetOr([]))
    case JsonDelta(partial) =>
      if b.ToolBlock? then b.(input := b.input + partial.GetOr([])) else b.(json := b.json + partial.GetOr([]))
    case OtherDelta => b
  }

  /** Blocks are numbered from 0 and come one after another; anything else is `Bad`. */
  function Read(r: Reader, e: Event): Reader {
    match e
    case OtherEvent => r
    case MessageStart(id, model, input) =>
      if r.Before? then Reading(Message(id, model, input.GetOr(0), [], None, 0), false) else Bad
    case BlockStart(index, block) =>
      if r.Reading? && !r.open && index.GetOr(0) == |r.m.blocks| && Startable(block)
      then Reading(r.m.(blocks := r.m.blocks + [Started(block)]), true)
      else Bad
    case BlockDelta(index, delta) =>
      if r.Reading? && r.open && index.GetOr(0) == |r.m.blocks| - 1 && Extends(r.m.blocks[|r.m.blocks| - 1], delta)
      then
        var n := |r.m.blocks| - 1;
        r.(m := r.m.(blocks := r.m.blocks[..n] + [Extended(r.m.blocks[n], delta)]))
      else Bad
    case BlockStop(index) =>
      if r.Reading? && r.open && index.GetOr(0) == |r.m.blocks| - 1 then r.(open := false) else Bad
    case MessageDelta(stop, output) =>
      if r.Stopping? || (r.Reading? && !r.open) then Stopping(r.m.(stop := stop, outputTokens := output.GetOr(0))) else Bad
    case MessageStop => if r.Stopping? then Over(r.m) else Bad
  }

  function ReadAll(r: Reader, es: seq<Event>): Reader {
    if es == [] then r else Read(ReadAll(r, es[..|es| - 1]), es[|es| - 1])
  }

  lemma {:induction false} ReadAppend(r: Reader, a: seq<Event>, b: seq<Event>)
    ensures ReadAll(r, a + b) == ReadAll(ReadAll(r, a), b)
  {
    hide Read;
    if b == [] {
      assert a + b == a;
    } else {
      ReadAppend(r, a, b[..|b| - 1]);
      assert (a + b)[..|a + b| - 1] == a + b[..|b| - 1];
    }
  }

  lemma ReadFew(r: Reader, x: Event, y: Event, z: Event)
    ensures ReadAll(r, []) == r
    ensures ReadAll(r, [x]) == Read(r, x)
    ensures ReadAll(r, [x, y]) == Read(Read(r, x), y)
    ensures ReadAll(r, [x, y, z]) == Read(Read(Read(r, x), y), z)
  {
    hide Read;
    assert [x][..0] == [] && [x, y][..1] == [x] && [x, y, z][..2] == [x, y];
  }
}
