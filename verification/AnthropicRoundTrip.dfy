/** Translating an Anthropic stream to OpenAI chunks and back says the same message. */
module AnthropicRoundTrip {
  import opened Wrappers
  import opened Bytes
  import opened OpenAiChunks
  import opened Anthropic

  // ----- what a message comes back as

  /** Text joins the text before it, empty text and blocks of unknown kinds go. */
  function AddBlock(ns: seq<Block>, b: Block): seq<Block> {
    match b
    case TextBlock(text) =>
      if text == [] then ns
      else if ns != [] && ns[|ns| - 1].TextBlock?
      then ns[..|ns| - 1] + [TextBlock(ns[|ns| - 1].text + text)]
      else ns + [b]
    case ToolBlock(_, _, _) => ns + [b]
    case UnknownBlock(_) => ns
  }

  function Normal(blocks: seq<Block>): seq<Block> {
    if blocks == [] then [] else AddBlock(Normal(blocks[..|blocks| - 1]), blocks[|blocks| - 1])
  }

  function StopBack(stop: Option<StopReason>): StopReason {
    if stop == Some(ToolUseStop) then ToolUseStop else if stop == Some(MaxTokens) then MaxTokens else EndTurn
  }

  /** The message a client of the second translation assembles. */
  function Returned(m: Message): Message {
    Message(Some(m.id.GetOr(MSG)), Some(m.model.GetOr([])), 0, Normal(m.blocks), Some(StopBack(m.stop)), m.outputTokens)
  }

  lemma NormalSnoc(blocks: seq<Block>, b: Block)
    ensures Normal(blocks + [b]) == AddBlock(Normal(blocks), b)
  {
    assert (blocks + [b])[..|blocks|] == blocks;
  }

  lemma AddTextTwice(ns: seq<Block>, a: bytes, b: bytes)
    ensures AddBlock(AddBlock(ns, TextBlock(a)), TextBlock(b)) == AddBlock(ns, TextBlock(a + b))
  {
    if a == [] {
      assert a + b == b;
    } else if b == [] {
      assert a + b == a;
    } else if ns != [] && ns[|ns| - 1].TextBlock? {
      var t := ns[|ns| - 1].text;
      assert (t + a) + b == t + (a + b);
      var one := ns[..|ns| - 1] + [TextBlock(t + a)];
      assert one[..|one| - 1] == ns[..|ns| - 1];
    } else {
      var one := ns + [TextBlock(a)];
      assert one[..|one| - 1] == ns;
    }
  }

  // ----- the second translator, fed one kind of chunk

  datatype Head = Head(id: Option<bytes>, model: Option<bytes>)

  /** The client of the second translation, with `ns` assembled; its last block stays open. */
  function Assembled(h: Head, ns: seq<Block>): Reader {
    Reading(Message(h.id, h.model, 0, ns, None, 0), ns != [])
  }

  predicate Wired(b: Back, ns: seq<Block>) {
    && b.started && b.nextBlock == |ns|
    && b.open == (if ns == [] then None else Some(OpenBlock(|ns| - 1, ns[|ns| - 1].ToolBlock?)))
    && forall k :: 0 <= k < |ns| ==> !ns[k].UnknownBlock?
  }

  lemma BackCloses(b: Back, h: Head, ns: seq<Block>)
    requires Wired(b, ns)
    ensures ReadAll(Assembled(h, ns), Close(b).1) == Assembled(h, ns).(open := false)
    ensures Close(b).0 == b.(open := None)
  {
    hide ReadAll;
    var x := if ns == [] then OtherEvent else BlockStop(Some(|ns| - 1));
    ReadFew(Assembled(h, ns), x, x, x);
  }

  /** Text after anything but text opens a block. */
  lemma BackNewText(b: Back, h: Head, ns: seq<Block>, text: bytes)
    requires Wired(b, ns) && text != [] && (ns == [] || !ns[|ns| - 1].TextBlock?)
    ensures (var (b1, events) := SayText(b, text);
             var ns1 := ns + [TextBlock(text)];
             && Wired(b1, ns1)
             && b1 == b.(open := b1.open, nextBlock := b1.nextBlock)
             && ReadAll(Assembled(h, ns), events) == Assembled(h, ns1))
  {
    hide ReadAll, Close, Read, Assembled;
    var n := |ns|;
    BackCloses(b, h, ns);
    var x, y := BlockStart(Some(n), TextStart), BlockDelta(Some(n), TextDelta(Some(text)));
    ReadAppend(Assembled(h, ns), Close(b).1, [x, y]);
    ReadNewText(h, ns, text);
  }

  /** A client reads a new text block with its first text. */
  lemma ReadNewText(h: Head, ns: seq<Block>, text: bytes)
    ensures Assembled(h, ns).Reading?
    ensures ReadAll(Reading(Assembled(h, ns).m, false),
                    [BlockStart(Some(|ns|), TextStart), BlockDelta(Some(|ns|), TextDelta(Some(text)))])
         == Assembled(h, ns + [TextBlock(text)])
  {
    hide ReadAll;
    var x, y := BlockStart(Some(|ns|), TextStart), BlockDelta(Some(|ns|), TextDelta(Some(text)));
    ReadFew(Reading(Assembled(h, ns).m, false), x, y, y);
    assert [] + text == text;
    var begun := ns + [TextBlock([])];
    assert begun[..|ns|] == ns;
  }

  /** Text after text joins its block. */
  lemma BackMoreText(b: Back, h: Head, ns: seq<Block>, text: bytes)
    requires Wired(b, ns) && text != [] && ns != [] && ns[|ns| - 1].TextBlock?
    ensures (var (b1, events) := SayText(b, text);
             var ns1 := ns[..|ns| - 1] + [TextBlock(ns[|ns| - 1].text + text)];
             && Wired(b1, ns1) && b1 == b
             && ReadAll(Assembled(h, ns), events) == Assembled(h, ns1))
  {
    hide ReadAll, Close;
    var x := BlockDelta(Some(|ns| - 1), TextDelta(Some(text)));
    ReadFew(Assembled(h, ns), x, x, x);
  }

  /** Text said to the second translator is text its client adds. */
  lemma BackText(b: Back, h: Head, ns: seq<Block>, text: bytes)
    requires Wired(b, ns)
    ensures (var (b1, events) := SayText(b, text);
             var ns1 := AddBlock(ns, TextBlock(text));
             && Wired(b1, ns1)
             && b1 == b.(open := b1.open, nextBlock := b1.nextBlock)
             && ReadAll(Assembled(h, ns), events) == Assembled(h, ns1))
  {
    hide ReadAll, Close, Assembled, Wired;
    if text == [] {
      ReadFew(Assembled(h, ns), OtherEvent, OtherEvent, OtherEvent);
    } else if ns != [] && ns[|ns| - 1].TextBlock? {
      BackMoreText(b, h, ns, text);
    } else {
      BackNewText(b, h, ns, text);
    }
  }

  /** A call that begins is a tool block its client adds. */
  lemma BackCall(b: Back, h: Head, ns: seq<Block>, call: CallDelta)
    requires Wired(b, ns) && call.name.Some? && call.arguments == Some([])
    ensures (var (b1, events) := SayCall(b, call);
             var ns1 := ns + [ToolBlock(call.id, call.name.value, [])];
             && Wired(b1, ns1)
             && b1 == b.(open := b1.open, nextBlock := b1.nextBlock, toolBlocks := b.toolBlocks[IndexOf(call) := |ns|])
             && ReadAll(Assembled(h, ns), events) == Assembled(h, ns1))
  {
    hide ReadAll, Close;
    BackCloses(b, h, ns);
    var r := Assembled(h, ns);
    var x := BlockStart(Some(|ns|), ToolStart(call.id, call.name));
    ReadAppend(r, Close(b).1, [x]);
    ReadFew(r.(open := false), x, x, x);
    assert SayCall(b, call).1 == (Close(b).1 + [x]) + [] == Close(b).1 + [x];
  }

  /** A fragment of the last tool block extends it. */
  lemma BackFragment(b: Back, h: Head, ns: seq<Block>, call: CallDelta)
    requires Wired(b, ns) && ns != [] && ns[|ns| - 1].ToolBlock?
    requires call.name.None? && call.arguments.Some?
    requires IndexOf(call) in b.toolBlocks && b.toolBlocks[IndexOf(call)] == |ns| - 1
    ensures (var (b1, events) := SayCall(b, call);
             var last := ns[|ns| - 1];
             var ns1 := ns[..|ns| - 1] + [last.(input := last.input + call.arguments.value)];
             && Wired(b1, ns1) && b1 == b
             && ReadAll(Assembled(h, ns), events) == Assembled(h, ns1))
  {
    hide ReadAll, Close;
    var r := Assembled(h, ns);
    var x := BlockDelta(Some(|ns| - 1), JsonDelta(call.arguments));
    ReadFew(r, x, x, x);
    assert [] + Fragment(b, call) == Fragment(b, call);
    var last := ns[|ns| - 1];
    if call.arguments.value == [] {
      assert last.input + [] == last.input;
      assert ns[..|ns| - 1] + [last] == ns;
    }
  }

  // ----- one chunk

  /** A chunk of one kind, on a translator that has started. */
  lemma ReturnOne(b: Back, chunk: Chunk)
    requires b.started
    ensures chunk.calls == [] ==>
              (var (b1, events) := SayText(b, chunk.content.GetOr([]));
               Return(b, chunk) == (b1.(usage := if chunk.usage.Some? then chunk.usage else b1.usage,
                                        finish := if chunk.finish.Some? then chunk.finish else b1.finish), events))
    ensures |chunk.calls| == 1 && chunk.content.None? && chunk.usage.None? && chunk.finish.None? ==>
              Return(b, chunk) == SayCall(b, chunk.calls[0])
  {
    hide SayCall, SayCalls;
    SayNoCalls(b);
    var (b1, events) := SayText(b, chunk.content.GetOr([]));
    SayNoCalls(b1);
    assert [] + events + [] == events;
    if |chunk.calls| == 1 {
      SayCallsStep(b, chunk.calls, 0);
      assert chunk.calls[..0] == [] && chunk.calls[..1] == chunk.calls;
      var said := SayCall(b, chunk.calls[0]).1;
      assert [] + [] + ([] + said) == said;
    }
  }

  // ----- the two translators in a row

  /** Between the client of the original stream and the client of the translated one. */
  ghost predicate Common(m: Message, f: Forth, b: Back, r2: Reader) {
    && f.id == m.id.GetOr(MSG) && f.model == m.model.GetOr([])
    && Wired(b, Normal(m.blocks))
    && r2 == Assembled(Head(Some(f.id), Some(f.model)), Normal(m.blocks))
    && (forall k :: k in f.toolIndices ==> k < |m.blocks| && f.toolIndices[k] < f.nextTool)
  }

  /** The open block is wired through both translators, or known to neither. */
  ghost predicate LastWired(m: Message, f: Forth, b: Back) {
    m.blocks != [] &&
    (var k := |m.blocks| - 1;
     if m.blocks[k].ToolBlock?
     then k in f.toolIndices && f.toolIndices[k] in b.toolBlocks
          && b.toolBlocks[f.toolIndices[k]] == |Normal(m.blocks)| - 1
     else k !in f.toolIndices)
  }

  ghost predicate Related(r: Reader, f: Forth, b: Back, r2: Reader) {
    !f.emulated &&
    match r
    case Before => f == NewForth(false) && b == NEW_BACK && r2 == Before
    case Reading(m, open) => Common(m, f, b, r2) && (open ==> LastWired(m, f, b))
    case Stopping(m) => Ended(m, f, b, r2)
    case Over(m) => Ended(m, f, b, r2)
    case Bad => true
  }

  ghost predicate Ended(m: Message, f: Forth, b: Back, r2: Reader) {
    && Common(m, f, b, r2)
    && b.finish == Some(FinishFor(false, m.stop)) && b.usage.Some? && b.usage.value.completion == m.outputTokens
  }

  lemma OneChunk(b: Back, chunk: Chunk)
    ensures ReturnAll(b, []) == (b, []) && ReturnAll(b, [chunk]) == Return(b, chunk)
  {
    hide Return;
    assert [chunk][..0] == [];
    assert [] + Return(b, chunk).1 == Return(b, chunk).1;
  }

  lemma StartTrip(f: Forth, b: Back, e: Event, r2: Reader)
    requires e.MessageStart? && Related(Before, f, b, r2)
    ensures (var (f1, chunks) := Feed(f, e);
             var (b1, events) := ReturnAll(b, chunks);
             Related(Read(Before, e), f1, b1, ReadAll(r2, events)))
  {
    hide ReadAll, ReturnAll;
    var (f1, chunks) := Feed(f, e);
    OneChunk(b, chunks[0]);
    SayNoCalls(b.(started := true));
    var x := MessageStart(Some(f1.id), Some(f1.model), Some(0));
    assert [x] + [] + [] == [x];
    ReadFew(r2, x, x, x);
  }

  lemma ToolTrip(m: Message, f: Forth, b: Back, e: Event, r2: Reader)
    requires e.BlockStart? && e.block.ToolStart? && Related(Reading(m, false), f, b, r2)
    requires Read(Reading(m, false), e) != Bad
    ensures (var (f1, chunks) := Feed(f, e);
             var (b1, events) := ReturnAll(b, chunks);
             Related(Read(Reading(m, false), e), f1, b1, ReadAll(r2, events)))
  {
    hide ReadAll, ReturnAll, Return, SayCall, Normal;
    var (f1, chunks) := Feed(f, e);
    var call := chunks[0].calls[0];
    OneChunk(b, chunks[0]);
    ReturnOne(b, chunks[0]);
    BackCall(b, Head(Some(f.id), Some(f.model)), Normal(m.blocks), call);
    NormalSnoc(m.blocks, Started(e.block));
  }

  /** A block of another kind begins: nobody downstream hears of it yet. */
  lemma QuietTrip(m: Message, f: Forth, b: Back, e: Event, r2: Reader)
    requires e.BlockStart? && !e.block.ToolStart? && Related(Reading(m, false), f, b, r2)
    requires Read(Reading(m, false), e) != Bad
    ensures (var (f1, chunks) := Feed(f, e);
             var (b1, events) := ReturnAll(b, chunks);
             Related(Read(Reading(m, false), e), f1, b1, ReadAll(r2, events)))
  {
    hide ReadAll, ReturnAll, Normal;
    OneChunk(b, TextChunk(f, None));
    ReadFew(r2, OtherEvent, OtherEvent, OtherEvent);
    NormalSnoc(m.blocks, Started(e.block));
  }

  lemma TextTrip(m: Message, f: Forth, b: Back, e: Event, r2: Reader)
    requires e.BlockDelta? && e.delta.TextDelta? && Related(Reading(m, true), f, b, r2)
    requires Read(Reading(m, true), e) != Bad
    ensures (var (f1, chunks) := Feed(f, e);
             var (b1, events) := ReturnAll(b, chunks);
             Related(Read(Reading(m, true), e), f1, b1, ReadAll(r2, events)))
  {
    hide ReadAll, ReturnAll, Return, SayText, Normal, AddBlock;
    var (f1, chunks) := Feed(f, e);
    OneChunk(b, chunks[0]);
    ReturnOne(b, chunks[0]);
    var d := e.delta.text.GetOr([]);
    BackText(b, Head(Some(f.id), Some(f.model)), Normal(m.blocks), d);
    var front, last := m.blocks[..|m.blocks| - 1], m.blocks[|m.blocks| - 1];
    NormalSnoc(front, last);
    NormalSnoc(front, TextBlock(last.text + d));
    AddTextTwice(Normal(front), last.text, d);
    assert front + [last] == m.blocks;
  }

  lemma JsonTrip(m: Message, f: Forth, b: Back, e: Event, r2: Reader)
    requires e.BlockDelta? && !e.delta.TextDelta? && Related(Reading(m, true), f, b, r2)
    requires Read(Reading(m, true), e) != Bad
    ensures (var (f1, chunks) := Feed(f, e);
             var (b1, events) := ReturnAll(b, chunks);
             Related(Read(Reading(m, true), e), f1, b1, ReadAll(r2, events)))
  {
    hide ReadAll, ReturnAll, Return, SayCall, Normal;
    var (f1, chunks) := Feed(f, e);
    var n := |m.blocks| - 1;
    var front, last := m.blocks[..n], m.blocks[n];
    assert front + [last] == m.blocks;
    NormalSnoc(front, last);
    NormalSnoc(front, Extended(last, e.delta));
    if e.delta.JsonDelta? && last.ToolBlock? {
      OneChunk(b, chunks[0]);
      ReturnOne(b, chunks[0]);
      BackFragment(b, Head(Some(f.id), Some(f.model)), Normal(m.blocks), chunks[0].calls[0]);
    } else {
      OneChunk(b, TextChunk(f, None));
      ReadFew(r2, OtherEvent, OtherEvent, OtherEvent);
    }
  }

  lemma StopTrip(m: Message, f: Forth, b: Back, e: Event, r2: Reader)
    requires e.MessageDelta? && Common(m, f, b, r2) && !f.emulated
    ensures (var (f1, chunks) := Feed(f, e);
             var (b1, events) := ReturnAll(b, chunks);
             Ended(m.(stop := e.stop, outputTokens := e.outputTokens.GetOr(0)), f1, b1, ReadAll(r2, events)))
  {
    hide ReadAll, ReturnAll, Return, Normal;
    var (f1, chunks) := Feed(f, e);
    OneChunk(b, chunks[0]);
    ReturnOne(b, chunks[0]);
    ReadFew(r2, OtherEvent, OtherEvent, OtherEvent);
  }

  /** Whatever event comes next, the two clients stay in step. */
  lemma Trip(r: Reader, f: Forth, b: Back, e: Event, r2: Reader)
    requires Related(r, f, b, r2) && !f.emulated
    ensures (var (f1, chunks) := Feed(f, e);
             var (b1, events) := ReturnAll(b, chunks);
             Related(Read(r, e), f1, b1, ReadAll(r2, events)))
  {
    hide ReadAll, ReturnAll, Normal, Common, LastWired, Return;
    if Read(r, e) == Bad {
    } else if e.MessageStart? {
      StartTrip(f, b, e, r2);
    } else if e.BlockStart? && e.block.ToolStart? {
      ToolTrip(r.m, f, b, e, r2);
    } else if e.BlockStart? {
      QuietTrip(r.m, f, b, e, r2);
    } else if e.BlockDelta? && e.delta.TextDelta? {
      TextTrip(r.m, f, b, e, r2);
    } else if e.BlockDelta? {
      JsonTrip(r.m, f, b, e, r2);
    } else if e.MessageDelta? {
      StopTrip(r.m, f, b, e, r2);
    } else {
      OneChunk(b, TextChunk(f, None));
      ReadFew(r2, OtherEvent, OtherEvent, OtherEvent);
    }
  }

  lemma {:induction false} ReturnAppend(b: Back, x: seq<Chunk>, y: seq<Chunk>)
    ensures (var (b1, first) := ReturnAll(b, x);
             var (b2, second) := ReturnAll(b1, y);
             ReturnAll(b, x + y) == (b2, first + second))
  {
    hide Return;
    var (b1, first) := ReturnAll(b, x);
    if y == [] {
      assert x + y == x;
      assert first + [] == first;
    } else {
      ReturnAppend(b, x, y[..|y| - 1]);
      assert (x + y)[..|x + y| - 1] == x + y[..|y| - 1];
      var (b2, second) := ReturnAll(b1, y[..|y| - 1]);
      var more := Return(b2, y[|y| - 1]).1;
      assert (first + second) + more == first + (second + more);
    }
  }

  lemma {:induction false} TripAll(es: seq<Event>)
    ensures (var (f, chunks) := FeedAll(NewForth(false), es);
             var (b, events) := ReturnAll(NEW_BACK, chunks);
             Related(ReadAll(Before, es), f, b, ReadAll(Before, events)))
    ensures !FeedAll(NewForth(false), es).0.emulated
  {
    hide Feed, Return, Related, Read;
    if es == [] {
      FreshRelated();
    } else {
      var front, e := es[..|es| - 1], es[|es| - 1];
      TripAll(front);
      var (f, chunks) := FeedAll(NewForth(false), front);
      var (b, events) := ReturnAll(NEW_BACK, chunks);
      Trip(ReadAll(Before, front), f, b, e, ReadAll(Before, events));
      var more := Feed(f, e).1;
      ReturnAppend(NEW_BACK, chunks, more);
      ReadAppend(Before, events, ReturnAll(b, more).1);
      NotEmulated(f, e);
    }
  }

  lemma NotEmulated(f: Forth, e: Event)
    ensures Feed(f, e).0.emulated == f.emulated
  {
  }

  lemma FreshRelated()
    ensures Related(Before, NewForth(false), NEW_BACK, Before)
  {
  }

  /** Everything the second translator says about a stream, its end included. */
  function ThereAndBack(es: seq<Event>): seq<Event> {
    var (b, events) := ReturnAll(NEW_BACK, FeedAll(NewForth(false), es).1);
    events + Finishing(b).1
  }

  lemma FinishingRead(m: Message, f: Forth, b: Back, r2: Reader)
    requires Ended(m, f, b, r2)
    ensures ReadAll(r2, Finishing(b).1) == Over(Returned(m))
  {
    hide ReadAll, Close, Normal;
    var ns := Normal(m.blocks);
    BackCloses(b, Head(Some(f.id), Some(f.model)), ns);
    var x, y := MessageDelta(Some(StopFor(b.finish)), Some(m.outputTokens)), MessageStop;
    ReadAppend(r2, Close(b).1, [x, y]);
    ReadFew(r2.(open := false), x, y, y);
  }

  /**
   A complete, sequential stream, translated there and back, is a complete, sequential stream of the same
   message: same tools with their ids, names and arguments in order, same text once adjacent blocks are
   joined and empty ones dropped, same stop reason among the three both sides know, same output tokens.
   */
  lemma RoundTrip(es: seq<Event>)
    requires ReadAll(Before, es).Over?
    ensures ReadAll(Before, ThereAndBack(es)) == Over(Returned(ReadAll(Before, es).m))
  {
    hide ReadAll, ReturnAll, FeedAll, Ended, Finishing, Returned;
    TripAll(es);
    var (f, chunks) := FeedAll(NewForth(false), es);
    var (b, events) := ReturnAll(NEW_BACK, chunks);
    ReadAppend(Before, events, Finishing(b).1);
    FinishingRead(ReadAll(Before, es).m, f, b, ReadAll(Before, events));
  }

  // ----- what coming back keeps

  function AllText(blocks: seq<Block>): bytes {
    if blocks == [] then []
    else
      var last := blocks[|blocks| - 1];
      AllText(blocks[..|blocks| - 1]) + (if last.TextBlock? then last.text else [])
  }

  function Tools(blocks: seq<Block>): seq<Block> {
    if blocks == [] then []
    else
      var last := blocks[|blocks| - 1];
      Tools(blocks[..|blocks| - 1]) + (if last.ToolBlock? then [last] else [])
  }

  /** Normal messages have no two texts in a row, no empty text, nothing unknown. */
  predicate IsNormal(ns: seq<Block>) {
    && (forall k :: 0 <= k < |ns| ==> !ns[k].UnknownBlock? && (ns[k].TextBlock? ==> ns[k].text != []))
    && (forall k :: 0 < k < |ns| ==> !(ns[k - 1].TextBlock? && ns[k].TextBlock?))
  }

  lemma OneMore(ns: seq<Block>, b: Block)
    ensures AllText(ns + [b]) == AllText(ns) + (if b.TextBlock? then b.text else [])
    ensures Tools(ns + [b]) == Tools(ns) + (if b.ToolBlock? then [b] else [])
  {
    assert (ns + [b])[..|ns|] == ns;
  }

  lemma AddBlockNormal(ns: seq<Block>, b: Block)
    requires IsNormal(ns)
    ensures IsNormal(AddBlock(ns, b))
    ensures IsNormal(ns + [b]) ==> AddBlock(ns, b) == ns + [b]
  {
    if IsNormal(ns + [b]) {
      assert (ns + [b])[|ns|] == b;
      assert ns != [] ==> (ns + [b])[|ns| - 1] == ns[|ns| - 1];
    }
  }

  lemma AddBlockKeeps(ns: seq<Block>, b: Block)
    ensures AllText(AddBlock(ns, b)) == AllText(ns) + (if b.TextBlock? then b.text else [])
    ensures Tools(AddBlock(ns, b)) == Tools(ns) + (if b.ToolBlock? then [b] else [])
  {
    hide AllText, Tools;
    OneMore(ns, b);
    assert AllText(ns) + [] == AllText(ns) && Tools(ns) + [] == Tools(ns);
    if b.TextBlock? && b.text != [] && ns != [] && ns[|ns| - 1].TextBlock? {
      var front, last := ns[..|ns| - 1], ns[|ns| - 1];
      assert ns == front + [last];
      OneMore(front, last);
      OneMore(front, TextBlock(last.text + b.text));
      assert (AllText(front) + last.text) + b.text == AllText(front) + (last.text + b.text);
    }
  }

  /** The normal form is a normal message with the same text and the same tools, and the form of a normal one is itself. */
  lemma {:induction false} NormalKeeps(blocks: seq<Block>)
    ensures IsNormal(Normal(blocks))
    ensures AllText(Normal(blocks)) == AllText(blocks) && Tools(Normal(blocks)) == Tools(blocks)
    ensures IsNormal(blocks) ==> Normal(blocks) == blocks
  {
    hide AddBlock, IsNormal;
    NothingIsNormal();
    if blocks != [] {
      var front, last := blocks[..|blocks| - 1], blocks[|blocks| - 1];
      NormalKeeps(front);
      AddBlockKeeps(Normal(front), last);
      AddBlockNormal(Normal(front), last);
      assert front + [last] == blocks;
      if IsNormal(blocks) {
        FrontIsNormal(blocks);
      }
    }
  }

  lemma NothingIsNormal()
    ensures IsNormal([])
  {
  }

  lemma FrontIsNormal(blocks: seq<Block>)
    requires blocks != [] && IsNormal(blocks)
    ensures IsNormal(blocks[..|blocks| - 1])
  {
  }
}
