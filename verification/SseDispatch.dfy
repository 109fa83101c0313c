/**
 When `sse.rs` reads from a block the event that the event-stream format dispatches for it (WHATWG HTML,
 sections 9.2.5 and 9.2.6).
 */
module SseDispatch {
  import opened Wrappers
  import opened Bytes
  import opened SseShared
  import opened Sse

  // ----- the format's own reading, line by line

  /** The format's event type buffer and data buffer. */
  datatype Buffers = Buffers(eventType: bytes, data: bytes)

  /** What has been dispatched so far; an event without a type has none. */
  datatype Reading = Reading(buffers: Buffers, events: seq<SseEvent>)

  const NO_BUFFERS: Buffers := Buffers([], [])

  /** Where the first colon is, or the length. */
  function ColonAt(line: bytes): (n: nat)
    ensures n <= |line|
  {
    if line == [] || line[0] == COLON then 0 else 1 + ColonAt(line[1..])
  }

  function SpecName(line: bytes): bytes {
    line[..ColonAt(line)]
  }

  function SpecValue(line: bytes): bytes {
    var c := ColonAt(line);
    if c == |line| then []
    else if c + 1 < |line| && line[c + 1] == SPACE then line[c + 2..]
    else line[c + 1..]
  }

  /** Every `data` value is followed by a line feed; other fields than the two make no difference to events. */
  function SpecField(b: Buffers, line: bytes): Buffers {
    if SpecName(line) == EVENT_FIELD then b.(eventType := SpecValue(line))
    else if SpecName(line) == DATA_FIELD then b.(data := b.data + SpecValue(line) + [LF])
    else b
  }

  /** Nothing is dispatched without data; the last line feed of the data goes. */
  function Dispatch(b: Buffers): seq<SseEvent> {
    if b.data == [] then []
    else
      var data := if b.data[|b.data| - 1] == LF then b.data[..|b.data| - 1] else b.data;
      [SseEvent(if b.eventType == [] then None else Some(b.eventType), data)]
  }

  /** An empty line dispatches, any other is a field or a comment. */
  function SpecLine(r: Reading, line: bytes): Reading {
    if line == [] then Reading(NO_BUFFERS, r.events + Dispatch(r.buffers))
    else r.(buffers := SpecField(r.buffers, line))
  }

  function SpecRead(lines: seq<bytes>): Reading {
    if lines == [] then Reading(NO_BUFFERS, []) else SpecLine(SpecRead(lines[..|lines| - 1]), lines[|lines| - 1])
  }

  /** The events of a block that a blank line ends. */
  function SpecEvents(block: bytes): seq<SseEvent> {
    SpecLine(SpecRead(SpecLines(block)), []).events
  }

  // ----- blocks

  /** A block that the boundary finder cuts off at a blank line. */
  predicate CutBlock(block: bytes) {
    Boundary(block + [LF, LF]) == Some((|block|, |block| + 2))
  }

  /** Only the first line of a cut block can be empty. */
  lemma {:induction false} OnlyFirstEmpty(s: bytes)
    requires CutBlock(s)
    ensures forall k :: 0 < k < |SpecLines(s)| ==> SpecLines(s)[k] != []
    ensures s != [] && s[0] != LF && s[0] != CR ==> SpecLines(s)[0] != []
    decreases |s|
  {
    if s != [] {
      var n := LineBreakLen(s + [LF, LF]).value;
      if n == 0 {
        DropFront(s, [LF, LF], 1);
        OnlyFirstEmpty(s[1..]);
      } else {
        BreakInside(s, n);
        DropFront(s, [LF, LF], n);
        OnlyFirstEmpty(s[n..]);
      }
    }
  }

  /** A line break inside a cut block is followed by something that is none. */
  lemma {:induction false} BreakInside(s: bytes, n: nat)
    requires CutBlock(s) && s != [] && LineBreakLen(s + [LF, LF]) == Some(n) && n > 0
    ensures n < |s| && s[n] != LF && s[n] != CR && CutBlock(s[n..])
    ensures SpecLines(s) == [[]] + SpecLines(s[n..])
  {
    var t := s + [LF, LF];
    if n < |s| {
      DropFront(s, [LF, LF], n);
      assert t[n] == s[n];
    }
  }

  // ----- lines are text

  lemma {:induction false} SpecLinesPlain(x: bytes, rest: bytes)
    requires OneLine(x)
    ensures SpecLines(x + rest) == [x + SpecLines(rest)[0]] + SpecLines(rest)[1..]
  {
    if x == [] {
      assert x + rest == rest;
      assert [] + SpecLines(rest)[0] == SpecLines(rest)[0];
      assert [SpecLines(rest)[0]] + SpecLines(rest)[1..] == SpecLines(rest);
    } else {
      DropFront(x, rest, 1);
      SpecLinesPlain(x[1..], rest);
      assert [x[0]] + (x[1..] + SpecLines(rest)[0]) == x + SpecLines(rest)[0];
    }
  }

  lemma LeadIsPlain(s: bytes)
    requires Utf8Lead(s) > 0 && s[0] != LF && s[0] != CR
    ensures OneLine(s[..Utf8Lead(s)]) && ValidUtf8(s[..Utf8Lead(s)])
  {
    var x := s[..Utf8Lead(s)];
    assert s == x + s[|x|..];
    assert Utf8Lead(x) == |x| && x[|x|..] == [];
  }

  predicate AllUtf8(lines: seq<bytes>) {
    forall k :: 0 <= k < |lines| ==> ValidUtf8(lines[k])
  }

  /** Cutting text into lines gives text. */
  lemma {:induction false} SpecLinesUtf8(s: bytes)
    requires ValidUtf8(s)
    ensures AllUtf8(SpecLines(s))
    decreases |s|
  {
    if s != [] {
      var n := Utf8Lead(s);
      if s[0] == LF {
        SpecLinesUtf8(s[1..]);
      } else if s[0] == CR {
        var t := if |s| > 1 && s[1] == LF then s[2..] else s[1..];
        if |s| > 1 && s[1] == LF {
          assert s[1..][1..] == t && Utf8Lead(s[1..]) == 1;
        }
        SpecLinesUtf8(t);
      } else {
        LeadIsPlain(s);
        SpecLinesUtf8(s[n..]);
        assert s == s[..n] + s[n..];
        SpecLinesPlain(s[..n], s[n..]);
        ValidUtf8Append(s[..n], SpecLines(s[n..])[0]);
      }
    }
  }

  // ----- the two readings side by side

  lemma {:induction false} SameField(line: bytes)
    ensures Field(line) == (SpecName(line), SpecValue(line))
  {
    if line != [] && line[0] != COLON {
      SameField(line[1..]);
      var c := ColonAt(line[1..]);
      assert line[..c + 1] == [line[0]] + line[1..][..c];
      assert c < |line[1..]| ==> line[1..][c + 1..] == line[c + 2..];
      assert c + 1 < |line[1..]| ==> line[1..][c + 2..] == line[c + 3..];
    }
  }

  /** The data lines as the format keeps them, each followed by a line feed. */
  function Terminated(parts: seq<bytes>): bytes {
    if parts == [] then [] else Terminated(parts[..|parts| - 1]) + parts[|parts| - 1] + [LF]
  }

  lemma {:induction false} JoinSnoc(parts: seq<bytes>, last: bytes)
    ensures JoinLf(parts + [last]) == if parts == [] then last else JoinLf(parts) + [LF] + last
  {
    if parts != [] {
      assert (parts + [last])[1..] == parts[1..] + [last];
      JoinSnoc(parts[1..], last);
      if |parts| > 1 {
        assert parts[0] + [LF] + (JoinLf(parts[1..]) + [LF] + last) == (parts[0] + [LF] + JoinLf(parts[1..])) + [LF] + last;
      }
    }
  }

  /** Joining with line feeds is ending each with one and taking the last away. */
  lemma {:induction false} JoinTerminated(parts: seq<bytes>)
    ensures parts != [] ==> Terminated(parts) == JoinLf(parts) + [LF]
  {
    if parts != [] {
      var front, last := parts[..|parts| - 1], parts[|parts| - 1];
      assert front + [last] == parts;
      JoinSnoc(front, last);
      JoinTerminated(front);
      assert [] + last + [LF] == last + [LF];
    }
  }

  /** What the code has gathered and what the format's buffers hold. */
  predicate Gathered(f: Fields, b: Buffers) {
    b.eventType == f.event.GetOr([]) && b.data == Terminated(f.data)
  }

  lemma FieldGathered(f: Fields, b: Buffers, line: bytes)
    requires Gathered(f, b) && ValidUtf8(line) && line != []
    ensures Gathered(ReadLine(f, line), SpecField(b, line))
  {
    hide ValidUtf8, Field, SpecName, SpecValue;
    SameField(line);
    var value := SpecValue(line);
    assert (f.data + [value])[..|f.data|] == f.data;
    if line[0] == COLON { CommentHasNoName(line); }
  }

  lemma CommentHasNoName(line: bytes)
    requires line != [] && line[0] == COLON
    ensures SpecName(line) == []
  {
  }

  lemma {:induction false} NonEmptySnoc(lines: seq<bytes>, line: bytes)
    ensures NonEmpty(lines + [line]) == NonEmpty(lines) + (if line == [] then [] else [line])
  {
    if lines == [] {
      assert ([line])[1..] == [];
      assert [] + [line] == [line];
    } else {
      assert (lines + [line])[1..] == lines[1..] + [line];
      NonEmptySnoc(lines[1..], line);
    }
  }

  lemma {:induction false} LinesGathered(lines: seq<bytes>)
    requires AllUtf8(lines) && forall k :: 0 < k < |lines| ==> lines[k] != []
    ensures Gathered(ReadLines(Fields(None, []), NonEmpty(lines)), SpecRead(lines).buffers)
    ensures SpecRead(lines).events == []
  {
    hide ValidUtf8, ReadLine, SpecField, ReadLines, NonEmpty, Gathered;
    if |lines| <= 1 {
      FirstGathered(lines);
    } else {
      var front, last := lines[..|lines| - 1], lines[|lines| - 1];
      LinesGathered(front);
      NonEmptySnoc(front, last);
      assert front + [last] == lines;
      ReadLinesSnoc(NonEmpty(front), last);
      FieldGathered(ReadLines(Fields(None, []), NonEmpty(front)), SpecRead(front).buffers, last);
    }
  }

  /** The first line, which may be empty. */
  lemma {:induction false} FirstGathered(lines: seq<bytes>)
    requires AllUtf8(lines) && |lines| <= 1
    ensures Gathered(ReadLines(Fields(None, []), NonEmpty(lines)), SpecRead(lines).buffers)
    ensures SpecRead(lines).events == []
  {
    hide ValidUtf8, ReadLine, SpecField;
    assert Terminated([]) == [] && NonEmpty([]) == [];
    if lines != [] {
      NonEmptySnoc([], lines[0]);
      assert [] + lines == lines && lines[..0] == [] && lines[1..] == [];
      if lines[0] != [] {
        ReadLinesSnoc([], lines[0]);
        FieldGathered(Fields(None, []), NO_BUFFERS, lines[0]);
      }
    }
  }

  lemma ReadLinesSnoc(ls: seq<bytes>, last: bytes)
    ensures ReadLines(Fields(None, []), ls + [last]) == ReadLine(ReadLines(Fields(None, []), ls), last)
    ensures ReadLines(Fields(None, []), []) == Fields(None, [])
  {
    hide ReadLine;
    assert (ls + [last])[..|ls|] == ls;
  }

  predicate HasField(lines: seq<bytes>, name: bytes) {
    exists k :: 0 <= k < |lines| && SpecName(lines[k]) == name
  }

  /** A block that names its event and carries no data. */
  predicate EventOnly(block: bytes) {
    HasField(SpecLines(block), EVENT_FIELD) && !HasField(SpecLines(block), DATA_FIELD)
  }

  lemma HasFieldSnoc(lines: seq<bytes>, line: bytes, name: bytes)
    ensures HasField(lines + [line], name) <==> HasField(lines, name) || SpecName(line) == name
  {
    hide SpecName;
    var all := lines + [line];
    if HasField(lines, name) {
      var k :| 0 <= k < |lines| && SpecName(lines[k]) == name;
      assert all[k] == lines[k];
    }
    assert all[|lines|] == line;
  }

  /** Which fields were found is which lines there are. */
  lemma {:induction false} FieldsFound(lines: seq<bytes>)
    requires AllUtf8(lines)
    ensures (var f := ReadLines(Fields(None, []), NonEmpty(lines));
             && (f.data != [] <==> HasField(lines, DATA_FIELD))
             && (f.event.Some? <==> HasField(lines, EVENT_FIELD)))
  {
    hide ValidUtf8, HasField, SpecName, Field;
    if lines == [] {
      NothingFound();
    } else {
      var front, last := lines[..|lines| - 1], lines[|lines| - 1];
      FieldsFound(front);
      NonEmptySnoc(front, last);
      assert front + [last] == lines;
      HasFieldSnoc(front, last, DATA_FIELD);
      HasFieldSnoc(front, last, EVENT_FIELD);
      SameField(last);
      var ls := NonEmpty(front);
      if last == [] {
        assert ls + [] == ls;
        EmptyHasNoName();
      } else {
        assert (ls + [last])[..|ls|] == ls;
        if last[0] == COLON { CommentHasNoName(last); }
      }
    }
  }

  lemma NothingFound()
    ensures !HasField([], DATA_FIELD) && !HasField([], EVENT_FIELD)
  {
  }

  lemma EmptyHasNoName()
    ensures SpecName([]) == []
  {
  }

  /** An event type that is empty is no type. */
  function Typed(e: SseEvent): SseEvent {
    if e.event == Some([]) then e.(event := None) else e
  }

  function TypedAll(o: Option<SseEvent>): seq<SseEvent> {
    match o
    case Some(e) => [Typed(e)]
    case None => []
  }

  /**
   From a block of UTF-8 text without a lone CR, the parser emits exactly what the format dispatches, an
   empty type read as none, if and only if the block does not name an event without giving it data: such
   an event is emitted here, with empty data, and dropped by the format.
   */
  lemma EmitsWhatIsDispatchedIff(block: bytes)
    requires CutBlock(block) && ValidUtf8(block) && !LoneCr(block)
    ensures TypedAll(ReadBlock(block)) == SpecEvents(block) <==> !EventOnly(block)
  {
    hide ValidUtf8, SpecLines, LoneCr, CutBlock, Lines, SplitLf, NonEmpty, ReadLines, HasField, SpecRead, Gathered;
    hide JoinLf, Dispatch, TypedAll;
    var lines := SpecLines(block);
    LinesAreSpecLinesIff(block);
    OnlyFirstEmpty(block);
    SpecLinesUtf8(block);
    LinesGathered(lines);
    FieldsFound(lines);
    GatheredDispatched(ReadLines(Fields(None, []), NonEmpty(lines)), SpecRead(lines).buffers);
    assert [] + Dispatch(SpecRead(lines).buffers) == Dispatch(SpecRead(lines).buffers);
  }

  /** What is gathered makes the event the format dispatches, unless there is a name and no data. */
  lemma GatheredDispatched(f: Fields, b: Buffers)
    requires Gathered(f, b)
    ensures (var emitted := if f.data == [] && f.event.None? then None else Some(SseEvent(f.event, JoinLf(f.data)));
             TypedAll(emitted) == Dispatch(b) <==> !(f.event.Some? && f.data == []))
  {
    hide JoinLf, Terminated;
    JoinTerminated(f.data);
    NothingTerminated();
    var joined := JoinLf(f.data);
    assert (joined + [LF])[..|joined|] == joined;
  }

  lemma NothingTerminated()
    ensures Terminated([]) == [] && JoinLf([]) == []
  {
  }

  /** The family of such blocks: an event name and nothing else. */
  lemma {:induction false} NamedWithoutData(name: bytes)
    requires OneLine(name) && ValidUtf8(name)
    ensures (var block := FieldLine(EVENT_FIELD, name);
             && CutBlock(block) && EventOnly(block)
             && ReadBlock(block) == Some(SseEvent(Some(name), [])) && SpecEvents(block) == [])
  {
    hide ValidUtf8, Boundary, SpecLines, SpecName, SpecValue, SplitLf, Lines, ReadLine, Field, ColonAt;
    var block := FieldLine(EVENT_FIELD, name);
    FieldLineNamed(name);
    BoundaryPlain(block, [LF, LF]);
    BoundaryBreak([]);
    assert [LF, LF] + [] == [LF, LF];
    OneSpecLine(block);
    SplitLfPlain(block);
    LinesPlain(block, []);
    LinesEmpty();
    assert [block] + [] == [block] && [block][..0] == [];
    var none := Fields(None, []);
    ReadWritten(none, EVENT_FIELD, name);
    assert ReadLines(none, [block]) == ReadLine(ReadLines(none, [block][..0]), block);
    assert SpecRead([block]) == SpecLine(SpecRead([block][..0]), block);
  }

  lemma FieldLineNamed(name: bytes)
    requires OneLine(name)
    ensures (var block := FieldLine(EVENT_FIELD, name); OneLine(block) && block != [] && SpecName(block) == EVENT_FIELD)
  {
    SameField(FieldLine(EVENT_FIELD, name));
    FieldExact(EVENT_FIELD, name);
  }

  lemma OneSpecLine(x: bytes)
    requires OneLine(x)
    ensures SpecLines(x) == [x]
  {
    assert SpecLines([]) == [[]];
    SpecLinesPlain(x, []);
    assert x + [] == x && SpecLines([])[1..] == [];
  }
}
