/** The incremental server-sent-events codec of `sse.rs`. */
module Sse {
  import opened Wrappers
  import opened Bytes
  import opened SseShared

  const EVENT_FIELD: bytes := FromText("event")
  const DATA_FIELD: bytes := FromText("data")

  // ----- finding the blank line that ends an event

  /** The length of the line break at the front of `s`; `None` when a last `CR` cannot be classified yet. */
  function LineBreakLen(s: bytes): (r: Option<nat>)
    ensures r.Some? ==> r.value <= |s|
  {
    if s == [] then Some(0)
    else if s[0] == LF then Some(1)
    else if s[0] == CR then
      if |s| == 1 then None else if s[1] == LF then Some(2) else Some(1)
    else Some(0)
  }

  function Shift(k: nat, r: Option<(nat, nat)>): Option<(nat, nat)> {
    match r
    case Some(b) => Some((k + b.0, k + b.1))
    case None => None
  }

  /** Where the first event's content ends, and where its terminator ends. */
  function Boundary(s: bytes): (r: Option<(nat, nat)>)
    ensures r.Some? ==> r.value.0 < r.value.1 <= |s|
  {
    if s == [] then None
    else
      var first :- LineBreakLen(s);
      if first == 0 then Shift(1, Boundary(s[1..]))
      else
        var second :- LineBreakLen(s[first..]);
        if second == 0 then Shift(first, Boundary(s[first..])) else Some((0, first + second))
  }

  /** What a boundary that is found says of the front. */
  lemma BoundaryFound(s: bytes)
    requires Boundary(s).Some?
    ensures s != [] && LineBreakLen(s).Some?
    ensures (var n := LineBreakLen(s).value;
             && (n == 0 ==> Boundary(s) == Shift(1, Boundary(s[1..])))
             && (n > 0 ==> LineBreakLen(s[n..]).Some?
                           && (LineBreakLen(s[n..]) == Some(0) ==>
                                 Boundary(s) == Shift(n, Boundary(s[n..])) && Boundary(s).value.0 > n)
                           && (LineBreakLen(s[n..]) != Some(0) ==> Boundary(s) == Some((0, n + LineBreakLen(s[n..]).value)))))
  {
  }

  // ----- reading one event

  function SplitLf(s: bytes): (r: seq<bytes>)
    ensures r != []
  {
    if s == [] then [[]]
    else
      var rest := SplitLf(s[1..]);
      if s[0] == LF then [[]] + rest else [[s[0]] + rest[0]] + rest[1..]
  }

  function StripCr(line: bytes): bytes {
    if line != [] && line[|line| - 1] == CR then line[..|line| - 1] else line
  }

  /** The lines of a block, empty ones left out. */
  function Lines(raw: seq<bytes>): seq<bytes> {
    if raw == [] then []
    else (if StripCr(raw[0]) == [] then [] else [StripCr(raw[0])]) + Lines(raw[1..])
  }

  /** A line cut at its first colon, one space after it dropped. */
  function Field(line: bytes): (bytes, bytes) {
    if line == [] then ([], [])
    else if line[0] == COLON then ([], if |line| > 1 && line[1] == SPACE then line[2..] else line[1..])
    else ([line[0]] + Field(line[1..]).0, Field(line[1..]).1)
  }

  datatype Fields = Fields(event: Option<bytes>, data: seq<bytes>)

  function ReadLine(f: Fields, line: bytes): Fields {
    if !ValidUtf8(line) || (line != [] && line[0] == COLON) then f
    else if Field(line).0 == DATA_FIELD then f.(data := f.data + [Field(line).1])
    else if Field(line).0 == EVENT_FIELD then f.(event := Some(Field(line).1))
    else f
  }

  function ReadLines(f: Fields, lines: seq<bytes>): Fields {
    if lines == [] then f else ReadLine(ReadLines(f, lines[..|lines| - 1]), lines[|lines| - 1])
  }

  function JoinLf(parts: seq<bytes>): bytes {
    if parts == [] then []
    else if |parts| == 1 then parts[0]
    else parts[0] + [LF] + JoinLf(parts[1..])
  }

  /** The event a block describes, if any field in it says something. */
  function ReadBlock(block: bytes): Option<SseEvent> {
    var f := ReadLines(Fields(None, []), Lines(SplitLf(block)));
    if f.data == [] && f.event.None? then None else Some(SseEvent(f.event, JoinLf(f.data)))
  }

  /** Everything a buffer yields now, and what stays in it. */
  function Drain(buf: bytes): (seq<SseEvent>, bytes)
    decreases |buf|
  {
    match Boundary(buf)
    case None => ([], buf)
    case Some(b) =>
      var (events, rest) := Drain(buf[b.1..]);
      (OptionSeq(ReadBlock(buf[..b.0])) + events, rest)
  }

  /** A whole conversation: chunks pushed one after another onto `buf`. */
  function PushAll(buf: bytes, chunks: seq<bytes>): (seq<SseEvent>, bytes)
    decreases |chunks|
  {
    if chunks == [] then ([], buf)
    else
      var (events, rest) := Drain(buf + chunks[0]);
      var (more, last) := PushAll(rest, chunks[1..]);
      (events + more, last)
  }

  // ----- the parser

  class SseParser {
    var buffer: bytes

    constructor ()
      ensures buffer == []
    {
      buffer := [];
    }

    /** Feed a network chunk; returns every event it completes. */
    method Push(chunk: bytes) returns (events: seq<SseEvent>)
      modifies this
      ensures (events, buffer) == Drain(old(buffer) + chunk)
    {
      hide Drain;
      buffer := buffer + chunk;
      events := [];
      var more := true;
      assert [] + Drain(buffer).0 == Drain(buffer).0;
      while more
        invariant more ==> Drain(old(buffer) + chunk) == (events + Drain(buffer).0, Drain(buffer).1)
        invariant !more ==> Drain(old(buffer) + chunk) == (events, buffer)
        decreases more, |buffer|
      {
        ghost var before := events;
        var event := NextEvent();
        if event.Some? {
          events := events + [event.value];
          assert before + ([event.value] + Drain(buffer).0) == events + Drain(buffer).0;
        } else {
          more := false;
          assert events + [] == events;
        }
      }
    }

    function Pending(): nat
      reads this
    {
      |buffer|
    }

    method NextEvent() returns (event: Option<SseEvent>)
      modifies this
      ensures event.Some? ==> |buffer| < |old(buffer)|
      ensures event.Some? ==> Drain(old(buffer)) == ([event.value] + Drain(buffer).0, Drain(buffer).1)
      ensures event.None? ==> Drain(old(buffer)) == ([], buffer)
      decreases |buffer|
    {
      hide ReadBlock;
      var boundary := FindEventBoundary(buffer);
      if boundary.None? {
        return None;
      }
      var (start, end) := boundary.value;
      var raw := buffer[..end];
      buffer := buffer[end..];
      assert raw[..start] == old(buffer)[..start];
      var block := ReadEvent(raw[..start]);
      if block.None? {
        event := NextEvent();
        assert [] + Drain(old(buffer)[end..]).0 == Drain(old(buffer)[end..]).0;
        return;
      }
      return block;
    }
  }

  lemma {:induction false} BoundaryAt(s: bytes, i: nat)
    requires i < |s|
    ensures Boundary(s[i..])
         == match LineBreakLen(s[i..])
            case None => None
            case Some(first) =>
              if first == 0 then Shift(1, Boundary(s[i + 1..]))
              else match LineBreakLen(s[i + first..])
                   case None => None
                   case Some(second) =>
                     if second == 0 then Shift(first, Boundary(s[i + first..])) else Some((0, first + second))
  {
    assert s[i..][1..] == s[i + 1..];
    var first := LineBreakLen(s[i..]).GetOr(0);
    assert s[i..][first..] == s[i + first..];
  }

  /** Find the first blank-line terminator. */
  method FindEventBoundary(buf: bytes) returns (r: Option<(nat, nat)>)
    ensures r == Boundary(buf)
  {
    hide Boundary, LineBreakLen;
    var i := 0;
    assert buf[0..] == buf;
    while i < |buf|
      invariant i <= |buf|
      invariant Boundary(buf) == Shift(i, Boundary(buf[i..]))
      decreases |buf| - i
    {
      BoundaryAt(buf, i);
      var first := LineBreakLen(buf[i..]);
      if first.None? {
        return None;
      }
      if first.value == 0 {
        i := i + 1;
        continue;
      }
      var second := LineBreakLen(buf[i + first.value..]);
      if second.None? {
        return None;
      }
      if second.value != 0 {
        return Some((i, i + first.value + second.value));
      }
      i := i + first.value;
    }
    BoundaryEmpty();
    assert buf[i..] == [];
    r := None;
  }

  lemma BoundaryEmpty()
    ensures Boundary([]) == None
  {
  }

  /** Read the fields of a block, line by line. */
  method ReadEvent(block: bytes) returns (event: Option<SseEvent>)
    ensures event == ReadBlock(block)
  {
    hide ReadLine, Lines, SplitLf, JoinLf;
    var name: Option<bytes> := None;
    var data: seq<bytes> := [];
    var lines := Lines(SplitLf(block));
    for k := 0 to |lines|
      invariant Fields(name, data) == ReadLines(Fields(None, []), lines[..k])
    {
      assert lines[..k + 1][..k] == lines[..k];
      var line := lines[k];
      ReadLineCases(Fields(name, data), line);
      if !ValidUtf8(line) || (line != [] && line[0] == COLON) {
        continue;
      }
      var (field, value) := Field(line);
      if field == DATA_FIELD {
        data := data + [value];
      } else if field == EVENT_FIELD {
        name := Some(value);
      }
    }
    assert lines[..|lines|] == lines;
    if data == [] && name.None? {
      return None;
    }
    event := Some(SseEvent(name, JoinLf(data)));
  }

  lemma ReadLineCases(f: Fields, line: bytes)
    ensures ReadLine(f, line)
         == if !ValidUtf8(line) || (line != [] && line[0] == COLON) then f
            else if Field(line).0 == DATA_FIELD then f.(data := f.data + [Field(line).1])
            else if Field(line).0 == EVENT_FIELD then f.(event := Some(Field(line).1))
            else f
  {
  }

  // ----- cuts do not matter

  /** A terminator once seen stays where it is, whatever arrives after it. */
  lemma {:induction false} BoundaryStable(a: bytes, b: bytes)
    requires Boundary(a).Some?
    ensures Boundary(a + b) == Boundary(a)
    decreases |a|
  {
    var first := LineBreakLen(a).value;
    LineBreakStable(a, b);
    if first == 0 {
      BoundaryStable(a[1..], b);
      DropFront(a, b, 1);
    } else {
      DropFront(a, b, first);
      LineBreakStable(a[first..], b);
      if LineBreakLen(a[first..]) == Some(0) {
        BoundaryStable(a[first..], b);
      }
    }
  }

  lemma LineBreakStable(a: bytes, b: bytes)
    requires LineBreakLen(a).Some? && a != []
    ensures LineBreakLen(a + b) == LineBreakLen(a)
  {
  }

  /** Draining what is there and then what arrives is draining it all at once. */
  lemma {:induction false} DrainSplit(a: bytes, b: bytes)
    ensures (var (e1, r1) := Drain(a);
             var (e2, r2) := Drain(r1 + b);
             Drain(a + b) == (e1 + e2, r2))
    decreases |a|
  {
    hide ReadBlock, Boundary;
    match Boundary(a)
    case None =>
      assert [] + Drain(a + b).0 == Drain(a + b).0;
    case Some(p) =>
      BoundaryStable(a, b);
      DropFront(a, b, p.1);
      DropFront(a, b, p.0);
      DrainSplit(a[p.1..], b);
      var one := OptionSeq(ReadBlock(a[..p.0]));
      var (e1, r1) := Drain(a[p.1..]);
      var (e2, r2) := Drain(r1 + b);
      assert one + (e1 + e2) == (one + e1) + e2;
  }

  /** The events and the remainder depend on the bytes alone, never on how they were cut. */
  lemma {:induction false} CutsDoNotMatter(buf: bytes, chunks: seq<bytes>)
    requires Drain(buf) == ([], buf)
    ensures PushAll(buf, chunks) == Drain(buf + Concat(chunks))
    decreases |chunks|
  {
    hide Drain;
    if chunks == [] {
      assert buf + [] == buf;
    } else {
      var (events, rest) := Drain(buf + chunks[0]);
      DrainIdle(buf + chunks[0]);
      CutsDoNotMatter(rest, chunks[1..]);
      DrainSplit(buf + chunks[0], Concat(chunks[1..]));
      assert (buf + chunks[0]) + Concat(chunks[1..]) == buf + Concat(chunks);
    }
  }

  /** What stays in the buffer yields nothing until more arrives. */
  lemma {:induction false} DrainIdle(buf: bytes)
    ensures Drain(Drain(buf).1) == ([], Drain(buf).1)
    decreases |buf|
  {
    hide ReadBlock;
    match Boundary(buf)
    case None =>
    case Some(b) => DrainIdle(buf[b.1..]);
  }

  // ----- writing and reading back

  function FormatEvent(e: SseEvent): bytes {
    match e.event
    case Some(name) => EVENT_FIELD + [COLON, SPACE] + name + [LF] + (DATA_FIELD + [COLON, SPACE] + e.data + [LF, LF])
    case None => DATA_FIELD + [COLON, SPACE] + e.data + [LF, LF]
  }

  function FormatAll(es: seq<SseEvent>): bytes {
    if es == [] then [] else FormatEvent(es[0]) + FormatAll(es[1..])
  }

  predicate OneLine(s: bytes) {
    forall i :: 0 <= i < |s| ==> s[i] != LF && s[i] != CR
  }

  predicate NoCrPair(s: bytes) {
    forall i :: 0 < i < |s| ==> s[i - 1] != CR || s[i] != CR
  }

  /** Text that stays one line of a frame: a `CR` may stand inside it, but not two together and not at the end. */
  predicate Framable(s: bytes) {
    LF !in s && NoCrPair(s) && (s != [] ==> s[|s| - 1] != CR)
  }

  /** What a Rust caller can format: its strings are UTF-8. */
  predicate Utf8Event(e: SseEvent) {
    ValidUtf8(e.data) && (e.event.Some? ==> ValidUtf8(e.event.value))
  }

  /** What a Rust caller can format without breaking the frame. */
  predicate Writable(e: SseEvent) {
    Utf8Event(e) && Framable(e.data) && (e.event.Some? ==> Framable(e.event.value))
  }

  lemma OneLineFrames(s: bytes)
    requires OneLine(s)
    ensures Framable(s)
  {
  }

  lemma FramableTail(x: bytes)
    requires Framable(x) && x != []
    ensures Framable(x[1..])
  {
    var t := x[1..];
    forall i | 0 < i < |t|
      ensures t[i - 1] != CR || t[i] != CR
    {
      assert x[i + 1 - 1] != CR || x[i + 1] != CR;
    }
  }

  lemma FramableLine(field: bytes, value: bytes)
    requires Framable(value) && OneLine(field)
    ensures Framable(FieldLine(field, value))
  {
    var x := FieldLine(field, value);
    var k := |field| + 2;
    forall i | 0 < i < |x|
      ensures x[i - 1] != CR || x[i] != CR
    {
      if i > k { assert x[i - 1] == value[i - 1 - k] && x[i] == value[i - k]; }
    }
  }

  lemma {:induction false} BoundaryPlain(x: bytes, rest: bytes)
    requires Framable(x)
    ensures Boundary(x + rest) == Shift(|x|, Boundary(rest))
  {
    hide Boundary, Framable;
    if x == [] {
      assert x + rest == rest;
    } else {
      FramableTail(x);
      BoundaryPlain(x[1..], rest);
      BoundaryPast(x, rest);
    }
  }

  lemma BoundaryPast(x: bytes, rest: bytes)
    requires Framable(x) && x != []
    ensures Boundary(x + rest) == Shift(1, Boundary(x[1..] + rest))
  {
    DropFront(x, rest, 1);
    assert |x| > 1 ==> (x + rest)[1] == x[1];
    assert |x| > 1 ==> x[0] != CR || x[1] != CR;
  }

  lemma BoundaryBreak(y: bytes)
    ensures Boundary([LF, LF] + y) == Some((0, 2))
    ensures y != [] && y[0] != LF && y[0] != CR ==> Boundary([LF] + y) == Shift(1, Boundary(y))
  {
    assert ([LF, LF] + y)[1..] == [LF] + y;
    assert ([LF] + y)[1..] == y;
  }

  function FieldLine(field: bytes, value: bytes): bytes {
    field + [COLON, SPACE] + value
  }

  lemma {:induction false} FieldExact(field: bytes, value: bytes)
    requires COLON !in field
    ensures Field(FieldLine(field, value)) == (field, value)
    decreases |field|
  {
    var line := FieldLine(field, value);
    if field == [] {
      assert line[2..] == value;
    } else {
      assert line[1..] == FieldLine(field[1..], value);
      FieldExact(field[1..], value);
      assert [field[0]] + field[1..] == field;
    }
  }

  lemma {:induction false} SplitLfPlain(x: bytes)
    requires LF !in x
    ensures SplitLf(x) == [x]
  {
    if x != [] {
      SplitLfPlain(x[1..]);
      assert [x[0]] + x[1..] == x;
    }
  }

  lemma {:induction false} SplitLfFirst(x: bytes, rest: bytes)
    requires LF !in x
    ensures SplitLf(x + ([LF] + rest)) == [x] + SplitLf(rest)
  {
    var s := x + ([LF] + rest);
    if x == [] {
      assert s[1..] == rest;
    } else {
      SplitLfFirst(x[1..], rest);
      DropFront(x, [LF] + rest, 1);
      assert [x[0]] + x[1..] == x;
    }
  }

  /** What one written line adds to the fields read so far. */
  lemma ReadWritten(f: Fields, field: bytes, value: bytes)
    requires field == EVENT_FIELD || field == DATA_FIELD
    requires ValidUtf8(value)
    ensures ReadLine(f, FieldLine(field, value))
         == if field == DATA_FIELD then f.(data := f.data + [value]) else f.(event := Some(value))
  {
    FieldExact(field, value);
    AsciiIsUtf8(field + [COLON, SPACE]);
    ValidUtf8Append(field + [COLON, SPACE], value);
    assert FieldLine(field, value)[0] == field[0];
  }

  lemma LinesPlain(x: bytes, more: seq<bytes>)
    requires x != [] && x[|x| - 1] != CR
    ensures Lines([x] + more) == [x] + Lines(more)
  {
    assert ([x] + more)[1..] == more;
    assert x[|x| - 1] != CR;
  }

  /** A frame without its blank line. */
  function Written(e: SseEvent): bytes {
    var d := FieldLine(DATA_FIELD, e.data);
    if e.event.None? then d else FieldLine(EVENT_FIELD, e.event.value) + ([LF] + d)
  }

  lemma ReadBlockExact(e: SseEvent)
    requires Writable(e)
    ensures ReadBlock(Written(e)) == Some(e)
  {
    hide SplitLf, Lines, ReadLine;
    var d := FieldLine(DATA_FIELD, e.data);
    FramableLine(DATA_FIELD, e.data);
    SplitLfPlain(d);
    var start := Fields(None, []);
    assert [d] + [] == [d];
    LinesPlain(d, []);
    LinesEmpty();
    match e.event
    case None =>
      assert [d][..0] == [];
      ReadWritten(start, DATA_FIELD, e.data);
      assert ReadLines(start, [d]) == ReadLine(start, d);
      assert [] + [e.data] == [e.data];
    case Some(name) =>
      var n := FieldLine(EVENT_FIELD, name);
      FramableLine(EVENT_FIELD, name);
      SplitLfFirst(n, d);
      LinesPlain(n, [d]);
      assert [n] + [d] == [n, d] && [n, d][..1] == [n] && [n][..0] == [];
      ReadWritten(start, EVENT_FIELD, name);
      ReadWritten(start.(event := Some(name)), DATA_FIELD, e.data);
      assert ReadLines(start, [n]) == ReadLine(start, n);
      assert ReadLines(start, [n, d]) == ReadLine(ReadLine(start, n), d);
      assert [] + [e.data] == [e.data];
  }

  lemma LinesEmpty()
    ensures Lines([]) == []
  {
  }

  lemma WrittenFrame(e: SseEvent, rest: bytes)
    ensures FormatEvent(e) + rest == Written(e) + ([LF, LF] + rest)
  {
    var d := FieldLine(DATA_FIELD, e.data);
    match e.event
    case None => Assoc3(d, [LF, LF], [], rest);
    case Some(name) =>
      var n := FieldLine(EVENT_FIELD, name);
      assert FormatEvent(e) == n + [LF] + (d + [LF, LF]);
      assert (n + [LF] + (d + [LF, LF])) + rest == n + ([LF] + d) + ([LF, LF] + rest);
  }

  lemma WrittenBoundary(e: SseEvent, rest: bytes)
    requires Writable(e)
    ensures Boundary(Written(e) + ([LF, LF] + rest)) == Some((|Written(e)|, |Written(e)| + 2))
  {
    hide Boundary;
    var d, tail := FieldLine(DATA_FIELD, e.data), [LF, LF] + rest;
    FramableLine(DATA_FIELD, e.data);
    BoundaryPlain(d, tail);
    BoundaryBreak(rest);
    if e.event.Some? {
      var n := FieldLine(EVENT_FIELD, e.event.value);
      FramableLine(EVENT_FIELD, e.event.value);
      BoundaryPlain(n, [LF] + (d + tail));
      BoundaryBreak(d + tail);
      assert Written(e) + tail == n + ([LF] + (d + tail));
    }
  }

  /** One written frame at the front of a buffer is one event. */
  lemma DrainFrame(e: SseEvent, rest: bytes)
    requires Writable(e)
    ensures Drain(FormatEvent(e) + rest) == ([e] + Drain(rest).0, Drain(rest).1)
  {
    hide ReadBlock, Boundary, FormatEvent;
    var block, tail := Written(e), [LF, LF] + rest;
    WrittenFrame(e, rest);
    WrittenBoundary(e, rest);
    ReadBlockExact(e);
    Halves(block, tail);
    assert (block + tail)[|block| + 2..] == tail[2..] == rest;
  }

  lemma {:induction false} DrainFormatted(es: seq<SseEvent>)
    requires forall i :: 0 <= i < |es| ==> Writable(es[i])
    ensures Drain(FormatAll(es)) == (es, [])
  {
    hide Drain, FormatEvent;
    if es == [] {
      DrainEmpty();
    } else {
      DrainFormatted(es[1..]);
      DrainFrame(es[0], FormatAll(es[1..]));
      assert [es[0]] + es[1..] == es;
    }
  }

  lemma DrainEmpty()
    ensures Drain([]) == ([], [])
  {
  }

  // ----- line endings, against the event-stream format (WHATWG HTML, section 9.2.6)

  /** The lines of a stream as the format defines them: ended by CRLF, LF or CR. */
  function SpecLines(s: bytes): (r: seq<bytes>)
    ensures r != []
    decreases |s|
  {
    if s == [] then [[]]
    else if s[0] == LF then [[]] + SpecLines(s[1..])
    else if s[0] == CR then [[]] + SpecLines(if |s| > 1 && s[1] == LF then s[2..] else s[1..])
    else
      var rest := SpecLines(s[1..]);
      [[s[0]] + rest[0]] + rest[1..]
  }

  function NonEmpty(lines: seq<bytes>): seq<bytes> {
    if lines == [] then [] else (if lines[0] == [] then [] else [lines[0]]) + NonEmpty(lines[1..])
  }

  /** A `CR` that something other than `LF` follows. */
  predicate LoneCr(s: bytes) {
    |s| >= 2 && ((s[0] == CR && s[1] != LF) || LoneCr(s[1..]))
  }

  predicate HasCr(lines: seq<bytes>) {
    lines != [] && (CR in lines[0] || HasCr(lines[1..]))
  }

  lemma HasCrCons(x: bytes, r: seq<bytes>)
    ensures HasCr([x] + r) <==> CR in x || HasCr(r)
    ensures [] + r == r
  {
    assert ([x] + r)[1..] == r;
  }

  lemma {:induction false} SpecLinesClean(s: bytes)
    ensures !HasCr(SpecLines(s))
    decreases |s|
  {
    hide HasCr;
    if s == [] {
      HasCrCons([], []);
      HasCrNone();
      assert [[]] + [] == SpecLines(s);
    } else {
      var t := if s[0] == CR && |s| > 1 && s[1] == LF then s[2..] else s[1..];
      SpecLinesClean(t);
      var rest := SpecLines(t);
      HasCrCons([], rest);
      HasCrCons(rest[0], rest[1..]);
      assert [rest[0]] + rest[1..] == rest;
      HasCrCons([s[0]] + rest[0], rest[1..]);
    }
  }

  lemma HasCrNone()
    ensures !HasCr([])
  {
  }

  lemma {:induction false} NonEmptyClean(lines: seq<bytes>)
    requires !HasCr(lines)
    ensures !HasCr(NonEmpty(lines))
  {
    if lines != [] {
      NonEmptyClean(lines[1..]);
      HasCrCons(lines[0], NonEmpty(lines[1..]));
    }
  }

  /** Without a lone `CR`, both ways of cutting lines agree on the first line and on the rest. */
  lemma {:induction false} LinesAgree(s: bytes)
    requires !LoneCr(s)
    ensures StripCr(SplitLf(s)[0]) == SpecLines(s)[0]
    ensures Lines(SplitLf(s)[1..]) == NonEmpty(SpecLines(s)[1..])
    decreases |s|
  {
    if s == [] {
    } else if s[0] == LF {
      LinesAgree(s[1..]);
      LinesWhole(s[1..]);
      assert SplitLf(s)[1..] == SplitLf(s[1..]) && SpecLines(s)[1..] == SpecLines(s[1..]);
    } else if s[0] == CR {
      if |s| > 1 {
        var t := s[2..];
        assert s[1..][1..] == t;
        NotLone(s);
        LinesAgree(t);
        LinesWhole(t);
        assert SplitLf(s[1..]) == [[]] + SplitLf(t);
        assert SplitLf(s) == [[CR] + []] + SplitLf(t);
        assert SplitLf(s)[1..] == SplitLf(t) && SpecLines(s)[1..] == SpecLines(t);
      } else {
        assert s[1..] == [];
        assert SplitLf(s) == [[CR] + []] && SpecLines(s) == [[]] + [[]];
        assert SplitLf(s)[1..] == [] && SpecLines(s)[1..] == [[]];
      }
    } else {
      LinesAgree(s[1..]);
      StripCrCons(s[0], SplitLf(s[1..])[0]);
      assert SplitLf(s)[1..] == SplitLf(s[1..])[1..] && SpecLines(s)[1..] == SpecLines(s[1..])[1..];
    }
  }

  lemma NotLone(s: bytes)
    requires |s| >= 2 && !LoneCr(s)
    ensures !LoneCr(s[2..])
  {
    assert s[1..][1..] == s[2..];
    if |s| > 2 { assert !LoneCr(s[1..]); }
  }

  lemma StripCrCons(c: byte, line: bytes)
    requires c != CR
    ensures StripCr([c] + line) == [c] + StripCr(line)
  {
    if line != [] && line[|line| - 1] == CR {
      assert ([c] + line)[..|line|] == [c] + line[..|line| - 1];
    }
  }

  lemma LinesWhole(s: bytes)
    requires StripCr(SplitLf(s)[0]) == SpecLines(s)[0]
    requires Lines(SplitLf(s)[1..]) == NonEmpty(SpecLines(s)[1..])
    ensures Lines(SplitLf(s)) == NonEmpty(SpecLines(s))
  {
  }

  /** A lone `CR` stays inside some line the parser reads. */
  lemma {:induction false} LoneCrKept(s: bytes)
    requires LoneCr(s)
    ensures CR in StripCr(SplitLf(s)[0]) || HasCr(Lines(SplitLf(s)[1..]))
  {
    var rest := SplitLf(s[1..]);
    if s[0] == CR && s[1] != LF {
      var first := SplitLf(s)[0];
      assert first == [CR] + rest[0] && rest[0] != [];
      assert StripCr(first)[0] == CR;
    } else {
      LoneCrKept(s[1..]);
      if s[0] == LF {
        assert SplitLf(s)[1..] == rest;
        HasCrLines(rest);
      } else {
        var first := SplitLf(s)[0];
        assert first == [s[0]] + rest[0];
        assert SplitLf(s)[1..] == rest[1..];
        if CR in StripCr(rest[0]) {
          var i :| 0 <= i < |StripCr(rest[0])| && StripCr(rest[0])[i] == CR;
          assert StripCr(first)[i + 1] == CR;
        }
      }
    }
  }

  lemma HasCrLines(raw: seq<bytes>)
    requires raw != []
    requires CR in StripCr(raw[0]) || HasCr(Lines(raw[1..]))
    ensures HasCr(Lines(raw))
  {
    hide HasCr, StripCr;
    HasCrCons(StripCr(raw[0]), Lines(raw[1..]));
  }

  /**
   The parser reads the lines the format defines exactly when no `CR` stands alone: a lone `CR` ends
   an event's last line but is not seen as a line ending inside the event.
   */
  lemma LinesAreSpecLinesIff(block: bytes)
    ensures Lines(SplitLf(block)) == NonEmpty(SpecLines(block)) <==> !LoneCr(block)
  {
    if !LoneCr(block) {
      LinesAgree(block);
      LinesWhole(block);
    } else {
      LoneCrKept(block);
      HasCrLines(SplitLf(block));
      SpecLinesClean(block);
      NonEmptyClean(SpecLines(block));
    }
  }
}
