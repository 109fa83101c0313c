/** Which events survive being written with `format_event` and read back. */
module SseFrames {
  import opened Wrappers
  import opened Bytes
  import opened SseShared
  import opened Sse

  // ----- where a frame's first block ends

  /** A frame ends in a blank line, so its first block ends inside it. */
  lemma {:induction false} BoundaryWithin(x: bytes, rest: bytes)
    ensures (var b := Boundary(x + ([LF, LF] + rest)); b.Some? && b.value.0 <= |x|)
    decreases |x|
  {
    var tail := [LF, LF] + rest;
    BoundaryBreak(rest);
    if x == [] {
      assert x + tail == tail;
    } else {
      BreakWithin(x, tail);
      var n := LineBreakLen(x + tail).value;
      if n <= |x| {
        DropFront(x, tail, if n == 0 then 1 else n);
        BoundaryWithin(x[if n == 0 then 1 else n..], rest);
        if x[n..] == [] { assert x[n..] + tail == tail; } else { BreakWithin(x[n..], tail); }
      }
    }
  }

  /** A line break in front of a frame's end is classified, and takes one `LF` of the blank line at most. */
  lemma BreakWithin(x: bytes, tail: bytes)
    requires x != [] && |tail| >= 2 && tail[0] == LF && tail[1] == LF
    ensures (var n := LineBreakLen(x + tail);
             && n.Some? && n.value <= |x| + 1
             && (n.value > |x| ==> x == [CR] && LineBreakLen((x + tail)[n.value..]) == Some(1)))
  {
  }

  /** Before the blank line no two line breaks meet, and one stands where the block ends. */
  lemma {:induction false} BlockShape(s: bytes)
    requires Boundary(s).Some?
    ensures (var k := Boundary(s).value.0; k < |s| && (s[k] == LF || s[k] == CR) && NoCrPair(s[..k]))
    decreases |s|
  {
    BoundaryFound(s);
    hide Boundary, LineBreakLen, NoCrPair;
    var n := LineBreakLen(s).value;
    var k := Boundary(s).value.0;
    BreakShape(s);
    assert NoCrPair([]);
    if n == 0 {
      BlockShape(s[1..]);
      assert s[1..][..k - 1] == s[..k][1..];
      PairBehind(s[..k], 1);
    } else if LineBreakLen(s[n..]) == Some(0) {
      BlockShape(s[n..]);
      assert s[n..][..k - n] == s[..k][n..];
      PairBehind(s[..k], n);
    } else {
      assert s[..k] == [];
    }
  }

  lemma BreakShape(s: bytes)
    requires s != [] && LineBreakLen(s).Some?
    ensures (var n := LineBreakLen(s).value;
             && n <= 2 && (n > 0 <==> s[0] == LF || s[0] == CR) && (n == 2 ==> s[1] == LF)
             && (n == 1 && |s| > 1 && LineBreakLen(s[1..]) == Some(0) ==> s[1] != CR))
  {
  }

  lemma PairBehind(s: bytes, n: nat)
    requires n <= |s| && n <= 2 && NoCrPair(s[n..])
    requires n == 1 ==> |s| < 2 || s[0] != CR || s[1] != CR
    requires n == 2 ==> s[1] == LF
    ensures NoCrPair(s)
  {
    forall i | 0 < i < |s|
      ensures s[i - 1] != CR || s[i] != CR
    {
      if i > n { assert s[n..][i - n - 1] == s[i - 1] && s[n..][i - n] == s[i]; }
    }
  }

  // ----- the lines of a block

  ghost predicate AllFramable(parts: seq<bytes>) {
    forall k :: 0 <= k < |parts| ==> Framable(parts[k])
  }

  /** The bytes of some parts, one more counted for each. */
  function Size(parts: seq<bytes>): nat {
    if parts == [] then 0 else |parts[0]| + 1 + Size(parts[1..])
  }

  lemma {:induction false} SizeSnoc(a: seq<bytes>, x: bytes)
    ensures Size(a + [x]) == Size(a) + |x| + 1
  {
    if a == [] {
      assert [] + [x] == [x];
    } else {
      SizeSnoc(a[1..], x);
      assert (a + [x])[1..] == a[1..] + [x];
    }
  }

  lemma {:induction false} JoinSize(parts: seq<bytes>)
    requires parts != []
    ensures |JoinLf(parts)| + 1 == Size(parts)
  {
    if |parts| > 1 { JoinSize(parts[1..]); } else { assert parts[1..] == []; }
  }

  /** Cutting at the line feeds keeps every byte; a piece has no `LF` and no pair the block has not. */
  lemma {:induction false} PiecesShape(s: bytes)
    requires NoCrPair(s)
    ensures SplitLf(s)[0] <= s && Size(SplitLf(s)) == |s| + 1
    ensures forall k :: 0 <= k < |SplitLf(s)| ==> LF !in SplitLf(s)[k] && NoCrPair(SplitLf(s)[k])
  {
    if s != [] {
      PairTail(s);
      PiecesShape(s[1..]);
      var rest := SplitLf(s[1..]);
      assert [rest[0]] + rest[1..] == rest;
      if s[0] == LF {
        assert ([[]] + rest)[1..] == rest;
      } else {
        assert SplitLf(s)[1..] == rest[1..];
        PairFront(s, rest[0]);
      }
    }
  }

  lemma PairTail(s: bytes)
    requires NoCrPair(s) && s != []
    ensures NoCrPair(s[1..])
  {
    var t := s[1..];
    forall i | 0 < i < |t|
      ensures t[i - 1] != CR || t[i] != CR
    {
      assert s[i + 1 - 1] != CR || s[i + 1] != CR;
    }
  }

  lemma PairFront(s: bytes, p: bytes)
    requires NoCrPair(s) && s != [] && p <= s[1..]
    ensures NoCrPair([s[0]] + p) && [s[0]] + p <= s
  {
    var x := [s[0]] + p;
    assert x == s[..|x|];
  }

  lemma {:induction false} LinesShape(raw: seq<bytes>)
    requires forall k :: 0 <= k < |raw| ==> LF !in raw[k] && NoCrPair(raw[k])
    ensures AllFramable(Lines(raw)) && Size(Lines(raw)) <= Size(raw)
  {
    if raw != [] {
      LinesShape(raw[1..]);
      StrippedFrames(raw[0]);
      var rest := Lines(raw[1..]);
      if StripCr(raw[0]) != [] {
        assert Lines(raw)[1..] == rest;
      } else {
        assert Lines(raw) == rest;
      }
    }
  }

  lemma StrippedFrames(line: bytes)
    requires LF !in line && NoCrPair(line)
    ensures Framable(StripCr(line)) && |StripCr(line)| <= |line|
  {
  }

  // ----- what a block can say

  lemma {:induction false} FieldShape(line: bytes)
    requires Framable(line)
    ensures Framable(Field(line).1) && |Field(line).0| + |Field(line).1| <= |line|
    ensures COLON in line ==> |Field(line).0| + |Field(line).1| < |line|
    decreases |line|
  {
    if line != [] {
      FramableTail(line);
      if line[0] == COLON {
        if |line| > 1 {
          FramableTail(line[1..]);
          assert line[1..][1..] == line[2..];
        }
      } else {
        FieldShape(line[1..]);
      }
    }
  }

  ghost predicate FieldsFrame(f: Fields) {
    AllFramable(f.data) && (f.event.Some? ==> Framable(f.event.value))
  }

  predicate Said(f: Fields) {
    f.data != [] || f.event.Some?
  }

  /** The bytes of the data read, and at least four more for every line it came from. */
  function Cost(f: Fields): nat {
    Size(f.data) + 4 * |f.data|
  }

  lemma LineShape(f: Fields, line: bytes)
    requires FieldsFrame(f) && Framable(line)
    ensures (var g := ReadLine(f, line);
             FieldsFrame(g) && Cost(g) <= Cost(f) + |line| + 1 && (Said(f) ==> Said(g)))
  {
    hide Framable, Field, ValidUtf8;
    FieldShape(line);
    SizeSnoc(f.data, Field(line).1);
  }

  lemma {:induction false} LinesSay(f: Fields, lines: seq<bytes>)
    requires FieldsFrame(f) && AllFramable(lines)
    ensures (var g := ReadLines(f, lines);
             FieldsFrame(g) && Cost(g) <= Cost(f) + Size(lines) && (Said(f) ==> Said(g)))
  {
    hide ReadLine, FieldsFrame, Said, Cost, Framable;
    if lines != [] {
      var front, last := lines[..|lines| - 1], lines[|lines| - 1];
      LinesSay(f, front);
      LineShape(ReadLines(f, front), last);
      assert front + [last] == lines;
      SizeSnoc(front, last);
    }
  }

  lemma {:induction false} ReadLinesFirst(f: Fields, x: bytes, more: seq<bytes>)
    ensures ReadLines(f, [x] + more) == ReadLines(ReadLine(f, x), more)
  {
    hide ReadLine;
    if more == [] {
      assert [x] + more == [x] && [x][..0] == [];
    } else {
      ReadLinesFirst(f, x, more[..|more| - 1]);
      assert ([x] + more)[..|more|] == [x] + more[..|more| - 1];
    }
  }

  const NOTHING: Fields := Fields(None, [])

  /** The lines of the block before the first blank line. */
  function BlockLines(s: bytes): seq<bytes>
    requires Boundary(s).Some?
  {
    Lines(SplitLf(s[..Boundary(s).value.0]))
  }

  lemma BlockLinesShape(block: bytes)
    requires NoCrPair(block)
    ensures AllFramable(Lines(SplitLf(block))) && Size(Lines(SplitLf(block))) <= |block| + 1
  {
    hide NoCrPair, SplitLf, Lines, AllFramable;
    PiecesShape(block);
    LinesShape(SplitLf(block));
  }

  /** The first line of a frame's first block is the written field, as far as its first line break. */
  lemma FirstLine(field: bytes, v: bytes, tail: bytes)
    requires OneLine(field) && ValidUtf8(v) && tail != [] && tail[0] == LF
    requires Boundary(FieldLine(field, v) + tail).Some?
    ensures (var lines := BlockLines(FieldLine(field, v) + tail);
             exists j: nat :: j <= |v| && ValidUtf8(v[..j]) && lines != [] && lines[0] == FieldLine(field, v[..j]))
  {
    hide Boundary, ValidUtf8, Lines, NoCrPair, StripCr, FieldLine, SplitLf, OneLine;
    var s := FieldLine(field, v) + tail;
    var block := s[..Boundary(s).value.0];
    BlockShape(s);
    var k := FirstPiece(block);
    assert block[..k] == s[..k] && LF !in s[..k];
    FirstBreak(field, v, tail, k);
    var m := StrippedAt(s, k);
    FirstBreak(field, v, tail, m);
    Stripped(field, v, tail, m);
    FirstOfLines(SplitLf(block));
  }

  lemma StrippedAt(s: bytes, k: nat) returns (m: nat)
    requires k < |s| && (s[k] == LF || s[k] == CR) && LF !in s[..k]
    ensures m <= k && StripCr(s[..k]) == s[..m] && (s[m] == LF || s[m] == CR) && LF !in s[..m]
  {
    m := if k > 0 && s[k - 1] == CR then k - 1 else k;
    assert k > 0 ==> s[..k][k - 1] == s[k - 1];
    assert s[..k][..m] == s[..m];
  }

  /** A line break of a frame with no `LF` before it stands behind the lead and not behind the field. */
  lemma FirstBreak(field: bytes, v: bytes, tail: bytes, k: nat)
    requires OneLine(field) && tail != [] && tail[0] == LF
    requires (var s := FieldLine(field, v) + tail; k < |s| && (s[k] == LF || s[k] == CR) && LF !in s[..k])
    ensures |field| + 2 <= k <= |field| + 2 + |v|
  {
    var s := FieldLine(field, v) + tail;
    forall i | 0 <= i < |field|
      ensures s[i] != LF && s[i] != CR
    {
      assert s[i] == field[i];
    }
    forall i | 0 <= i < k
      ensures s[i] != LF
    {
      assert s[..k][i] == s[i];
    }
    assert s[|field| + 2 + |v|] == LF;
  }

  lemma Stripped(field: bytes, v: bytes, tail: bytes, m: nat)
    requires ValidUtf8(v) && |field| + 2 <= m <= |field| + 2 + |v| && tail != []
    requires (var s := FieldLine(field, v) + tail; s[m] == LF || s[m] == CR)
    ensures (var j := m - |field| - 2; ValidUtf8(v[..j]) && (FieldLine(field, v) + tail)[..m] == FieldLine(field, v[..j]))
    ensures FieldLine(field, v[..m - |field| - 2]) != []
  {
    hide ValidUtf8;
    var s := FieldLine(field, v) + tail;
    var j := m - |field| - 2;
    if j < |v| {
      assert s[m] == v[j];
      Utf8Halves(v, j);
    } else {
      assert v[..j] == v;
    }
    assert s[..m] == FieldLine(field, v[..j]);
  }

  lemma FirstOfLines(raw: seq<bytes>)
    requires raw != [] && StripCr(raw[0]) != []
    ensures Lines(raw) != [] && Lines(raw)[0] == StripCr(raw[0])
  {
  }

  /** The first piece ends at the first `LF`, or nowhere. */
  lemma {:induction false} FirstPiece(s: bytes) returns (k: nat)
    ensures k <= |s| && SplitLf(s)[0] == s[..k] && LF !in s[..k] && (k < |s| ==> s[k] == LF)
  {
    if s == [] || s[0] == LF {
      k := 0;
    } else {
      var j := FirstPiece(s[1..]);
      k := j + 1;
      assert s[..k] == [s[0]] + s[1..][..j];
    }
  }

  /** So the first block of a frame says something, and only in text that stays one line. */
  lemma FirstSays(field: bytes, v: bytes, tail: bytes)
    requires field == EVENT_FIELD || field == DATA_FIELD
    requires ValidUtf8(v) && tail != [] && tail[0] == LF
    requires Boundary(FieldLine(field, v) + tail).Some?
    ensures (var s := FieldLine(field, v) + tail;
             var f := ReadLines(NOTHING, BlockLines(s));
             && Said(f) && FieldsFrame(f)
             && ReadBlock(s[..Boundary(s).value.0]) == Some(SseEvent(f.event, JoinLf(f.data))))
  {
    hide Boundary, ReadLine, Lines, Framable, ValidUtf8, NoCrPair, SplitLf, JoinLf;
    var s := FieldLine(field, v) + tail;
    FirstLine(field, v, tail);
    var lines := BlockLines(s);
    var j: nat :| j <= |v| && ValidUtf8(v[..j]) && lines[0] == FieldLine(field, v[..j]);
    assert [lines[0]] + lines[1..] == lines;
    ReadLinesFirst(NOTHING, lines[0], lines[1..]);
    ReadWritten(NOTHING, field, v[..j]);
    BlockShape(s);
    BlockLinesShape(s[..Boundary(s).value.0]);
    LinesSay(NOTHING, lines);
    LineShape(NOTHING, lines[0]);
    LinesSay(ReadLine(NOTHING, lines[0]), lines[1..]);
  }

  // ----- the events that survive

  /** The first field of a frame: the event's name, or the data of an event without one. */
  function Opening(e: SseEvent): (bytes, bytes) {
    match e.event
    case Some(name) => (EVENT_FIELD, name)
    case None => (DATA_FIELD, e.data)
  }

  /** What of a frame follows its first field. */
  function Closing(e: SseEvent, rest: bytes): bytes {
    match e.event
    case Some(_) => [LF] + (FieldLine(DATA_FIELD, e.data) + ([LF, LF] + rest))
    case None => [LF, LF] + rest
  }

  lemma OpeningFrame(e: SseEvent, rest: bytes)
    ensures (var (field, v) := Opening(e); FormatEvent(e) + rest == FieldLine(field, v) + Closing(e, rest))
    ensures Closing(e, rest) != [] && Closing(e, rest)[0] == LF
  {
    hide FormatEvent, FieldLine;
    WrittenFrame(e, rest);
    if e.event.Some? {
      var n, d := FieldLine(EVENT_FIELD, e.event.value), FieldLine(DATA_FIELD, e.data);
      var tail := [LF, LF] + rest;
      assert n + ([LF] + d) + tail == n + ([LF] + (d + tail));
    }
  }

  /** What is read of a frame's first block, which says something for every UTF-8 event. */
  function FirstRead(s: bytes): Fields {
    if Boundary(s).None? then NOTHING else ReadLines(NOTHING, BlockLines(s))
  }

  lemma FirstDrained(e: SseEvent, rest: bytes)
    requires Utf8Event(e)
    ensures (var s := FormatEvent(e) + rest;
             var f := FirstRead(s);
             && Boundary(s).Some? && Boundary(s).value.0 <= |Written(e)|
             && FieldsFrame(f)
             && Drain(s).0 != [] && Drain(s).0[0] == SseEvent(f.event, JoinLf(f.data)))
  {
    hide Boundary, BlockLines, ReadLines, ReadBlock, FormatEvent, FieldLine, Written, ValidUtf8, FieldsFrame, Closing;
    var s := FormatEvent(e) + rest;
    WrittenFrame(e, rest);
    BoundaryWithin(Written(e), rest);
    OpeningFrame(e, rest);
    var (field, v) := Opening(e);
    FirstSays(field, v, Closing(e, rest));
  }

  /** Data that is read whole was written on one line. */
  lemma OneValue(f: Fields, data: bytes)
    requires FieldsFrame(f) && Cost(f) <= |data| + 7 && JoinLf(f.data) == data
    ensures Framable(data)
  {
    if f.data != [] {
      JoinSize(f.data);
      assert |f.data| == 1;
    }
  }

  /** An event whose frame is read as itself stays on one line. */
  lemma SurvivorIsFramable(e: SseEvent, rest: bytes)
    requires Utf8Event(e)
    requires Drain(FormatEvent(e) + rest).0 != [] && Drain(FormatEvent(e) + rest).0[0] == e
    ensures Writable(e)
  {
    hide Boundary, ReadBlock, Drain, FormatEvent, FieldLine, ReadLines, ValidUtf8, NoCrPair, SplitLf, Lines, Framable, JoinLf;
    var s := FormatEvent(e) + rest;
    FirstDrained(e, rest);
    var f := FirstRead(s);
    FirstCost(e, rest);
    OneValue(f, e.data);
  }

  /** The data of a frame's first block costs no more than the data line. */
  lemma FirstCost(e: SseEvent, rest: bytes)
    requires Utf8Event(e) && (e.event.Some? ==> Framable(e.event.value))
    ensures Cost(FirstRead(FormatEvent(e) + rest)) <= |e.data| + 7
  {
    hide Boundary, ReadBlock, Drain, FormatEvent, ReadLines, ValidUtf8, NoCrPair, SplitLf, Lines, Framable, JoinLf, Cost;
    var s := FormatEvent(e) + rest;
    FirstDrained(e, rest);
    BlockShape(s);
    var block := s[..Boundary(s).value.0];
    match e.event
    case None =>
      BlockLinesShape(block);
      LinesSay(NOTHING, Lines(SplitLf(block)));
      NothingCosts();
    case Some(name) =>
      OpeningFrame(e, rest);
      var behind := NamedBlock(name, FieldLine(DATA_FIELD, e.data) + ([LF, LF] + rest));
      assert |behind| <= |e.data| + 6;
  }

  /** Behind a written name the block goes on with what is read from the data line. */
  lemma NamedBlock(name: bytes, more: bytes) returns (behind: bytes)
    requires ValidUtf8(name) && Framable(name) && more != [] && more[0] != LF && more[0] != CR
    requires Boundary(FieldLine(EVENT_FIELD, name) + ([LF] + more)).Some?
    ensures (var s := FieldLine(EVENT_FIELD, name) + ([LF] + more);
             && Boundary(s).value.0 == |name| + 8 + |behind|
             && Cost(FirstRead(s)) <= |behind| + 1)
  {
    hide Boundary, ReadLines, ReadLine, ValidUtf8, NoCrPair, SplitLf, Lines, Framable, Cost, LineBreakLen;
    var n := FieldLine(EVENT_FIELD, name);
    var s := n + ([LF] + more);
    FramableLine(EVENT_FIELD, name);
    BoundaryPlain(n, [LF] + more);
    BoundaryBreak(more);
    var k := Boundary(more).value.0;
    behind := more[..k];
    BlockShape(more);
    assert s[..|n| + 1 + k] == n + ([LF] + behind);
    LineEnds(n);
    SplitLfFirst(n, behind);
    LinesPlain(n, SplitLf(behind));
    ReadLinesFirst(NOTHING, n, Lines(SplitLf(behind)));
    ReadWritten(NOTHING, EVENT_FIELD, name);
    BlockLinesShape(behind);
    NothingCosts();
    NameCosts(name);
    LinesSay(NOTHING.(event := Some(name)), Lines(SplitLf(behind)));
  }

  lemma LineEnds(x: bytes)
    requires Framable(x) && x != []
    ensures LF !in x && x[|x| - 1] != CR
  {
  }

  lemma NameCosts(name: bytes)
    requires Framable(name)
    ensures Cost(Fields(Some(name), [])) == 0 && FieldsFrame(Fields(Some(name), []))
  {
  }

  lemma NothingCosts()
    ensures Cost(NOTHING) == 0 && FieldsFrame(NOTHING)
  {
  }

  predicate AllUtf8(es: seq<SseEvent>) {
    forall i :: 0 <= i < |es| ==> Utf8Event(es[i])
  }

  predicate AllWritable(es: seq<SseEvent>) {
    forall i :: 0 <= i < |es| ==> Writable(es[i])
  }

  lemma {:induction false} SurvivorsAreFramable(es: seq<SseEvent>)
    requires AllUtf8(es) && Drain(FormatAll(es)) == (es, [])
    ensures AllWritable(es)
  {
    hide Drain, FormatEvent, Utf8Event, Writable;
    if es != [] {
      var rest := FormatAll(es[1..]);
      SurvivorIsFramable(es[0], rest);
      DrainFrame(es[0], rest);
      assert ([es[0]] + Drain(rest).0)[1..] == Drain(rest).0;
      SurvivorsAreFramable(es[1..]);
      forall i | 0 <= i < |es|
        ensures Writable(es[i])
      {
        if i > 0 { assert es[1..][i - 1] == es[i]; }
      }
    }
  }

  /**
   Written frames read back, under any chunking, as exactly the events written, with nothing left over,
   exactly when every name and every data stays on one line: no `LF`, no two `CR` together, no `CR` at the end.
   */
  lemma FramesRoundTripIff(es: seq<SseEvent>, chunks: seq<bytes>)
    requires AllUtf8(es)
    requires Concat(chunks) == FormatAll(es)
    ensures PushAll([], chunks) == (es, []) <==> AllWritable(es)
  {
    hide Drain, PushAll, Utf8Event, Writable;
    DrainEmpty();
    CutsDoNotMatter([], chunks);
    assert [] + Concat(chunks) == Concat(chunks);
    if AllWritable(es) {
      DrainFormatted(es);
    } else if Drain(FormatAll(es)) == (es, []) {
      SurvivorsAreFramable(es);
    }
  }

  /** A `CR` inside the data survives although it would end a line of the format. */
  lemma InnerCr()
    ensures Writable(SseEvent(None, [0x61, CR, 0x62])) && !Writable(SseEvent(None, [0x61, CR]))
  {
    AsciiIsUtf8([0x61, CR, 0x62]);
  }
}
