/** A whole event stream, as `sse.rs` reads it and as the format does (WHATWG HTML, sections 9.2.5 and 9.2.6). */
module SseStream {
  import opened Wrappers
  import opened Bytes
  import opened SseShared
  import opened Sse
  import opened SseDispatch

  /** Lines read on from what has been read before. */
  function SpecReadFrom(r: Reading, lines: seq<bytes>): Reading {
    if lines == [] then r else SpecLine(SpecReadFrom(r, lines[..|lines| - 1]), lines[|lines| - 1])
  }

  /** The lines that have ended; what follows the last line break is not a line yet. */
  function EndedLines(s: bytes): seq<bytes> {
    SpecLines(s)[..|SpecLines(s)| - 1]
  }

  /** The events of a stream whose bytes are all text of the stream. */
  function SpecRun(s: bytes): seq<SseEvent> {
    SpecRead(EndedLines(s)).events
  }

  const MARK: bytes := [0xEF, 0xBB, 0xBF]

  /** The format's reading: one byte order mark in front is not part of the text. */
  function SpecStream(s: bytes): seq<SseEvent> {
    SpecRun(if MARK <= s then s[3..] else s)
  }

  /** Every `CR` is half of a `CRLF`. */
  predicate CrlfOnly(s: bytes) {
    forall i :: 0 <= i < |s| && s[i] == CR ==> i + 1 < |s| && s[i + 1] == LF
  }

  /** Some block of the stream names an event without giving it data. */
  predicate NamesOnly(s: bytes)
    decreases |s|
  {
    match Boundary(s)
    case None => false
    case Some(b) => EventOnly(s[..b.0]) || NamesOnly(s[b.1..])
  }

  function TypedEvents(es: seq<SseEvent>): seq<SseEvent> {
    if es == [] then [] else [Typed(es[0])] + TypedEvents(es[1..])
  }

  // ----- reading on

  lemma {:induction false} SpecReadAppend(a: seq<bytes>, b: seq<bytes>)
    ensures SpecRead(a + b) == SpecReadFrom(SpecRead(a), b)
  {
    hide SpecLine;
    if b == [] {
      assert a + b == a;
    } else {
      SpecReadAppend(a, b[..|b| - 1]);
      assert (a + b)[..|a + b| - 1] == a + b[..|b| - 1];
    }
  }

  /** After a dispatch reading goes on as from the start. */
  lemma {:induction false} ReadAfresh(es: seq<SseEvent>, lines: seq<bytes>)
    ensures SpecReadFrom(Reading(NO_BUFFERS, es), lines)
         == Reading(SpecRead(lines).buffers, es + SpecRead(lines).events)
  {
    hide SpecField, Dispatch;
    if lines == [] {
      assert es + [] == es;
    } else {
      var front, last := lines[..|lines| - 1], lines[|lines| - 1];
      ReadAfresh(es, front);
      var r := SpecRead(front);
      assert (es + r.events) + Dispatch(r.buffers) == es + (r.events + Dispatch(r.buffers));
    }
  }

  // ----- where the first blank line is

  lemma CrlfDrop(s: bytes, k: nat)
    requires CrlfOnly(s) && k <= |s|
    ensures CrlfOnly(s[k..])
  {
    var t := s[k..];
    forall i | 0 <= i < |t| && t[i] == CR
      ensures i + 1 < |t| && t[i + 1] == LF
    {
      assert s[k + i] == CR;
    }
  }

  lemma {:induction false} CrlfIsNotLone(s: bytes)
    requires CrlfOnly(s)
    ensures !LoneCr(s)
  {
    if |s| >= 2 {
      CrlfDrop(s, 1);
      CrlfIsNotLone(s[1..]);
    }
  }

  /** A blank line at `a` to `e` cuts the lines of `s` into those of a block and those of the rest. */
  ghost predicate CutAt(s: bytes, a: nat, e: nat) {
    && a < e <= |s|
    && SpecLines(s) == SpecLines(s[..a]) + [[]] + SpecLines(s[e..])
    && CutBlock(s[..a]) && CrlfOnly(s[..a])
  }

  /** What a first blank line does to the lines, and to the block before it. */
  lemma {:induction false} LinesAtBoundary(s: bytes)
    requires CrlfOnly(s) && Boundary(s).Some?
    ensures CutAt(s, Boundary(s).value.0, Boundary(s).value.1)
    decreases |s|
  {
    BoundaryFound(s);
    hide Boundary, CutAt, CrlfOnly, LineBreakLen;
    var (a, e) := Boundary(s).value;
    var n := LineBreakLen(s).value;
    if n == 0 {
      CrlfDrop(s, 1);
      LinesAtBoundary(s[1..]);
      PlainFront(s, a, e);
    } else {
      var m := LineBreakLen(s[n..]).value;
      if m == 0 {
        CrlfDrop(s, n);
        LinesAtBoundary(s[n..]);
        LaterBoundary(s, n, a, e);
      } else {
        EmptyBlock(s, n, m);
      }
    }
  }

  /** A line break in text where every `CR` has its `LF`. */
  lemma BreakFront(s: bytes, n: nat)
    requires CrlfOnly(s) && s != [] && LineBreakLen(s) == Some(n) && n > 0
    ensures SpecLines(s) == [[]] + SpecLines(s[n..])
    ensures n == 1 ==> s[0] == LF
    ensures n == 2 ==> s[..2] == [CR, LF]
    ensures n <= 2
  {
  }

  lemma SpecLinesPlainFront(s: bytes)
    requires s != [] && s[0] != LF && s[0] != CR
    ensures SpecLines(s) == [[s[0]] + SpecLines(s[1..])[0]] + SpecLines(s[1..])[1..]
  {
  }

  /** A prefix keeps every `CR` with its `LF` if what is left after its front does. */
  lemma CrlfCons(s: bytes, a: nat, n: nat)
    requires 0 < n <= 2 && n <= a <= |s| && CrlfOnly(s[n..][..a - n])
    requires n == 1 ==> s[0] != CR
    requires n == 2 ==> s[0] == CR && s[1] == LF
    ensures CrlfOnly(s[..a])
  {
    var block, t := s[..a], s[n..][..a - n];
    forall i | 0 <= i < |block| && block[i] == CR
      ensures i + 1 < |block| && block[i + 1] == LF
    {
      if i >= n { assert t[i - n] == CR; }
    }
  }

  lemma PlainFront(s: bytes, a: nat, e: nat)
    requires s != [] && LineBreakLen(s) == Some(0)
    requires 0 < a < e <= |s| && CutAt(s[1..], a - 1, e - 1)
    ensures CutAt(s, a, e)
  {
    hide Boundary, SpecLines, CrlfOnly;
    var t, block := s[1..], s[..a];
    assert block[1..] == t[..a - 1] && s[e..] == t[e - 1..];
    SpecLinesPlainFront(s);
    SpecLinesPlainFront(block);
    FrontOfThree(s[0], SpecLines(t[..a - 1]), SpecLines(t[e - 1..]));
    DropFront(block, [LF, LF], 1);
    BoundaryPlainFront(block + [LF, LF]);
    CrlfCons(s, a, 1);
  }

  lemma FrontOfThree(c: byte, ls: seq<bytes>, ms: seq<bytes>)
    requires ls != []
    ensures (var all := ls + [[]] + ms; [[c] + all[0]] + all[1..] == ([[c] + ls[0]] + ls[1..]) + [[]] + ms)
  {
  }

  lemma BoundaryPlainFront(s: bytes)
    requires s != [] && LineBreakLen(s) == Some(0)
    ensures Boundary(s) == Shift(1, Boundary(s[1..]))
  {
  }

  lemma LaterBoundary(s: bytes, n: nat, a: nat, e: nat)
    requires CrlfOnly(s) && s != [] && LineBreakLen(s) == Some(n) && n > 0
    requires n < a < e <= |s| && LineBreakLen(s[n..]) == Some(0) && CutAt(s[n..], a - n, e - n)
    ensures CutAt(s, a, e)
  {
    BreakFront(s, n);
    hide Boundary, SpecLines, CrlfOnly;
    var t, block := s[n..], s[..a];
    assert block[n..] == t[..a - n] && s[e..] == t[e - n..];
    assert s[n] != LF && s[n] != CR && block[n] == s[n];
    BreakBlock(s, n, a);
    BracketFirst(SpecLines(t[..a - n]), SpecLines(t[e - n..]));
    DropFront(block, [LF, LF], n);
    BoundaryAfterBreak(block + [LF, LF], n);
    CrlfCons(s, a, n);
  }

  lemma BracketFirst(ls: seq<bytes>, ms: seq<bytes>)
    ensures [[]] + (ls + [[]] + ms) == ([[]] + ls) + [[]] + ms
  {
  }

  /** The break at the front of a longer block. */
  lemma BreakBlock(s: bytes, n: nat, a: nat)
    requires s != [] && LineBreakLen(s) == Some(n) && 0 < n <= 2 && n < a <= |s|
    requires (n == 1 ==> s[0] == LF) && (n == 2 ==> s[..2] == [CR, LF]) && s[n] != LF && s[n] != CR
    ensures n == 2 ==> s[0] == CR && s[1] == LF
    ensures SpecLines(s[..a]) == [[]] + SpecLines(s[..a][n..])
    ensures LineBreakLen(s[..a] + [LF, LF]) == Some(n) && LineBreakLen((s[..a] + [LF, LF])[n..]) == Some(0)
  {
    var block := s[..a];
    if n == 2 {
      assert s[0] == s[..2][0] && s[1] == s[..2][1];
    }
    assert (block + [LF, LF])[n..][0] == s[n];
  }

  lemma BoundaryAfterBreak(s: bytes, n: nat)
    requires s != [] && LineBreakLen(s) == Some(n) && n > 0 && LineBreakLen(s[n..]) == Some(0)
    ensures Boundary(s) == Shift(n, Boundary(s[n..]))
  {
  }

  lemma EmptyBlock(s: bytes, n: nat, m: nat)
    requires CrlfOnly(s) && s != [] && LineBreakLen(s) == Some(n) && n > 0
    requires n <= |s| && LineBreakLen(s[n..]) == Some(m) && m > 0
    ensures Boundary(s) == Some((0, n + m)) && CutAt(s, 0, n + m)
  {
    hide SpecLines, CrlfOnly;
    BreakFront(s, n);
    CrlfDrop(s, n);
    BreakFront(s[n..], m);
    assert s[n..][m..] == s[n + m..] && s[..0] == [];
    EmptyIsCut();
    var rest := SpecLines(s[n + m..]);
    assert [[]] + ([[]] + rest) == [[]] + [[]] + rest;
    BoundaryTwoBreaks(s, n, m);
  }

  lemma BoundaryTwoBreaks(s: bytes, n: nat, m: nat)
    requires s != [] && LineBreakLen(s) == Some(n) && n > 0
    requires LineBreakLen(s[n..]) == Some(m) && m > 0
    ensures Boundary(s) == Some((0, n + m))
  {
  }

  lemma EmptyIsCut()
    ensures SpecLines([]) == [[]] && CutBlock([]) && CrlfOnly([])
  {
    BoundaryBreak([]);
    assert [] + [LF, LF] == [LF, LF] + [];
  }

  lemma BoundaryMissing(s: bytes)
    requires Boundary(s).None? && s != [] && CrlfOnly(s)
    ensures LineBreakLen(s).Some?
    ensures (var n := LineBreakLen(s).value;
             && (n == 0 ==> Boundary(s[1..]).None?)
             && (n > 0 ==> LineBreakLen(s[n..]) == Some(0) && Boundary(s[n..]).None?))
  {
  }

  /** Without a blank line no line that has ended is empty but perhaps the first. */
  lemma {:induction false} NoBlankLine(s: bytes)
    requires CrlfOnly(s) && Boundary(s).None?
    ensures forall k :: 0 < k < |SpecLines(s)| - 1 ==> SpecLines(s)[k] != []
    ensures s != [] && s[0] != LF && s[0] != CR && |SpecLines(s)| > 1 ==> SpecLines(s)[0] != []
    decreases |s|
  {
    hide Boundary, CrlfOnly;
    if s != [] {
      BoundaryMissing(s);
      var n := LineBreakLen(s).value;
      if n == 0 {
        CrlfDrop(s, 1);
        NoBlankLine(s[1..]);
        hide SpecLines;
        SpecLinesPlainFront(s);
      } else {
        CrlfDrop(s, n);
        BreakFront(s, n);
        hide SpecLines;
        NoBlankLine(s[n..]);
        NothingIsOneLine();
      }
    }
  }

  lemma NothingIsOneLine()
    ensures SpecLines([]) == [[]]
  {
  }

  // ----- the two readings of a stream

  /** A block and what follows its blank line are text. */
  lemma BoundaryUtf8(s: bytes)
    requires ValidUtf8(s) && Boundary(s).Some?
    ensures (var (a, e) := Boundary(s).value; ValidUtf8(s[..a]) && ValidUtf8(s[e..]))
  {
    hide ValidUtf8;
    BoundaryEnds(s);
    var (a, e) := Boundary(s).value;
    Utf8Halves(s, a);
    Utf8Halves(s, e - 1);
    hide Boundary;
    AsciiDrops(s[e - 1..]);
    assert s[e - 1..][1..] == s[e..];
  }

  lemma AsciiDrops(s: bytes)
    requires ValidUtf8(s) && s != [] && s[0] < 0x80
    ensures ValidUtf8(s[1..])
  {
  }

  /** A blank line begins and ends with a line break byte. */
  lemma {:induction false} BoundaryEnds(s: bytes)
    requires Boundary(s).Some?
    ensures (var (a, e) := Boundary(s).value; a < e <= |s| && s[a] < 0x80 && s[e - 1] < 0x80)
    decreases |s|
  {
    BoundaryFound(s);
    hide Boundary;
    var n := LineBreakLen(s).value;
    if n == 0 {
      BoundaryEnds(s[1..]);
    } else if LineBreakLen(s[n..]) == Some(0) {
      BoundaryEnds(s[n..]);
    } else {
      var m := LineBreakLen(s[n..]).value;
      assert s[n..][m - 1] == s[n + m - 1];
    }
  }

  lemma {:induction false} TypedAppend(a: seq<SseEvent>, b: seq<SseEvent>)
    ensures TypedEvents(a + b) == TypedEvents(a) + TypedEvents(b)
    ensures |TypedEvents(a)| == |a|
  {
    hide Typed;
    if a == [] {
      assert a + b == b;
    } else {
      TypedAppend(a[1..], b);
      var all := a + b;
      assert all[0] == a[0] && all[1..] == a[1..] + b;
      var x, y, z := [Typed(a[0])], TypedEvents(a[1..]), TypedEvents(b);
      assert TypedEvents(all) == x + (y + z);
      assert (x + y) + z == x + (y + z);
    }
  }

  lemma TypedOne(o: Option<SseEvent>)
    ensures TypedEvents(OptionSeq(o)) == TypedAll(o)
  {
    if o.Some? {
      assert [o.value][1..] == [];
    }
  }

  /** The format's events of a stream are those of its first block and of the rest. */
  lemma SpecAtBoundary(s: bytes)
    requires CrlfOnly(s) && Boundary(s).Some?
    ensures (var (a, e) := Boundary(s).value; SpecRun(s) == SpecEvents(s[..a]) + SpecRun(s[e..]))
  {
    hide Boundary, SpecLines, SpecRead, SpecReadFrom, SpecField, CrlfOnly, CutBlock;
    LinesAtBoundary(s);
    var (a, e) := Boundary(s).value;
    var ls, ms := SpecLines(s[..a]), SpecLines(s[e..]);
    var ended := ms[..|ms| - 1];
    assert EndedLines(s) == (ls + [[]]) + ended;
    SpecReadAppend(ls + [[]], ended);
    SpecReadSnoc(ls, []);
    ReadAfresh(SpecEvents(s[..a]), ended);
  }

  lemma SpecReadSnoc(ls: seq<bytes>, line: bytes)
    ensures SpecRead(ls + [line]) == SpecLine(SpecRead(ls), line)
  {
    hide SpecLine;
    assert (ls + [line])[..|ls|] == ls;
  }

  /** Where no block is complete the format dispatches nothing. */
  lemma SpecUnfinished(s: bytes)
    requires CrlfOnly(s) && Boundary(s).None? && ValidUtf8(s)
    ensures SpecRun(s) == []
  {
    hide Boundary, ValidUtf8, SpecLines;
    NoBlankLine(s);
    SpecLinesUtf8(s);
    LinesGathered(EndedLines(s));
  }

  /** One block: the parser emits what is dispatched, and besides that the event that only has a name. */
  lemma BlockEmits(block: bytes)
    requires CutBlock(block) && ValidUtf8(block) && CrlfOnly(block)
    ensures !EventOnly(block) ==> TypedAll(ReadBlock(block)) == SpecEvents(block)
    ensures EventOnly(block) ==> |TypedAll(ReadBlock(block))| == |SpecEvents(block)| + 1
    ensures |TypedAll(ReadBlock(block))| >= |SpecEvents(block)|
  {
    hide ValidUtf8, CutBlock, LoneCr, CrlfOnly;
    CrlfIsNotLone(block);
    EmitsWhatIsDispatchedIff(block);
    hide SpecLines, ReadBlock, EventOnly, SpecRead;
    if EventOnly(block) {
      NameAlone(block);
    }
  }

  /** A block that names an event without data is emitted, and not dispatched. */
  lemma NameAlone(block: bytes)
    requires CutBlock(block) && ValidUtf8(block) && !LoneCr(block) && EventOnly(block)
    ensures ReadBlock(block).Some? && SpecEvents(block) == []
  {
    hide ValidUtf8, SpecLines, LoneCr, CutBlock, Lines, SplitLf, NonEmpty, ReadLines, HasField, SpecRead;
    hide JoinLf, Terminated;
    var lines := SpecLines(block);
    LinesAreSpecLinesIff(block);
    OnlyFirstEmpty(block);
    SpecLinesUtf8(block);
    LinesGathered(lines);
    FieldsFound(lines);
    NothingTerminated();
    assert SpecRead(lines).buffers.data == [];
  }

  /** What the parser emits from a stream against the format's events, the mark taken as text. */
  lemma {:induction false} TextIsDispatchedIff(s: bytes)
    requires CrlfOnly(s) && ValidUtf8(s)
    ensures TypedEvents(Drain(s).0) == SpecRun(s) <==> !NamesOnly(s)
    ensures |Drain(s).0| >= |SpecRun(s)|
    ensures NamesOnly(s) ==> |Drain(s).0| > |SpecRun(s)|
    decreases |s|
  {
    hide ValidUtf8, CrlfOnly, Boundary, ReadBlock, EventOnly, SpecRun, SpecEvents, CutBlock;
    match Boundary(s)
    case None =>
      SpecUnfinished(s);
    case Some(b) =>
      var (a, e) := b;
      LinesAtBoundary(s);
      SpecAtBoundary(s);
      BoundaryUtf8(s);
      CrlfDrop(s, e);
      BlockEmits(s[..a]);
      TextIsDispatchedIff(s[e..]);
      var one := OptionSeq(ReadBlock(s[..a]));
      TypedOne(ReadBlock(s[..a]));
      TypedAppend(one, Drain(s[e..]).0);
      TypedAppend(Drain(s[e..]).0, []);
      Aligned(TypedEvents(one), TypedEvents(Drain(s[e..]).0), SpecEvents(s[..a]), SpecRun(s[e..]));
  }

  lemma Aligned<T>(a: seq<T>, c: seq<T>, b: seq<T>, d: seq<T>)
    ensures |a| == |b| ==> (a + c == b + d <==> a == b && c == d)
    ensures |c| == |d| ==> (a + c == b + d <==> a == b && c == d)
  {
    if a + c == b + d {
      if |a| == |b| || |c| == |d| {
        assert (a + c)[..|a|] == a && (b + d)[..|b|] == b && (a + c)[|a|..] == c && (b + d)[|b|..] == d;
      }
    }
  }

  // ----- the byte order mark

  /** The first line is one whose loss changes its block's event. */
  predicate FirstLineCounts(block: bytes) {
    var lines := SpecLines(block);
    SpecName(lines[0]) == DATA_FIELD
    || (SpecName(lines[0]) == EVENT_FIELD && SpecValue(lines[0]) != []
        && HasField(lines[1..], DATA_FIELD) && !HasField(lines[1..], EVENT_FIELD))
  }

  /** A marked stream whose first block counts on its first line. */
  predicate MarkHides(s: bytes) {
    MARK <= s && Boundary(s[3..]).Some? && FirstLineCounts(s[3..][..Boundary(s[3..]).value.0])
  }

  /** Fields add to what the buffers hold: data is appended, a type replaced if there is one. */
  lemma {:induction false} CarriesOn(b: Buffers, lines: seq<bytes>)
    requires forall k :: 0 <= k < |lines| ==> lines[k] != []
    ensures (var r := SpecReadFrom(Reading(b, []), lines);
             && r.events == [] && SpecRead(lines).events == []
             && r.buffers.data == b.data + SpecRead(lines).buffers.data
             && r.buffers.eventType == (if HasField(lines, EVENT_FIELD) then SpecRead(lines).buffers.eventType else b.eventType)
             && (SpecRead(lines).buffers.data != [] <==> HasField(lines, DATA_FIELD)))
  {
    hide HasField, SpecName, SpecValue;
    if lines == [] {
      NothingFound();
      assert b.data + [] == b.data;
    } else {
      var front, last := lines[..|lines| - 1], lines[|lines| - 1];
      CarriesOn(b, front);
      assert front + [last] == lines;
      HasFieldSnoc(front, last, DATA_FIELD);
      HasFieldSnoc(front, last, EVENT_FIELD);
      var d := SpecRead(front).buffers.data;
      assert b.data + (d + SpecValue(last) + [LF]) == (b.data + d) + SpecValue(last) + [LF];
    }
  }

  /** A line with the mark in front is no field that matters. */
  lemma MarkedLine(line: bytes)
    ensures SpecName(MARK + line) != DATA_FIELD && SpecName(MARK + line) != EVENT_FIELD
    ensures SpecLine(Reading(NO_BUFFERS, []), MARK + line) == Reading(NO_BUFFERS, [])
    ensures SpecName([]) == []
  {
    var t := MARK + line;
    assert t[1..][1..] == t[2..];
    assert ColonAt(t) >= 2;
    assert SpecName(t)[0] == 0xEF;
  }

  lemma SpecLinesMarked(t: bytes)
    ensures SpecLines(MARK + t) == [MARK + SpecLines(t)[0]] + SpecLines(t)[1..]
  {
    SpecLinesPlain(MARK, t);
  }

  lemma SpecReadFirst(first: bytes, rest: seq<bytes>)
    ensures SpecRead([first] + rest) == SpecReadFrom(SpecLine(Reading(NO_BUFFERS, []), first), rest)
  {
    hide SpecLine;
    SpecReadAppend([first], rest);
    assert [first][..0] == [];
    assert SpecRead([first]) == SpecLine(SpecRead([]), first);
  }

  /** The mark changes the event of a cut block exactly when the first line counts. */
  lemma MarkedBlock(block: bytes)
    requires CutBlock(block)
    ensures SpecEvents(MARK + block) == SpecEvents(block) <==> !FirstLineCounts(block)
    ensures |SpecEvents(block)| <= 1 && |SpecEvents(MARK + block)| <= 1
  {
    hide CutBlock, SpecRead, SpecReadFrom, HasField, SpecName, SpecValue, Dispatch;
    OnlyFirstEmpty(block);
    SpecLinesMarked(block);
    var lines := SpecLines(block);
    hide SpecLines;
    var first, rest := lines[0], lines[1..];
    assert lines == [first] + rest;
    SpecReadFirst(first, rest);
    SpecReadFirst(MARK + first, rest);
    MarkedLine(first);
    var b := SpecLine(Reading(NO_BUFFERS, []), first).buffers;
    FirstBuffers(first);
    CarriesOn(b, rest);
    CarriesOn(NO_BUFFERS, rest);
    var r := SpecRead(rest).buffers;
    assert [] + r.data == r.data;
    DispatchesApart(b, r, HasField(rest, EVENT_FIELD));
    var with := Dispatch(Buffers(if HasField(rest, EVENT_FIELD) then r.eventType else b.eventType, b.data + r.data));
    var without := Dispatch(Buffers(if HasField(rest, EVENT_FIELD) then r.eventType else [], r.data));
    assert [] + with == with && [] + without == without;
    assert SpecEvents(block) == with;
    SpecEventsMarked(block, first, rest);
    assert SpecEvents(MARK + block) == without;
  }

  lemma SpecEventsMarked(block: bytes, first: bytes, rest: seq<bytes>)
    requires SpecLines(block) == [first] + rest
    ensures SpecLines(MARK + block) == [MARK + first] + rest
  {
    hide SpecLines;
    SpecLinesMarked(block);
    assert ([first] + rest)[0] == first && ([first] + rest)[1..] == rest;
  }

  lemma FirstBuffers(first: bytes)
    ensures (var r := SpecLine(Reading(NO_BUFFERS, []), first);
             && r.events == []
             && r.buffers.data == (if SpecName(first) == DATA_FIELD then SpecValue(first) + [LF] else [])
             && r.buffers.eventType == (if SpecName(first) == EVENT_FIELD then SpecValue(first) else []))
  {
    hide SpecValue;
    EmptyHasNoName();
    assert [] + SpecValue(first) + [LF] == SpecValue(first) + [LF];
  }

  /** Two dispatches, of which one has `b` in front. */
  lemma DispatchesApart(b: Buffers, r: Buffers, named: bool)
    ensures (var with := Dispatch(Buffers(if named then r.eventType else b.eventType, b.data + r.data));
             var without := Dispatch(Buffers(if named then r.eventType else [], r.data));
             && |with| <= 1 && |without| <= 1
             && (with == without <==> b.data == [] && (r.data == [] || named || b.eventType == [])))
  {
    hide Dispatch;
    assert [] + r.data == r.data && b.data + [] == b.data;
    DispatchCases(b.eventType, b.data);
    DispatchCases(r.eventType, b.data);
    DispatchCases([], r.data);
    DispatchCases(r.eventType, r.data);
    if r.data != [] && b.data != [] {
      DispatchesMore(if named then r.eventType else b.eventType, if named then r.eventType else [], b.data, r.data);
    } else if r.data != [] {
      DispatchCases(b.eventType, r.data);
    }
  }

  lemma DispatchCases(name: bytes, data: bytes)
    ensures (var es := Dispatch(Buffers(name, data));
             && (es == [] <==> data == []) && |es| <= 1
             && (es != [] ==> (es[0].event == None <==> name == []) && |data| - 1 <= |es[0].data| <= |data|))
  {
  }

  lemma DispatchesMore(x: bytes, y: bytes, b: bytes, d: bytes)
    requires b != [] && d != []
    ensures |Dispatch(Buffers(x, b + d))| == 1 == |Dispatch(Buffers(y, d))|
    ensures Dispatch(Buffers(x, b + d)) != Dispatch(Buffers(y, d))
  {
    var all := b + d;
    assert all[|all| - 1] == d[|d| - 1];
    assert |Dispatch(Buffers(x, all))[0].data| == |Dispatch(Buffers(y, d))[0].data| + |b|;
  }

  /** The mark in front of a stream: its first block is read with it, and the rest as it is. */
  lemma MarkedStream(t: bytes)
    requires CrlfOnly(t) && ValidUtf8(t)
    ensures CrlfOnly(MARK + t) && ValidUtf8(MARK + t)
    ensures Boundary(t).None? ==> SpecRun(MARK + t) == SpecRun(t)
    ensures Boundary(t).Some? ==>
              (SpecRun(MARK + t) == SpecRun(t) <==> !FirstLineCounts(t[..Boundary(t).value.0]))
  {
    hide ValidUtf8, CrlfOnly, SpecRun, FirstLineCounts, SpecEvents, CutBlock, Boundary;
    MarkIsText(t);
    BoundaryPlain(MARK, t);
    if Boundary(t).None? {
      SpecUnfinished(MARK + t);
      SpecUnfinished(t);
    } else {
      MarkedAtBoundary(t);
    }
  }

  lemma MarkedAtBoundary(t: bytes)
    requires CrlfOnly(t) && CrlfOnly(MARK + t) && Boundary(t).Some? && Boundary(MARK + t) == Shift(3, Boundary(t))
    ensures SpecRun(MARK + t) == SpecRun(t) <==> !FirstLineCounts(t[..Boundary(t).value.0])
  {
    hide CrlfOnly, SpecRun, FirstLineCounts, SpecEvents, CutBlock, Boundary;
    var (a, e) := Boundary(t).value;
    SpecAtBoundary(MARK + t);
    SpecAtBoundary(t);
    LinesAtBoundary(t);
    MarkedHalves(t, a, e);
    MarkedBlock(t[..a]);
    Aligned(SpecEvents(MARK + t[..a]), SpecRun(t[e..]), SpecEvents(t[..a]), SpecRun(t[e..]));
  }

  lemma MarkedHalves(t: bytes, a: nat, e: nat)
    requires a <= e <= |t|
    ensures (MARK + t)[..3 + a] == MARK + t[..a] && (MARK + t)[3 + e..] == t[e..]
  {
  }

  lemma MarkIsText(t: bytes)
    requires CrlfOnly(t) && ValidUtf8(t)
    ensures CrlfOnly(MARK + t) && ValidUtf8(MARK + t)
  {
    var s := MARK + t;
    assert Utf8Lead(s) == 3 && s[3..] == t;
    forall i | 0 <= i < |s| && s[i] == CR
      ensures i + 1 < |s| && s[i + 1] == LF
    {
      assert t[i - 3] == CR;
    }
  }

  /**
   For any stream of UTF-8 text in which every CR is half of a CRLF, however it is cut into chunks. Without
   a byte order mark the parser's events, an empty type read as none, are those the format dispatches exactly
   when no block names an event without giving it data. Where no block does, they are so exactly unless a
   mark stands before a first line that counts: the format takes the mark off, the parser does not.
   */
  lemma StreamIsDispatchedIff(s: bytes, chunks: seq<bytes>)
    requires CrlfOnly(s) && ValidUtf8(s) && Concat(chunks) == s
    ensures !(MARK <= s) ==> (TypedEvents(PushAll([], chunks).0) == SpecStream(s) <==> !NamesOnly(s))
    ensures !NamesOnly(s) ==> (TypedEvents(PushAll([], chunks).0) == SpecStream(s) <==> !MarkHides(s))
  {
    hide ValidUtf8, CrlfOnly, Drain, SpecRun, NamesOnly, FirstLineCounts, PushAll;
    DrainEmpty();
    CutsDoNotMatter([], chunks);
    assert [] + s == s;
    TextIsDispatchedIff(s);
    if MARK <= s {
      var t := s[3..];
      assert s == MARK + t;
      MarkTaken(t);
      MarkedStream(t);
    }
  }

  lemma MarkTaken(t: bytes)
    requires CrlfOnly(MARK + t) && ValidUtf8(MARK + t)
    ensures CrlfOnly(t) && ValidUtf8(t)
  {
    var s := MARK + t;
    assert s[3..] == t && Utf8Lead(s) == 3;
    CrlfDrop(s, 3);
  }

  /** A mark before one line of data: the format dispatches it, the parser emits nothing. */
  lemma MarkedData(data: bytes)
    requires OneLine(data) && ValidUtf8(data)
    ensures (var t := FieldLine(DATA_FIELD, data) + [LF, LF];
             && MarkHides(MARK + t) && Drain(MARK + t).0 == [] && SpecStream(MARK + t) == [SseEvent(None, data)])
  {
    hide ValidUtf8, CrlfOnly, Drain, Boundary, FirstLineCounts, SpecRun, NamesOnly, ReadBlock;
    var d := FieldLine(DATA_FIELD, data);
    var t := d + [LF, LF];
    DataLine(data);
    DataStream(data);
    TextIsDispatchedIff(t);
    var e := SseEvent(None, data);
    assert [e][1..] == [] && TypedEvents([e]) == [Typed(e)] + TypedEvents([e][1..]) == [e];
    assert (MARK + t)[3..] == t;
    MarkedIsIgnored(data);
    DrainsTo(MARK + d);
    assert MARK + t == (MARK + d) + ([LF, LF] + []);
  }

  lemma DataLine(data: bytes)
    requires OneLine(data)
    ensures (var d := FieldLine(DATA_FIELD, data);
             && OneLine(d) && SpecLines(d) == [d] && SpecName(d) == DATA_FIELD && FirstLineCounts(d) && !EventOnly(d))
  {
    var d := FieldLine(DATA_FIELD, data);
    SameField(d);
    FieldExact(DATA_FIELD, data);
    OneSpecLine(d);
  }

  lemma DataStream(data: bytes)
    requires OneLine(data) && ValidUtf8(data)
    ensures (var d := FieldLine(DATA_FIELD, data);
             var t := d + [LF, LF];
             && CrlfOnly(t) && ValidUtf8(t) && Boundary(t) == Some((|d|, |d| + 2)) && !NamesOnly(t)
             && Drain(t) == ([SseEvent(None, data)], []))
  {
    hide ValidUtf8, Boundary, EventOnly, Drain, Framable, FormatEvent;
    var d := FieldLine(DATA_FIELD, data);
    var t := d + [LF, LF];
    DataLine(data);
    DataDrains(data);
    OneLineFrames(d);
    AsciiIsUtf8(DATA_FIELD + [COLON, SPACE]);
    ValidUtf8Append(DATA_FIELD + [COLON, SPACE], data);
    AsciiIsUtf8([LF, LF]);
    ValidUtf8Append(d, [LF, LF]);
    BoundaryPlain(d, [LF, LF]);
    BoundaryBreak([]);
    assert [LF, LF] + [] == [LF, LF];
    assert t[..|d|] == d && t[|d| + 2..] == [];
    BoundaryEmpty();
    assert !NamesOnly([]);
  }

  lemma DataDrains(data: bytes)
    requires OneLine(data) && ValidUtf8(data)
    ensures Drain(FieldLine(DATA_FIELD, data) + [LF, LF]) == ([SseEvent(None, data)], [])
  {
    hide ValidUtf8, Framable, Drain;
    var e := SseEvent(None, data);
    OneLineFrames(data);
    DrainFrame(e, []);
    DrainEmpty();
    assert FormatEvent(e) + [] == FieldLine(DATA_FIELD, data) + [LF, LF];
    assert [e] + [] == [e];
  }

  lemma MarkedIsIgnored(data: bytes)
    requires OneLine(data) && ValidUtf8(data)
    ensures OneLine(MARK + FieldLine(DATA_FIELD, data)) && ReadBlock(MARK + FieldLine(DATA_FIELD, data)) == None
  {
    hide ValidUtf8, SplitLf, Lines, Field;
    var x := MARK + FieldLine(DATA_FIELD, data);
    var field := MARK + DATA_FIELD;
    assert x == FieldLine(field, data);
    FieldExact(field, data);
    assert field[0] == 0xEF && field != DATA_FIELD && field != EVENT_FIELD;
    SplitLfPlain(x);
    LinesPlain(x, []);
    LinesEmpty();
    assert [x] + [] == [x] && [x][..0] == [];
    assert ReadLines(Fields(None, []), [x]) == ReadLine(ReadLines(Fields(None, []), [x][..0]), x);
  }

  /** One line that says nothing drains to nothing. */
  lemma DrainsTo(x: bytes)
    requires OneLine(x) && ReadBlock(x) == None
    ensures Drain(x + ([LF, LF] + [])).0 == []
  {
    hide Boundary, ReadBlock;
    var t := x + ([LF, LF] + []);
    BoundaryPlain(x, [LF, LF] + []);
    BoundaryBreak([]);
    assert t[..|x|] == x && t[|x| + 2..] == [];
    DrainEmpty();
    var none: seq<SseEvent> := [];
    assert OptionSeq(ReadBlock(x)) + none == none;
  }
}
