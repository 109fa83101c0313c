/** What a Gemini client is told by a whole stream of `OpenAiToGeminiStream`: text, calls, finish and usage. */
module GeminiChunks {
  import opened Wrappers
  import opened Bytes
  import opened OpenAiChunks
  import opened Gemini
  import Ascending

  /** The answers to the chunks of a stream, from a fresh translator. */
  function Answers(chunks: seq<Chunk>): (r: seq<Option<GeminiChunk>>)
    ensures |r| == |chunks|
  {
    if chunks == [] then []
    else
      var front, last := chunks[..|chunks| - 1], chunks[|chunks| - 1];
      Answers(front) + [Translated(last, AsParts(Step(Run(CallsIn(front)).0, last.calls).1))]
  }

  function CallsIn(chunks: seq<Chunk>): (r: seq<seq<CallDelta>>)
    ensures |r| == |chunks|
  {
    seq(|chunks|, k requires 0 <= k < |chunks| => chunks[k].calls)
  }

  // ----- what was streamed, and what a client is told

  /** All the text of a stream. */
  function Contents(chunks: seq<Chunk>): bytes {
    if chunks == [] then []
    else Contents(chunks[..|chunks| - 1]) + chunks[|chunks| - 1].content.GetOr([])
  }

  function PartsTold(answers: seq<Option<GeminiChunk>>): seq<Part> {
    if answers == [] then []
    else
      PartsTold(answers[..|answers| - 1])
      + match answers[|answers| - 1] case None => [] case Some(a) => a.parts
  }

  function TextTold(parts: seq<Part>): bytes {
    if parts == [] then []
    else TextTold(parts[..|parts| - 1]) + match parts[|parts| - 1] case TextPart(t) => t case FunctionCall(_, _) => []
  }

  function CallsTold(parts: seq<Part>): seq<Part> {
    if parts == [] then []
    else CallsTold(parts[..|parts| - 1]) + if parts[|parts| - 1].FunctionCall? then [parts[|parts| - 1]] else []
  }

  /** The part says which call left and with what. */
  predicate TellsOf(part: Part, e: Emission) {
    part == FunctionCall(e.name, e.args)
  }

  /** The calls that the chunk at `k` completes. */
  function Completed(chunks: seq<Chunk>, k: nat): seq<Emission>
    requires k < |chunks|
  {
    Step(Run(CallsIn(chunks[..k])).0, chunks[k].calls).1
  }

  // ----- parts joined

  lemma {:induction false} TextAppend(a: seq<Part>, b: seq<Part>)
    ensures TextTold(a + b) == TextTold(a) + TextTold(b)
  {
    if b == [] {
      assert a + b == a;
    } else {
      TextAppend(a, b[..|b| - 1]);
      assert (a + b)[..|a + b| - 1] == a + b[..|b| - 1];
    }
  }

  lemma {:induction false} CallsAppend(a: seq<Part>, b: seq<Part>)
    ensures CallsTold(a + b) == CallsTold(a) + CallsTold(b)
  {
    if b == [] {
      assert a + b == a;
    } else {
      CallsAppend(a, b[..|b| - 1]);
      assert (a + b)[..|a + b| - 1] == a + b[..|b| - 1];
    }
  }

  lemma ToldAppend(a: seq<Part>, b: seq<Part>)
    ensures TextTold(a + b) == TextTold(a) + TextTold(b)
    ensures CallsTold(a + b) == CallsTold(a) + CallsTold(b)
  {
    TextAppend(a, b);
    CallsAppend(a, b);
  }

  lemma {:induction false} CallPartsTell(es: seq<Emission>)
    ensures |AsParts(es)| == |es| && (forall k :: 0 <= k < |es| ==> TellsOf(AsParts(es)[k], es[k]))
    ensures TextTold(AsParts(es)) == [] && CallsTold(AsParts(es)) == AsParts(es)
  {
    if es == [] {
      NothingTold();
    } else {
      var front, last := es[..|es| - 1], es[|es| - 1];
      CallPartsTell(front);
      var part := FunctionCall(last.name, last.args);
      assert front + [last] == es;
      AsPartsSnoc(front, last);
      ToldAppend(AsParts(front), [part]);
      hide AsParts;
      OneCallTells(part);
    }
  }

  lemma OneCallTells(part: Part)
    requires part.FunctionCall?
    ensures TextTold([part]) == [] && CallsTold([part]) == [part]
  {
    assert [part][..0] == [];
  }

  lemma TextPartTells(content: Option<bytes>)
    ensures (var text := if content.Some? && content.value != [] then [TextPart(content.value)] else [];
             TextTold(text) == content.GetOr([]) && CallsTold(text) == [])
  {
    if content.Some? && content.value != [] {
      assert [TextPart(content.value)][..0] == [];
      assert TextTold([TextPart(content.value)]) == [] + content.value;
    }
  }

  // ----- one answer

  /** Silent exactly when there is nothing to say; text first, then the calls completed, then how it ended. */
  ghost predicate AnswersRightly(chunk: Chunk, completed: seq<Emission>, answer: Option<GeminiChunk>) {
    && (answer.None? <==> chunk.content.GetOr([]) == [] && completed == [] && chunk.finish.None?)
    && (answer.Some? ==>
          (var a := answer.value;
           var n := if chunk.content.GetOr([]) == [] then 0 else 1;
           && a.model == chunk.model
           && |a.parts| == n + |completed|
           && (n == 1 ==> a.parts[0] == TextPart(chunk.content.value))
           && (forall k :: 0 <= k < |completed| ==> TellsOf(a.parts[n + k], completed[k]))
           && (a.finish.None? <==> chunk.finish.None?)
           && (chunk.finish == Some(Length) <==> a.finish == Some(MaxTokens))
           && (chunk.finish == Some(ContentFilter) <==> a.finish == Some(Safety))
           && (chunk.finish.None? ==> a.usage.None?)
           && (chunk.finish.Some? ==> a.usage == chunk.usage)))
  }

  lemma TranslatedAnswers(chunk: Chunk, completed: seq<Emission>)
    ensures AnswersRightly(chunk, completed, Translated(chunk, AsParts(completed)))
  {
    hide AsParts, TellsOf, Translated;
    CallPartsTell(completed);
    var parts := AsParts(completed);
    TranslatedIs(chunk, parts);
    if chunk.content.GetOr([]) != [] {
      var text := TextPart(chunk.content.value);
      assert forall k :: 0 <= k < |parts| ==> ([text] + parts)[1 + k] == parts[k];
    }
  }

  lemma TranslatedIs(chunk: Chunk, calls: seq<Part>)
    ensures (var answer := Translated(chunk, calls);
             && (answer.None? <==> chunk.content.GetOr([]) == [] && calls == [] && chunk.finish.None?)
             && (answer.Some? ==>
                   (var a := answer.value;
                    && a.model == chunk.model
                    && a.parts == (if chunk.content.GetOr([]) == [] then calls else [TextPart(chunk.content.value)] + calls)
                    && (a.finish.None? <==> chunk.finish.None?)
                    && (chunk.finish == Some(Length) <==> a.finish == Some(MaxTokens))
                    && (chunk.finish == Some(ContentFilter) <==> a.finish == Some(Safety))
                    && (chunk.finish.None? ==> a.usage.None?)
                    && (chunk.finish.Some? ==> a.usage == chunk.usage))))
  {
    assert [] + calls == calls;
  }

  lemma TranslatedTells(chunk: Chunk, completed: seq<Emission>)
    ensures (var parts := match Translated(chunk, AsParts(completed)) case None => [] case Some(a) => a.parts;
             TextTold(parts) == chunk.content.GetOr([]) && CallsTold(parts) == AsParts(completed))
  {
    hide AsParts, TextTold, CallsTold;
    CallPartsTell(completed);
    TextPartTells(chunk.content);
    var text := if chunk.content.Some? && chunk.content.value != [] then [TextPart(chunk.content.value)] else [];
    ToldAppend(text, AsParts(completed));
    assert [] + AsParts(completed) == AsParts(completed);
    assert TextTold(text) + [] == TextTold(text);
  }

  // ----- whole runs

  lemma {:induction false} RunTold(chunks: seq<Chunk>)
    ensures TextTold(PartsTold(Answers(chunks))) == Contents(chunks)
    ensures CallsTold(PartsTold(Answers(chunks))) == AsParts(Run(CallsIn(chunks)).1)
  {
    hide Translated, AsParts, Step;
    if chunks == [] {
      NothingTold();
    } else {
      var front, last := chunks[..|chunks| - 1], chunks[|chunks| - 1];
      RunTold(front);
      var completed := Step(Run(CallsIn(front)).0, last.calls).1;
      var answer := Translated(last, AsParts(completed));
      TranslatedTells(last, completed);
      assert Answers(chunks)[..|chunks| - 1] == Answers(front);
      var parts := match answer case None => [] case Some(a) => a.parts;
      ToldAppend(PartsTold(Answers(front)), parts);
      assert CallsIn(chunks)[..|chunks| - 1] == CallsIn(front);
      AsPartsAppend(Run(CallsIn(front)).1, completed);
    }
  }

  lemma NothingTold()
    ensures TextTold([]) == [] && CallsTold([]) == [] && AsParts([]) == [] && Run([]).1 == [] && CallsIn([]) == []
  {
  }

  lemma {:induction false} AsPartsAppend(a: seq<Emission>, b: seq<Emission>)
    ensures AsParts(a + b) == AsParts(a) + AsParts(b)
  {
    if b == [] {
      assert a + b == a;
    } else {
      AsPartsAppend(a, b[..|b| - 1]);
      assert (a + b)[..|a + b| - 1] == a + b[..|b| - 1];
    }
  }

  lemma {:induction false} EachAnswers(chunks: seq<Chunk>, k: nat)
    requires k < |chunks|
    ensures AnswersRightly(chunks[k], Completed(chunks, k), Answers(chunks)[k])
  {
    hide Translated, AsParts, Step, AnswersRightly;
    var front := chunks[..|chunks| - 1];
    if k == |chunks| - 1 {
      TranslatedAnswers(chunks[k], Completed(chunks, k));
    } else {
      EachAnswers(front, k);
      assert front[..k] == chunks[..k];
    }
  }

  /** The calls one chunk completes are told in the order of their indices. */
  lemma {:induction false} FlushAscends(p: map<nat, Pending>, emitted: set<nat>, order: seq<nat>)
    requires forall a, b :: 0 <= a < b < |order| ==> order[a] < order[b]
    ensures (var out := Flush(p, emitted, order).0;
             && (forall a, b :: 0 <= a < b < |out| ==> out[a].index < out[b].index)
             && (forall a :: 0 <= a < |out| ==> order != [] && out[a].index <= order[|order| - 1]))
  {
    if order == [] {
      FlushNone(p, emitted);
    } else {
      hide EmitIfReady, Flush;
      var front, last := order[..|order| - 1], order[|order| - 1];
      FlushAscends(p, emitted, front);
      FlushSnoc(p, emitted, order);
      EmitShape(p, emitted, Flush(p, emitted, front).1, last);
    }
  }

  /**
   A whole stream: the text told is the text streamed, the calls told are those that left, in the order they
   left and each chunk's by index, and every chunk is answered as it asks.
   */
  lemma StreamIsTold(chunks: seq<Chunk>)
    ensures (var parts := PartsTold(Answers(chunks));
             var left := Run(CallsIn(chunks)).1;
             && TextTold(parts) == Contents(chunks)
             && |CallsTold(parts)| == |left|
             && (forall k :: 0 <= k < |left| ==> TellsOf(CallsTold(parts)[k], left[k])))
    ensures forall k :: 0 <= k < |chunks| ==> AnswersRightly(chunks[k], Completed(chunks, k), Answers(chunks)[k])
    ensures forall k, a, b :: 0 <= k < |chunks| && 0 <= a < b < |Completed(chunks, k)| ==>
              Completed(chunks, k)[a].index < Completed(chunks, k)[b].index
  {
    hide AnswersRightly, Answers, PartsTold, TextTold, CallsTold, Completed, AsParts, Run;
    RunTold(chunks);
    CallPartsTell(Run(CallsIn(chunks)).1);
    forall k | 0 <= k < |chunks|
      ensures AnswersRightly(chunks[k], Completed(chunks, k), Answers(chunks)[k])
      ensures forall a, b :: 0 <= a < b < |Completed(chunks, k)| ==>
                Completed(chunks, k)[a].index < Completed(chunks, k)[b].index
    {
      EachAnswers(chunks, k);
      CompletedAscends(chunks, k);
    }
  }

  lemma CompletedAscends(chunks: seq<Chunk>, k: nat)
    requires k < |chunks|
    ensures forall a, b :: 0 <= a < b < |Completed(chunks, k)| ==>
              Completed(chunks, k)[a].index < Completed(chunks, k)[b].index
  {
    hide Flush, Absorb, Run;
    var st := Run(CallsIn(chunks[..k])).0;
    var p := Absorb(st.pending, chunks[k].calls);
    FlushAscends(p, st.emitted, Ascending.Order(p.Keys));
    assert Completed(chunks, k) == Flush(p, st.emitted, Ascending.Order(p.Keys)).0;
  }
}
