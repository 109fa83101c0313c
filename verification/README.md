# rapid-router: the hard parts, modelled and proved

rapid-router is an LLM gateway. Most of it is plumbing; the parts its guarantees rest on are small stateful
algorithms. This project models those parts in Dafny and proves what they are for.

| files | what they model |
|---|---|
| `Wrappers`, `Bytes`, `JsonStrings`, `JsonMeaning`, `JsonGrammar` | optional values; byte strings and UTF-8; JSON string escapes and what they stand for; RFC 8259 as derivation trees |
| `JsonScan`, `JsonProbe`, `JsonAgreement`, `JsonSplice`, `JsonRename` | the lazy probe and the splice of `json.rs`, against that grammar |
| `JsonParse`, `JsonReading` | a full JSON reader and writer, the partner the translators need |
| `SseShared`, `Sse`, `SseFrames`, `SseDispatch`, `SseStream` | the incremental SSE parser and its printer; the format's own reading of a block and of a whole stream |
| `EventStream`, `EventFrames` | the binary event-stream decoder and its encoder, and the grammar of its frames |
| `OpenAiChunks` | the chunk every dialect is translated through |
| `Anthropic`, `AnthropicRoundTrip`, `AnthropicContiguity`, `AnthropicSync` | both Anthropic stream translators and the sync one |
| `Responses`, `ResponseIds`, `Gemini`, `GeminiChunks`, `Ascending` | the Responses and Gemini stream translators; the order of a B-tree map's keys |
| `Saturating`, `TokenBucket`, `Breaker`, `Spend` and `TokenBucketRaces`, `BreakerRaces`, `BreakerOpenings` | lock-free admission state, one caller at a time and under every interleaving |
| `Router`, `KeySelection`, `Fairness`, `Seeding` | choosing a provider key, the diagnoses beside it, how it divides work, and where a new key starts |
| `Calendar`, `Timestamps`, `TimestampForms` | Gregorian dates, RFC 3339 stamps and which texts pass for one, budget periods |
| `Float64`, `PercentileRank`, `Histogram`, `HistogramAccuracy` | the rounding of 64-bit floats, the rank computed in them, latency percentiles and how exact they are |

How the models are made. What the source updates in place is a class (or, for the key pool, a record in a
sequence the class updates); each method is proved equal to a function on values, and the theorems are about
those functions. Loops in the source are loops here. What the source does with atomics appears twice: as a
class, which is what a lone caller sees, and as a transition system in which every thread has a program
counter and its captured locals, each step is one atomic operation, and a weak exchange may fail for no
reason. `AloneIsSequential` joins the two: a call nobody disturbs does what the class does.

Where a stated property turned out not to hold on every input, the exact boundary is proved instead:

- A tool call whose whole argument text is a number of several digits can leave the Gemini translator early
  with a shorter number; every other JSON text leaves whole (`Gemini.AlwaysWholeIff`, `JsonReading.NoEarlyValue`).
  A call no beginning of whose arguments is JSON, the blank arguments of a tool without input among them, never
  leaves at all (`Gemini.NeverLeavesIff`, `Gemini.BlankNeverLeaves`).
- A byte that follows an impossible length in an event stream makes the result depend on the cuts; nothing
  else does (`EventStream.CutsDoNotMatterIff`).
- A lone CR ends an SSE event's last line but is not a line ending inside it (`Sse.LinesAreSpecLinesIff`); an event
  that has a name and no data is emitted here and dropped by the format, and a byte order mark the format takes off
  stays on here and hides the first line (`SseDispatch.EmitsWhatIsDispatchedIff`, `SseStream.StreamIsDispatchedIff`,
  `SseStream.MarkedData`).
- The SSE writer splits no lines: an event survives being written and read exactly when its name and its data have no
  LF, no two CR together and no CR at the end (`SseFrames.FramesRoundTripIff`).
- An event over 16 MiB is encoded without complaint and lost by the decoder, with the rest of its chunk; an event
  type of 65536 bytes or more has its length cut to 16 bits and is lost or misread. Every other event comes back
  (`EventStream.EventsRoundTripIff`, `EventStream.OversizeIsLost`, `EventStream.LongTypeIsLost`).
- What is taken from a rate limiter while its state is being cloned can be granted a second time by the copy
  (`TokenBucketRaces.CopyHolds`, `TokenBucketRaces.GrantedTwice`).
- A debit for an older period than one already charged wipes the newer period's spend (`Spend.AlwaysExactIff`).
- With an emulated JSON schema, fragments streamed for a block of an unknown kind reach a streaming client as
  content and a sync client not at all, and a schema block without fragments is no text to the one and `{}` to the
  other (`AnthropicSync.ContentAgreesIff`, `AnthropicSync.StrayFragments`, `AnthropicSync.SilentSchemaBlock`).
- A fragment that arrives when its tool's item or block is not the open one breaks the translated stream, and
  nothing else does (`Responses.ClientFollowsIff`, `AnthropicContiguity.TranslationReadsIff`).
- A call index that is opened twice gives two output items of one id (`ResponseIds.DistinctIdsIff`).
- A success recorded in full between a failure's count and its trip does not keep the breaker closed. An opening still
  implies that as many different calls as the threshold had counted on each other up to some count of the tripping
  call's own (`BreakerOpenings.OpeningImplies`, `BreakerOpenings.OpensAfterSuccess`).
- The comment in crates/router-core/src/router.rs:364-370 promises a new key a normal share from its first request.
  The key starts at the least lease count whatever its weight; a key of weight 10 that joins keys of weight 1 with 1000
  leases each takes the next 9000 dispatches (`Seeding.NewKeyTakesIff`, `Seeding.SeedIsLevelIff`, `Seeding.TenfoldKey`).
- The timestamp parser lets day 31 through in every month (`Calendar.DateRoundTripIff`). It is documented as strict
  (crates/router-core/src/vkey.rs:396) and also takes signs, any number of digits, second 60 and anything behind the
  third character of a fraction (`TimestampForms.AcceptedIff`, `TimestampForms.LenientTexts`).
- The percentile's rank is computed in 64-bit floats. It is the nearest rank or, where the product is rounded up past
  a whole number, the next: at p = 7 over the readings 1 to 100 it is 8 and 10 is reported. The console's p = 50 and
  p = 95 are never rounded up (`PercentileRank.RankIs`, `HistogramAccuracy.OneToAHundred`, `Histogram.ConsolePercentiles`).
- A latency above 2^24 ms is reported too low, and only such a one (`Histogram.BucketAccuracy`).
- The comment on the histogram's step (crates/router-server/src/histogram.rs:20-24) promises every percentile within
  19% of the truth. The code rounds a bucket's bound up to a whole millisecond and so breaks that promise for the
  readings 1, 2, 3, 4, 5, 8, 10, 16, 32, 64, 128, 256, 305 and 609 (1 is reported as 2), and for readings so far
  above 2^24 ms that the top bucket is more than 19% too low; for every other reading, from 0 on, it keeps it
  (`HistogramAccuracy.Within19Iff`, `HistogramAccuracy.PercentileWithin19Iff`).

The comment on the breaker's failure count calls it approximate under races. For a call that runs alone, a
spurious failure of its exchange already recounts the failure, and `BreakerRaces.SameAnswers` shows that nothing
can ever tell.

## Model

| member | source | states |
|---|---|---|
| JsonStrings.UnescapeEscape | crates/router-core/src/json.rs:97-104 | undoing the escapes of a written model name gives the name back, for every byte string, and what is written is always a legal string body |
| JsonStrings.DecodeEscape | crates/router-core/src/json.rs:83-92 | every Rust string survives being written as a JSON string token and read back |
| JsonStrings.UnescapedIsBody | crates/router-core/src/json.rs:87 | only a legal string body is ever read as a model name |
| JsonProbe.Scanner.ReadString | crates/router-core/src/json.rs:146-161 | the escape-aware search finds the token the specification finds and leaves the cursor just past it |
| JsonProbe.Scanner.SkipNested | crates/router-core/src/json.rs:186-204 | the depth-counting loop consumes exactly what its recursive specification does, or fails with it |
| JsonMeaning.DecodeStringIff | crates/router-core/src/json.rs:87 | a string body is read as a text if and only if it spells characters (themselves, one of the eight short escapes, four hex digits, or a surrogate pair of those) whose scalar values are the ones the text encodes; anything else is not read |
| JsonMeaning.StringBodyIff | crates/router-core/src/json.rs:146-161 | the legal string bodies are those made of plain bytes, the eight short escapes and four-digit escapes |
| JsonMeaning.Utf8Iff | crates/router-core/src/json.rs:87 | a byte string passes for UTF-8 if and only if it decodes to scalar values bit by bit |
| JsonProbe.ProbeBody | crates/router-core/src/json.rs:27-93 | the scanning loop computes the probe that the theorems below are about, and the model it answers is what the bytes at its span say |
| JsonProbe.SpliceModel | crates/router-core/src/json.rs:97-104 | only the span is replaced: every byte before it and after it is unchanged |
| JsonAgreement.SkipValueExact | crates/router-core/src/json.rs:164-204 | on any valid JSON value, with anything after it, skipping consumes that value's text and nothing else, at any nesting depth |
| JsonAgreement.SkipBegins | crates/router-core/src/json.rs:164-204 | on any bytes, what is skipped as a value is not empty and begins as a JSON value does |
| JsonAgreement.ProbeExact | crates/router-core/src/json.rs:27-93 | on every valid JSON text the probe answers if and only if it is an object with unescaped keys, string models and literal streams whose last model decodes; it then reports the text of that model's scalar values, the span of that very member's value, and the last stream |
| JsonSplice.ProbeSplice | crates/router-core/src/json.rs:27-104 | for every body the probe accepts and every model name, probing the spliced body finds that name, at the same start, with the same stream |
| JsonRename.SpliceRenames | crates/router-core/src/json.rs:97-104 | splicing a model name into a valid document where the probe says spells a valid document, the same one but for the value of its last model member |
| JsonParse.ParseTreeText | crates/router-providers/src/gemini.rs:735-739 | the reader accepts every derivation of the grammar, whatever follows it |
| JsonReading.ParseDocumentIff | crates/router-providers/src/gemini.rs:735-739 | the reader accepts exactly the grammar: a text has one derivation or none |
| JsonReading.ParseIff | crates/router-providers/src/gemini.rs:735-739 | a text has a value if and only if some derivation of the grammar with that value spells it |
| JsonReading.ParsePrint | crates/router-providers/src/anthropic.rs:339-340 | the compact text of a value reads back as that value |
| JsonReading.NoEarlyValue | crates/router-providers/src/gemini.rs:735-739 | every complete prefix of a JSON text has the value of the whole if and only if the text is not a number of several digits |
| Sse.FindEventBoundary | crates/router-core/src/sse.rs:89-114 | the scan finds the first blank line, or waits when a last CR cannot be classified |
| Sse.ReadEvent | crates/router-core/src/sse.rs:56-77 | the line loop reads the event the specification reads from a block |
| Sse.SseParser.Push | crates/router-core/src/sse.rs:30-39 | events returned and bytes kept are what draining the old buffer and the chunk gives |
| Sse.SseParser.NextEvent | crates/router-core/src/sse.rs:45-82 | one event is taken and the buffer shrinks, or nothing more can be |
| Sse.CutsDoNotMatter | crates/router-core/src/sse.rs:30-82 | for every cutting of the bytes into chunks, the events and the remainder are those of the bytes in one piece |
| SseFrames.FramesRoundTripIff | crates/router-core/src/sse.rs:138-143 | formatted events, under any chunking, parse back to exactly those events with nothing pending if and only if no name and no data has an LF, two CR together or a CR at its end |
| SseFrames.InnerCr | crates/router-core/src/sse.rs:138-143 | data with a CR inside survives and data with a CR at its end does not |
| Sse.LinesAreSpecLinesIff | crates/router-core/src/sse.rs:130-135 | the lines read inside an event are those of WHATWG HTML section 9.2.6 if and only if no CR stands alone |
| SseDispatch.EmitsWhatIsDispatchedIff | crates/router-core/src/sse.rs:45-78 | from any one block of text (a byte order mark in front already taken off) cut off at a blank line, of UTF-8 without a lone CR, the parser emits exactly what WHATWG HTML section 9.2.6 dispatches (an empty type read as none) if and only if the block does not name an event without giving it data |
| SseDispatch.NamedWithoutData | crates/router-core/src/sse.rs:69-78 | every block that is one `event` line is emitted with empty data and dispatched by the standard as nothing |
| SseStream.StreamIsDispatchedIff | crates/router-core/src/sse.rs:30-82 | for a whole stream of UTF-8 text whose every CR is half of a CRLF, under any chunking: without a byte order mark the parser's events are those of WHATWG HTML sections 9.2.5 and 9.2.6 if and only if no block names an event without data; without such a block they are if and only if no mark stands before a first line that counts |
| SseStream.MarkedData | crates/router-core/src/sse.rs:45-78 | a byte order mark before one data line: the standard dispatches the data and the parser emits nothing |
| EventStream.EventStreamParser.Push | crates/router-core/src/eventstream.rs:31-52 | events returned and bytes kept are what draining the old buffer and the chunk gives, on any bytes |
| EventFrames.FrameYieldsIff | crates/router-core/src/eventstream.rs:59-113 | a delimited frame yields an event if and only if some headers and a payload spell it, lengths and both checksums included; the event is then `exception` if the last `:message-type` says so and the last `:event-type` otherwise, with the payload as text |
| EventFrames.ExceptionSurfaces | crates/router-core/src/eventstream.rs:102-106 | a frame whose last `:message-type` is `exception` surfaces as the event `exception`, whatever its other headers |
| EventFrames.EncodedIsFrame | crates/router-core/src/eventstream.rs:116-140 | the encoder writes the frame of the three headers `:event-type`, `:message-type` event and `:content-type` application/json |
| EventStream.DecodeFrameBytes | crates/router-core/src/eventstream.rs:59-113 | the header cursor reads what the recursive specification reads, in bounds on every frame |
| EventStream.EncodeEventBytes | crates/router-core/src/eventstream.rs:116-140 | the buffer built by appending is the specified frame for every type and payload, lengths cast to 16 and 32 bits as the source casts them |
| EventStream.FrameRoundTripIff | crates/router-core/src/eventstream.rs:59-140 | in a frame of at most 16 MiB an encoded event decodes to its type and its payload (as the decoder reads text) if and only if the type is under 65536 bytes, for every checksum function |
| EventStream.LongTypeIsLost | crates/router-core/src/eventstream.rs:125-128 | an event whose type is 65536 letters decodes to nothing |
| EventStream.OversizeIsLost | crates/router-core/src/eventstream.rs:39-43 | an event whose frame is over 16 MiB and under 4 GiB clears the decoder, and everything after it in the chunk is lost |
| EventStream.FramesDecode | crates/router-core/src/eventstream.rs:31-52 | however a stream of delimited frames is cut, each frame yields its own event or none, in order, nothing left |
| EventStream.CutsDoNotMatterIff | crates/router-core/src/eventstream.rs:31-52 | the result is independent of the cuts if and only if no byte follows an impossible length at a frame boundary |
| EventStream.ThirteenZeros | crates/router-core/src/eventstream.rs:35-43 | thirteen zero bytes leave nothing behind in one piece, and one byte when cut before the last |
| EventStream.CorruptionIsLocal | crates/router-core/src/eventstream.rs:31-113 | corrupting a frame anywhere but its length word, under any chunking, changes that frame's event and no other, and drops it when either checksum is not that of the bytes before it |
| EventStream.EventsRoundTripIff | crates/router-core/src/eventstream.rs:31-140 | encoded events come back from every chunking, in order with nothing left over, if and only if every type is under 65536 bytes and every frame at most 16 MiB |
| EventStream.TextIsReceived | crates/router-core/src/eventstream.rs:31-140 | what comes back of UTF-8 payloads is the payloads |
| Anthropic.StreamToOpenAi.OnEvent | crates/router-providers/src/anthropic.rs:409-497 | the method's new state and chunks are those of the function the theorems are about |
| Anthropic.OpenAiToAnthropicStream.OnChunk | crates/router-providers/src/anthropic.rs:824-901 | likewise for the way back, call by call within a chunk |
| Anthropic.OpenAiToAnthropicStream.Finish | crates/router-providers/src/anthropic.rs:905-926 | the open block is closed, then the stop reason and the tokens are sent, then the message ends |
| AnthropicRoundTrip.Trip | crates/router-providers/src/anthropic.rs:409-935 | after every event, the client of the translated stream has the normal form of what the client of the original has |
| AnthropicRoundTrip.RoundTrip | crates/router-providers/src/anthropic.rs:409-935 | any complete sequential stream, translated to chunks and back, is a complete sequential stream of the same message in normal form, same stop reason among the three, same output tokens |
| AnthropicRoundTrip.NormalKeeps | crates/router-providers/src/anthropic.rs:845-892 | the normal form has the same whole text and the same tool blocks in order, no empty text and no two texts in a row, and a normal message is its own normal form |
| AnthropicContiguity.TranslationReadsIff | crates/router-providers/src/anthropic.rs:824-935 | for any chunks at all, the translated stream reads as a complete message if and only if there was a chunk and each fragment came while its call's block was open; it then has exactly the blocks the chunks describe, the first chunk's name and model, the last usage's completion tokens, and the stop reason of the last finish reason |
| AnthropicContiguity.LateFragment | crates/router-providers/src/anthropic.rs:882-891 | a call, then text, then a fragment of the call, whatever they say, is such a stream that does not read |
| AnthropicSync.MessageIsTold | crates/router-providers/src/anthropic.rs:409-497 | every chunk of a complete message carries its name and model, the first is empty text, the finish reason is tool_calls or length exactly for tool_use or max_tokens without emulation and stop otherwise, the usage is its tokens and their sum |
| AnthropicSync.ResponseToOpenAi | crates/router-providers/src/anthropic.rs:331-378 | the loop builds the completion the theorems below compare with |
| AnthropicSync.StreamAgreesWithSync | crates/router-providers/src/anthropic.rs:331-497 | a client assembling the chunks of a streamed message has the sync completion's calls (arguments as JSON values, none as the empty object), finish reason, usage and, without emulation, text, which is null exactly when there are calls and no text |
| AnthropicSync.ContentAgreesIff | crates/router-providers/src/anthropic.rs:331-497 | both texts, block by block, agree up to how a JSON value is written if and only if no emulated stream carried fragments for a block of an unknown kind or a schema block without fragments |
| AnthropicSync.StrayFragments | crates/router-providers/src/anthropic.rs:460-481 | a message of one block of an unknown kind: under emulation its fragments are the streamed text and the completion's text is empty |
| AnthropicSync.SilentSchemaBlock | crates/router-providers/src/anthropic.rs:338-341 | a schema block without fragments, under emulation: the streamed text is empty and the completion's text is `{}` |
| Responses.ChunksToResponses.OnChunk | crates/router-providers/src/responses.rs:406-498 | frames are the specified events numbered on from the old sequence number, which moves by their count |
| Responses.ChunksToResponses.Finish | crates/router-providers/src/responses.rs:500-517 | the open item is closed and the completed response listed, numbered on |
| Responses.ChunksToResponses.CloseOpenItem | crates/router-providers/src/responses.rs:519-563 | the done events of the open item and the item itself are appended, the output index moves by one |
| Responses.Numbered | crates/router-providers/src/responses.rs:565-570 | on every run the events are numbered 0, 1, 2 and on, and the output index is the number of completed items |
| Responses.CompletedListsWhatWasSaid | crates/router-providers/src/responses.rs:406-563 | on every run the completed response lists exactly the items an independent reading of the chunks gives, texts and arguments concatenated |
| Responses.ClientFollowsIff | crates/router-providers/src/responses.rs:406-570 | a client checking every event (items never overlap, done equals the concatenated deltas, completed equals the done items) reaches the end if and only if there was a chunk and every fragment came while its call's item was open; it then has the items, the last usage, and status incomplete exactly when the last finish reason was length |
| Responses.SameEnvelope | crates/router-providers/src/responses.rs:406-517 | the created and the completed response carry one id and one model, those of the first chunk |
| Responses.LateFragment | crates/router-providers/src/responses.rs:473-483 | a call, then text, then a fragment of the call, whatever they say, loses the client |
| ResponseIds.DistinctIdsIff | crates/router-providers/src/responses.rs:406-563 | the items of a completed response have different ids if and only if no call index was opened twice; a client that also refuses an id it has heard reaches the end if and only if that holds too |
| ResponseIds.OpenedTwice | crates/router-providers/src/responses.rs:456-471 | one index opened by two chunks gives two items of one id, in time for the plain client |
| Gemini.OpenAiToGeminiStream.OnChunk | crates/router-providers/src/gemini.rs:675-723 | the method's new state and chunk are those of the functions the theorems are about |
| Gemini.OpenAiToGeminiStream.FlushCompleteCalls | crates/router-providers/src/gemini.rs:726-746 | one pass over the pending calls in index order sends each complete one not sent before |
| GeminiChunks.StreamIsTold | crates/router-providers/src/gemini.rs:675-746 | over a whole stream: the text told is the text streamed; the calls told are those that left, in order, each chunk's by index and behind its text; a chunk is silent if and only if it has no text, completes no call and does not finish; length is MAX_TOKENS, content_filter SAFETY, any other finish STOP; usage comes with a finish only |
| Gemini.FlushAt | crates/router-providers/src/gemini.rs:726-746 | a pass sends a call at most once and marks exactly what it sends |
| Gemini.LeavesOnceWhole | crates/router-providers/src/gemini.rs:675-746 | however its fragments are cut and interleaved with other calls, a named call whose arguments are complete JSON but no several-digit number leaves exactly once with the whole value |
| Gemini.AlwaysWholeIff | crates/router-providers/src/gemini.rs:675-746 | an argument text leaves whole under every delivery if and only if it is not a number of several digits |
| Gemini.AlwaysLeavesIff | crates/router-providers/src/gemini.rs:675-746 | a named call leaves under every delivery of its arguments if and only if their whole text is complete JSON |
| Gemini.NeverLeavesIff | crates/router-providers/src/gemini.rs:675-746 | it leaves under no delivery if and only if no beginning of that text is complete JSON |
| Gemini.BlankNeverLeaves | crates/router-providers/src/gemini.rs:731-739 | a call with blank arguments never leaves |
| TokenBucket.LimiterBucket.Refill | crates/router-core/src/token_bucket.rs:56-85 | elapsed time is credited once, up to the capacity |
| TokenBucket.CreditFits | crates/router-core/src/token_bucket.rs:68-71 | where capacity + rate * now fits 64 bits, so do the credit and its sum with the balance, so neither the saturation nor an overflow is ever reached |
| TokenBucket.LimiterBucket.TryConsume | crates/router-core/src/token_bucket.rs:34-52 | the answer and the new balance are the specification's |
| TokenBucket.LimiterBucket.DebitSaturating | crates/router-core/src/token_bucket.rs:90-109 | the balance is drained by the debit and stops at zero |
| TokenBucket.DebitIsFelt | crates/router-core/src/token_bucket.rs:90-109 | right after a debit of d tokens a request of n is granted if and only if the balance held (n + d) * 1000 millitokens |
| TokenBucket.LimiterBucket.CloneState | crates/router-core/src/token_bucket.rs:114-121 | the copy is a new bucket in the same state |
| TokenBucket.WindowBound | crates/router-core/src/token_bucket.rs:34-109 | any run of calls timed within [s, t], in any clock order and after any history, is granted at most capacity + rate * (t - s) |
| TokenBucket.WindowBoundReached | crates/router-core/src/token_bucket.rs:34-85 | that bound is attained |
| TokenBucket.PollsDoNotMatter | crates/router-core/src/router.rs:202-215 | with a clock that never goes back, zero-cost polls anywhere in a run change no other call's answer |
| TokenBucket.PollTells | crates/router-core/src/router.rs:265-272 | a poll shows a whole token exactly when a one-token request would be granted |
| TokenBucketRaces.EverySchedule | crates/router-core/src/token_bucket.rs:34-109 | on every schedule of any number of threads, consumed + drained + spilled + available + claimed but not yet added is exactly capacity + rate * last refill |
| TokenBucketRaces.AnyTwoMoments | crates/router-core/src/token_bucket.rs:34-109 | between any two moments of any schedule no more is consumed than was there or claimed, and what accrued meanwhile |
| TokenBucketRaces.StepIsExact | crates/router-core/src/token_bucket.rs:34-109 | credit is lost only to a full bucket; the step that ends a call takes a thousand millitokens a token: a grant from a balance that had it, a debit as much of it as was there, and a refusal found less |
| TokenBucketRaces.SpuriousIsHarmless | crates/router-core/src/token_bucket.rs:42-109 | an exchange that fails for no reason moves no credit |
| TokenBucketRaces.CopyHolds | crates/router-core/src/token_bucket.rs:114-121 | a copy taken between any two moments of any schedule is never overfull nor above capacity + rate * its refill time less what had gone out; it holds again exactly what went out or was claimed between its two reads and lacks what accrued between them |
| TokenBucketRaces.GrantedTwice | crates/router-core/src/token_bucket.rs:114-121 | a whole bucket taken between the two reads is spent in the original and granted again by the copy |
| TokenBucketRaces.AloneIsSequential | crates/router-core/src/token_bucket.rs:34-109 | an undisturbed call, whatever spurious failures it meets, answers as the sequential bucket does, within six operations when none fails |
| Spend.SpendState.Add | crates/router-core/src/vkey.rs:193-215 | the shared word after a debit is the specification's |
| Spend.SpendState.Spent | crates/router-core/src/vkey.rs:217-224 | the spend read for a period is the one held for it, or zero for another period |
| Spend.RolloverLosesNothing | crates/router-core/src/vkey.rs:192-224 | debits committed in period order within 2^24 ordinals: the latest period reads as the sum of its own, capped at 2^40 - 1 |
| Spend.AlwaysExactIff | crates/router-core/src/vkey.rs:193-215 | the latest period is exact after every debit if and only if no debit is for an older period than one already charged |
| Spend.LateOverwrites | crates/router-core/src/vkey.rs:198-203 | such a late debit leaves the latest period reading zero |
| Spend.CommitsOnce | crates/router-core/src/vkey.rs:193-215 | a step that ends a call commits that call's debit once; no other step changes the word |
| Spend.AloneCommits | crates/router-core/src/vkey.rs:193-215 | a debit nobody disturbs is charged with its second operation, and with its third if its exchange fails once for no reason |
| Spend.EverySchedule | crates/router-core/src/vkey.rs:192-224 | on every schedule the word is the replay of the commits, so the two statements above hold of every interleaving |
| Breaker.PackIff | crates/router-core/src/breaker.rs:20-27 | the word gives back the state always, and the stamp if and only if it is below 2^62 |
| Breaker.KeyBreaker.Ask | crates/router-core/src/breaker.rs:141-182 | the answer and the new words are the specification's, an elapsed bench cleared |
| Breaker.KeyBreaker.Succeed | crates/router-core/src/breaker.rs:184-191 | closed, count zero, no bench |
| Breaker.KeyBreaker.Fail | crates/router-core/src/breaker.rs:193-247 | the count, the window and the word after a failure are the specification's |
| Breaker.KeyBreaker.BenchTo | crates/router-core/src/breaker.rs:110-112 | the deadline only moves later |
| Breaker.BenchHolds | crates/router-core/src/breaker.rs:110-150 | until its deadline a bench refuses everyone, whatever is asked, fails or is benched for longer or shorter meanwhile, as long as nothing succeeds |
| Breaker.BenchEnds | crates/router-core/src/breaker.rs:110-157 | a closed key is refused before the latest deadline it was given and admitted from that deadline on |
| Breaker.SuccessRecovers | crates/router-core/src/breaker.rs:184-191 | after a success the key looks healthy at every time and the next failure counts as the first |
| Breaker.HealthyIsYes | crates/router-core/src/breaker.rs:91-101 | a key looks healthy exactly when admission would say yes, and being asked keeps it healthy |
| Breaker.OpensOnlyOnAStreak | crates/router-core/src/breaker.rs:193-247 | with a clock that never goes back, a closed breaker opens only at the last of T failures that no success separates, all within the window |
| Breaker.TwiceTheThresholdOpens | crates/router-core/src/breaker.rs:220-234 | after any history, 2T - 1 failures within one window's length and no success among them leave it not closed |
| Breaker.OneFewerMayNot | crates/router-core/src/breaker.rs:220-234 | 2T - 2 failures within a millisecond can leave it closed, so the factor of two is exact |
| BreakerRaces.ProbesAreApart | crates/router-core/src/breaker.rs:141-247 | on every schedule whose stamps lag the clock by at most d, any two probes are granted at least cooldown - d apart |
| BreakerRaces.SpacingIsReached | crates/router-core/src/breaker.rs:141-182 | a schedule whose probes are exactly cooldown - d apart |
| BreakerRaces.AloneIsSequential | crates/router-core/src/breaker.rs:141-247 | an undisturbed call does what the sequential breaker does, up to how often an opened breaker counted |
| BreakerRaces.SameAnswers | crates/router-core/src/breaker.rs:218-243 | that difference in the count never changes an answer, now or after any event |
| BreakerOpenings.OpeningImplies | crates/router-core/src/breaker.rs:193-247 | on every schedule, a call that opens a closed breaker had itself counted, and of the failures counted on each other up to that count the first T were by T different calls |
| BreakerOpenings.OpensAfterSuccess | crates/router-core/src/breaker.rs:184-247 | a schedule on which a success is recorded in full between a call's count and its trip, the breaker looks as new, and the trip still opens it |
| KeySelection.ProviderRuntime.TryAdmitRequest | crates/router-core/src/router.rs:202-215 | granted exactly when both ceilings have a token; one request is spent and the token ceiling only credited, and a refusal spends nothing |
| KeySelection.ProviderRuntime.AdmitNow | crates/router-core/src/router.rs:237-243 | granted exactly when the key has headroom; a slot reserved for a refused request is returned |
| KeySelection.ProviderRuntime.HasHeadroom | crates/router-core/src/router.rs:260-274 | the look tells what an admission would do, and spends nothing |
| KeySelection.ProviderRuntime.BalancedPick | crates/router-core/src/router.rs:1020-1043 | the key picked has the least share of the candidates, whichever of those that tie |
| KeySelection.ProviderRuntime.AdmitFor | crates/router-core/src/router.rs:736-842 | the answer, the chosen key and what becomes of every key: the chosen key is labelled for the caller and serves the model; only it spends a request or holds a slot, a probe spends no rate, the session's own seat comes first, otherwise the least share of those that could serve |
| KeySelection.AnswerMeans | crates/router-core/src/router.rs:636-842 | the chosen key is labelled for the caller where the pool has labels and has the model in its list if it has one; the answer is yes if and only if some such key looks healthy and has a slot, a request and a token left; it costs that key one slot, one request and one dispatch, and no other key anything; a probe costs no rate and leaves its key half open from now |
| KeySelection.ChoiceIsRight | crates/router-core/src/router.rs:775-838 | a session returns to the healthy candidate that scores highest for it while that one has headroom; without a session the answer has the least dispatches per weight of those that could serve, and a probe the least of those due with a slot free |
| KeySelection.UnlabelledIsShared | crates/router-core/src/router.rs:656-663 | in a pool without labels the candidates do not depend on who asks |
| KeySelection.DiagnosesMean | crates/router-core/src/router.rs:869-896 | both diagnoses in terms of the caller's own keys: all of them, at least one, are on a bench still running; all healthy ones, at least one, lack a slot, a request or a token |
| KeySelection.ProviderRuntime.AllKeysBenched | crates/router-core/src/router.rs:869-879 | true exactly when there are keys for the caller and every one is on a bench that still runs |
| KeySelection.ProviderRuntime.AllKeysAtCeiling | crates/router-core/src/router.rs:889-896 | true exactly when some key for the caller is healthy and no healthy one has headroom; nothing is spent by asking |
| KeySelection.AnswersAgree | crates/router-core/src/router.rs:736-896 | yes if and only if some eligible owned key looks healthy and has headroom; a probe if and only if none does but one is due with a slot; all benched means nobody; nobody with a healthy key means all at a ceiling |
| KeySelection.LostProbe | crates/router-core/src/router.rs:811-838 | the breaker word of a key not chosen changes exactly when its breaker was asked and its probe was due; its slots were then full; the keys asked are those before the chosen one by share, all of them when nobody is chosen, none when a healthy key serves |
| Router.IdleKeepsHeadroom | crates/router-core/src/router.rs:260-274 | crediting time at one instant changes no key's headroom at that instant |
| Router.OthersStayPinned | crates/router-core/src/router.rs:977-981 | a seat that leaves moves only the sessions that were on it |
| Fairness.ChoiceDispatches | crates/router-core/src/router.rs:794-805 | when every key can serve and no session pins, a choice is a dispatch to the key furthest behind |
| Fairness.LevelledIsFair | crates/router-core/src/router.rs:1020-1043 | from a cold pool, after n dispatches and under any tie-breaking, each key has fewer than n * weight / total + 1, for any positive weights |
| Fairness.WholeRoundsAreExact | crates/router-core/src/router.rs:961-963 | with integer weights summing to W, after m * W dispatches each key has exactly m times its weight |
| Seeding.FreshPoolIsCold | crates/router-core/src/router.rs:371-409 | the keys of a provider that had none all start at 0 |
| Seeding.NewKeyTakesIff | crates/router-core/src/router.rs:364-411 | a key added by a reload starts at the least lease count and takes each of the next n dispatches, however ties break, if and only if that count and n - 1 more, per weight, stay under every other key's share |
| Seeding.SeedIsLevelIff | crates/router-core/src/router.rs:364-376 | among keys of one weight the new key's share is the least one if and only if it has that weight or the least count is 0, and is below it if and only if it weighs more and the count is not 0 |
| Seeding.TenfoldKey | crates/router-core/src/router.rs:364-376 | a key of weight 10 joining keys of weight 1 with 1000 leases each takes exactly the next 9000 dispatches for certain |
| Calendar.TwoCivilsAgree | crates/router-core/src/vkey.rs:447-458 | the truncating conversion here and the Euclidean one of `credential.rs` agree on every day |
| Calendar.DayRoundTrip | crates/router-core/src/vkey.rs:437-458 | every day converts to a date of the calendar and back |
| Calendar.DateRoundTripIff | crates/router-core/src/vkey.rs:399-445 | a date the parser lets through survives the conversions if and only if it is a date of the Gregorian calendar |
| Calendar.ConsecutiveDays | crates/router-core/src/vkey.rs:447-458 | day 0 is 1970-01-01 and each next day is the next date |
| Timestamps.TimestampRoundTrip | crates/router-core/src/credential.rs:407-421 | every millisecond printed there is parsed back exactly by `vkey.rs` |
| TimestampForms.PrintedIsStandard | crates/router-core/src/credential.rs:407-421 | what is printed is an RFC 3339 date-time of 24 characters, to the millisecond, until the year 10000 |
| TimestampForms.AcceptedIff | crates/router-core/src/vkey.rs:399-434 | a text is read as some milliseconds if and only if it is three numbers joined by dashes, a T, three numbers joined by colons, a fraction or none, and Z, each number unsigned or with a plus and in its range, the year from 1970 on, and the fraction's first three characters digits; the value is what these say |
| TimestampForms.Rfc3339Iff | crates/router-core/src/vkey.rs:396-434 | a UTC date-time of RFC 3339 section 5.6 is accepted if and only if its year is 1970 or later, and read as its calendar day and its clock to the millisecond |
| TimestampForms.LenientTexts | crates/router-core/src/vkey.rs:396-434 | three texts the standard does not allow are read as the standard one they resemble |
| Timestamps.MonthlySteps | crates/router-core/src/vkey.rs:384-396 | from one millisecond to the next the monthly ordinal steps by one at midnight on day 1 of a month and is otherwise constant, from 1970 * 12 on |
| Timestamps.DailyAndWeeklySteps | crates/router-core/src/vkey.rs:384-391 | the daily and the weekly ordinal start at 0 and step by one at each midnight and at each seventh |
| Timestamps.OrdinalMonotone | crates/router-core/src/vkey.rs:384-396 | no budget period's ordinal ever goes back as time goes on |
| Histogram.LatencyHistogram.Record | crates/router-server/src/histogram.rs:52-54 | one more reading in its bucket |
| Histogram.LatencyHistogram.Merge | crates/router-server/src/histogram.rs:56-60 | every bucket holds the sum of both, and the other histogram is left alone |
| PercentileRank.RankIs | crates/router-server/src/histogram.rs:77 | the rank computed in 64-bit floats is the nearest rank, or the next if and only if the product is rounded up past a whole number, while 3 * p * n < 2^53 |
| PercentileRank.NeverRoundedUp | crates/router-server/src/histogram.rs:77 | it is the nearest rank for every percentage whose quotient by 100 is not rounded up |
| PercentileRank.SevenOfAHundred | crates/router-server/src/histogram.rs:77 | at p = 7 and 100 readings the rank is 8 where the nearest rank is 7 |
| Histogram.LatencyHistogram.ReadPercentile | crates/router-server/src/histogram.rs:72-93 | the walk stops at the bucket that holds the rank computed in floats |
| Histogram.Collect | crates/router-server/src/histogram.rs:95-103 | collecting values records each of them |
| Histogram.EmptyPercentile | crates/router-server/src/histogram.rs:72-76 | nothing recorded reads as zero |
| Histogram.BucketAccuracy | crates/router-server/src/histogram.rs:109-123 | a bucket's bound is at least the reading if and only if the reading is at most 2^24 ms, and one less than it is within a fourth of an octave |
| HistogramAccuracy.Within19Iff | crates/router-server/src/histogram.rs:20-24 | a reading is reported within 19% of itself if and only if it is none of fourteen small ones and 81% of it is at most 2^24 ms |
| HistogramAccuracy.OneReadsAsTwo | crates/router-server/src/histogram.rs:109-123 | a reading of 1 is reported as 2 |
| HistogramAccuracy.PercentileWithin19Iff | crates/router-server/src/histogram.rs:72-93 | the same condition, on the reading at the computed rank, for every percentile of any readings |
| HistogramAccuracy.ConsoleWithin19Iff | crates/router-server/src/usage.rs:2258-2263 | for p = 50 and p = 95, the same condition on the exact nearest-rank reading |
| HistogramAccuracy.OneToAHundred | crates/router-server/src/histogram.rs:72-93 | the seventh percentile of 1 to 100 is reported as 10, which is not within 19% of 7 |
| Histogram.AnyPartition | crates/router-server/src/histogram.rs:56-60 | merging the histograms of any partition, in any order, is the histogram of recording everything |
| Histogram.PercentileIsTaken | crates/router-server/src/histogram.rs:72-93 | a percentile is the upper bound of the bucket of the reading at the computed rank, for any readings and any p (past the last, the slowest reading) |
| Histogram.PercentileIsNearestRank | crates/router-server/src/histogram.rs:72-93 | that is the exact nearest-rank reading, or the next one where the float product is rounded up past a whole number, while 3 * p * n < 2^53 |
| Histogram.ConsolePercentiles | crates/router-server/src/usage.rs:2258-2263 | for p = 50 and p = 95 it is the exact nearest-rank reading |
| Histogram.PercentileAccuracy | crates/router-server/src/histogram.rs:72-123 | the percentile reported is at least the reading at the computed rank if and only if that is at most 2^24 ms, and (reported - 1)^4 < 2 * reading^4 |

## Left out

- JSON depth and numbers: the reader stands for serde_json without its limit of 128 levels, without rounding numbers (they keep their spelling) and without merging repeated keys or sorting them.
- Event envelopes: the translators are modelled on parsed events and chunks; an event whose data is not JSON, or whose kind nobody handles, is `OtherEvent`. Fields no translator reads (`role`, `object`, `created`, `stop_sequence`) are not carried.
- The request builders and the sync translations of the other dialects: value-to-value mappings, easy beside these.
- The Bedrock, Gemini and mock translators to OpenAI chunks: the same pattern as the Anthropic one with less state.
- Checksums, hashes and lossy UTF-8 are parameters: `EventStream.Codec` holds an arbitrary checksum and a decoder that leaves UTF-8 alone, and a session's rendezvous score is any function of the seat's name.
- Memory order: every atomic operation is one sequentially consistent step. That a call eventually ends under contention is not claimed.
- Overflow: bucket credit is assumed to fit 64 bits (`Fits`), as the source's unchecked sum does; breaker stamps below 2^62; the failure count, sequence numbers and lease counts do not wrap.
- Key selection: weights are positive, as configuration validates; the pool is one instant of one caller. A key's breaker and buckets are values inside its record, so a breaker shared between two tables is not modelled; a dropped permit is `ReleaseSlot`; the random draw among ties is any choice.
- Real numbers: a key's share is an exact quotient and the histogram's logarithms and roots are exact fourth powers, where the source uses 64-bit floats. The rank of a percentile is computed with the floats' rounding (round to nearest, ties to even; nothing there under- or overflows).
- Histogram.PercentileIsNearestRank: is for 3 * p * n < 2^53, as RankIs is; beyond that the float product can be off by more than one rank, and `Histogram.PercentileIsTaken` is what holds.
- Timestamps.TimestampRoundTrip: is about readings up to 2^64 - 1; day numbers that leave 64 bits when a huge year is parsed are not modelled.
- SseStream.StreamIsDispatchedIff: is for text whose every CR is half of a CRLF, and says nothing of a stream that both begins with a byte order mark and names an event without data; such a stream can agree by coincidence. A CR that stands alone is the subject of `Sse.LinesAreSpecLinesIff`.
- EventStream.EventsRoundTripIff: is for frames under 4 GiB, whose length fits the word it is written in.
- Reloads: `Seeding` carries lease counts only; buckets, slots, quotas and checks are kept by name in the same way.
- BreakerOpenings.OpeningImplies: does not bound the time between the counted failures; the window's part of `Breaker.OpensOnlyOnAStreak` is for one caller at a time.
- A text block's initial text: `content_block_start` of a text block may carry some, which the translator drops, so `TextStart` carries none.
- Consoles, servers, storage, configuration, quota headers, signatures and credential encryption: input and output, or calls into code not seen here.
