/** The chunk of an OpenAI-shaped stream, the form every dialect is translated through. */
module OpenAiChunks {
  import opened Wrappers
  import opened Bytes

  /** One entry of a chunk's `tool_calls`; an absent index reads as 0. */
  datatype CallDelta = CallDelta(index: Option<nat>, id: Option<bytes>, name: Option<bytes>, arguments: Option<bytes>)

  datatype Finish = Stop | Length | ToolCalls | ContentFilter | OtherFinish(reason: bytes)

  datatype Usage = Usage(prompt: nat, completion: nat, total: nat)

  datatype Chunk = Chunk(id: Option<bytes>, model: Option<bytes>, content: Option<bytes>, calls: seq<CallDelta>,
                         finish: Option<Finish>, usage: Option<Usage>)

  function IndexOf(c: CallDelta): nat {
    c.index.GetOr(0)
  }

  /** The last finish reason and the last usage that chunks gave. */
  function LastFinish(chunks: seq<Chunk>): Option<Finish> {
    if chunks == [] then None
    else if chunks[|chunks| - 1].finish.Some? then chunks[|chunks| - 1].finish
    else LastFinish(chunks[..|chunks| - 1])
  }

  function LastUsage(chunks: seq<Chunk>): Option<Usage> {
    if chunks == [] then None
    else if chunks[|chunks| - 1].usage.Some? then chunks[|chunks| - 1].usage
    else LastUsage(chunks[..|chunks| - 1])
  }
}
