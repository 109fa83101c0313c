/** What both wire framings share: the event type they decode to, and chunks of a stream. */
module SseShared {
  import opened Wrappers
  import opened Bytes

  datatype SseEvent = SseEvent(event: Option<bytes>, data: bytes)

  function OptionSeq<T>(o: Option<T>): seq<T> {
    match o
    case Some(x) => [x]
    case None => []
  }

  function Concat(chunks: seq<bytes>): bytes {
    if chunks == [] then [] else chunks[0] + Concat(chunks[1..])
  }
}
