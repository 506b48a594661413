/** What the two frame loops (`connect` in src/polymarket/websocket.rs and
    `main` in src/main.rs) read and what they hand to the worker pool. */
module Frames {
  import opened ByteStrings

  /** A WebSocket frame as `read_frame` yields it, or the read error that
      makes `connect` return. */
  datatype Frame = Text(payload: Bytes) | Close | OtherOpcode | ReadFailure

  /** How the frame loop ends: on a Close frame, on a read error, on a
      panic in `strip_array_wrapper`, or not yet (the frames ran out). */
  datatype Stop = Closed | ReadFailed | StripPanicked | StillOpen

  /** One job given to the pool: its sequence number and its bytes. */
  datatype Task = Task(seqNo: nat, data: Bytes)

  /** The bytes of each task. */
  function Datas(tasks: seq<Task>): (r: seq<Bytes>)
    ensures |r| == |tasks| && forall j :: 0 <= j < |tasks| ==> r[j] == tasks[j].data
  {
    seq(|tasks|, j requires 0 <= j < |tasks| => tasks[j].data)
  }
}
