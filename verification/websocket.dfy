/** The order-book feed of src/polymarket/websocket.rs: which frames are
    dropped, how the rest are unwrapped and numbered, how a worker turns one
    into a book, and what the consumer then emits.

    The TLS/WebSocket connection, the worker pool and the channel are not
    modelled: frames are a sequence given in advance, and the channel's
    delivery order is an arbitrary permutation (see `Resequencing`). */
module BookFeed {
  import opened Wrappers
  import opened ByteStrings
  import opened Orderbooks
  import opened Resequencing
  import opened Frames

  const OPEN_BRACKET: Byte := 91   // '['
  const CLOSE_BRACKET: Byte := 93  // ']'
  const PREVIEW_LIMIT: nat := 500

  /** The `ORDERBOOK` marker: `event_type":"book"`. */
  function BookMarker(): (m: Bytes)
    ensures |m| == 18
  {
    Ascii("event_type\":\"book\"")
  }

  /** `is_book_message`: a frame that does not open with '[' and carries
      the book marker somewhere. Such frames are skipped. */
  function IsBookMessage(raw: Bytes): (r: bool)
    ensures r <==> (|raw| == 0 || raw[0] != OPEN_BRACKET) && Contains(raw, BookMarker())
    ensures |raw| > 0 && raw[0] == OPEN_BRACKET ==> !r
  {
    (|raw| == 0 || raw[0] != OPEN_BRACKET) && AnyWindow(raw, BookMarker())
  }

  /** `iter().rposition(|&b| b == x)`: the last index holding `x`. */
  function LastIndexOf(raw: Bytes, x: Byte): (r: Option<nat>)
    ensures r.None? <==> x !in raw
    ensures r.Some? ==> r.value < |raw| && raw[r.value] == x && x !in raw[r.value + 1..]
  {
    if raw == [] then None
    else if raw[|raw| - 1] == x then Some(|raw| - 1)
    else
      var r := LastIndexOf(raw[..|raw| - 1], x);
      assert raw == raw[..|raw| - 1] + [raw[|raw| - 1]];
      if r.Some? then
        assert raw[r.value + 1..] == raw[..|raw| - 1][r.value + 1..] + [raw[|raw| - 1]];
        r
      else r
  }

  /** The slice `raw[1..end]` in `strip_array_wrapper` is in bounds: the
      frame is not empty and its last ']' (if any) is not its first byte. */
  predicate StripDefined(raw: Bytes) {
    |raw| > 0 && LastIndexOf(raw, CLOSE_BRACKET) != Some(0)
  }

  /** `strip_array_wrapper`: drop the first byte, whatever it is, and cut at
      the last ']' if there is one. */
  function StripArrayWrapper(raw: Bytes): (r: Bytes)
    requires StripDefined(raw)
    ensures CLOSE_BRACKET !in raw ==> r == raw[1..]
    ensures CLOSE_BRACKET in raw ==>
              |r| + 1 < |raw| && r == raw[1..|r| + 1] && raw[|r| + 1] == CLOSE_BRACKET &&
              CLOSE_BRACKET !in raw[|r| + 2..]
  {
    match LastIndexOf(raw, CLOSE_BRACKET)
    case None => raw[1..]
    case Some(end) => raw[1..end]
  }

  /** A frame of the form `x inner ] trailer`, with no ']' in the trailer,
      is cut down to `inner`: the opening byte is not checked, and `inner`
      may hold ']' of its own. */
  lemma StripUnwraps(first: Byte, inner: Bytes, trailer: Bytes)
    requires CLOSE_BRACKET !in trailer
    ensures var raw := [first] + inner + [CLOSE_BRACKET] + trailer;
            StripDefined(raw) && StripArrayWrapper(raw) == inner
  {
    var raw := [first] + inner + [CLOSE_BRACKET] + trailer;
    var e := |inner| + 1;
    assert raw[e] == CLOSE_BRACKET && raw[e + 1..] == trailer;
    assert raw[1..e] == inner;
  }

  /** With no ']' at all, the first byte is still dropped. */
  lemma NoBracketDropsFirstByte(raw: Bytes)
    requires |raw| > 0 && CLOSE_BRACKET !in raw
    ensures StripDefined(raw) && StripArrayWrapper(raw) == raw[1..] && |StripArrayWrapper(raw)| == |raw| - 1
  {
  }

  /** The slice panics exactly on an empty frame or one whose only ']' is
      its first byte. */
  lemma StripPanics(raw: Bytes)
    ensures !StripDefined(raw) <==>
            |raw| == 0 || (raw[0] == CLOSE_BRACKET && CLOSE_BRACKET !in raw[1..])
  {
    if |raw| > 0 && raw[0] == CLOSE_BRACKET && CLOSE_BRACKET !in raw[1..] {
      assert raw[0 + 1..] == raw[1..];
    }
  }

  /** What a worker does with one unwrapped frame: the book, or the error
      and the preview of at most 500 bytes it reports instead. */
  datatype Parsed = Parsed(book: Option<Orderbook>, diagnostic: Option<(ParseError, Bytes)>)

  /** `parse_message`: `Orderbook::from_bytes`, with a diagnostic on failure. */
  function ParseMessage(decode: JsonDecoder, raw: Bytes): (r: Parsed)
    ensures r.book.Some? <==> FromBytes(decode, raw).Success?
    ensures r.book.Some? ==> r.book.value == FromBytes(decode, raw).value && r.diagnostic.None?
    ensures r.book.None? ==>
              r.diagnostic.Some? && r.diagnostic.value.0 == FromBytes(decode, raw).error &&
              |r.diagnostic.value.1| == (if |raw| < PREVIEW_LIMIT then |raw| else PREVIEW_LIMIT) &&
              r.diagnostic.value.1 <= raw
  {
    match FromBytes(decode, raw)
    case Success(book) => Parsed(Some(book), None)
    case Failure(e) =>
      var shown := if |raw| < PREVIEW_LIMIT then |raw| else PREVIEW_LIMIT;
      Parsed(None, Some((e, raw[..shown])))
  }

  /** Reference definition of the frame loop: the unwrapped payloads handed
      to the pool, in order, and how the loop ends. */
  function Feed(frames: seq<Frame>): (seq<Bytes>, Stop) {
    if frames == [] then ([], StillOpen)
    else
      match frames[0]
      case Close => ([], Closed)
      case ReadFailure => ([], ReadFailed)
      case OtherOpcode => Feed(frames[1..])
      case Text(raw) =>
        if IsBookMessage(raw) then Feed(frames[1..])
        else if !StripDefined(raw) then ([], StripPanicked)
        else
          var rest := Feed(frames[1..]);
          ([StripArrayWrapper(raw)] + rest.0, rest.1)
  }

  /** The frame loop of `connect`: book frames are skipped without a
      number; every other Text frame gets the next number, counting from 0,
      and is unwrapped. */
  method AssignSequenceNumbers(frames: seq<Frame>) returns (tasks: seq<Task>, stop: Stop)
    ensures |tasks| == |Feed(frames).0| && stop == Feed(frames).1
    ensures forall i :: 0 <= i < |tasks| ==> tasks[i] == Task(i, Feed(frames).0[i])
  {
    var seqNo: nat := 0;
    tasks, stop := [], StillOpen;
    var i := 0;
    assert frames[0..] == frames && Datas(tasks) == [];
    assert Datas(tasks) + Feed(frames).0 == Feed(frames).0;
    while i < |frames|
      invariant 0 <= i <= |frames| && seqNo == |tasks|
      invariant forall j :: 0 <= j < |tasks| ==> tasks[j].seqNo == j
      invariant Feed(frames) == (Datas(tasks) + Feed(frames[i..]).0, Feed(frames[i..]).1)
      decreases |frames| - i
    {
      assert frames[i..][1..] == frames[i + 1..];
      match frames[i] {
        case Close =>
          stop := Closed;
          break;
        case ReadFailure =>
          stop := ReadFailed;
          break;
        case OtherOpcode =>
        case Text(raw) =>
          if !IsBookMessage(raw) {
            var n := seqNo;
            seqNo := seqNo + 1;
            if !StripDefined(raw) {
              stop := StripPanicked;
              break;
            }
            var data := StripArrayWrapper(raw);
            var before := tasks;
            tasks := tasks + [Task(n, data)];
            assert Datas(tasks) == Datas(before) + [data];
            assert Datas(before) + ([data] + Feed(frames[i + 1..]).0) == Datas(tasks) + Feed(frames[i + 1..]).0;
          }
      }
      i := i + 1;
    }
    assert Datas(tasks) + [] == Datas(tasks);
  }

  /** A book frame leaves the loop exactly as if it had not arrived: it
      takes no sequence number and shifts no later one. */
  lemma {:induction false} BookFramesIgnored(before: seq<Frame>, raw: Bytes, after: seq<Frame>)
    requires IsBookMessage(raw)
    ensures Feed(before + [Text(raw)] + after) == Feed(before + after)
  {
    var with, without := before + [Text(raw)] + after, before + after;
    if before == [] {
      assert with[1..] == after && without == after;
    } else {
      BookFramesIgnored(before[1..], raw, after);
      assert with[0] == without[0] == before[0];
      assert with[1..] == before[1..] + [Text(raw)] + after;
      assert without[1..] == before[1..] + after;
    }
  }

  /** What the workers make of the tasks, in task order. */
  function Results(decode: JsonDecoder, frames: seq<Frame>): (r: seq<Option<Orderbook>>)
    ensures |r| == |Feed(frames).0|
  {
    var data := Feed(frames).0;
    seq(|data|, i requires 0 <= i < |data| => ParseMessage(decode, data[i]).book)
  }

  /** The whole feed when one frame does not parse into a book: whatever
      order the workers finish in, the consumer emits the books of the
      frames numbered before it, in order, and then emits nothing more;
      every later book stays in its buffer. There is no skip accounting. */
  lemma FailedParseStalls(decode: JsonDecoder, frames: seq<Frame>, perm: seq<nat>, failed: nat)
    requires failed < |Feed(frames).0|
    requires FromBytes(decode, Feed(frames).0[failed]).Failure?
    requires forall i :: 0 <= i < failed ==> FromBytes(decode, Feed(frames).0[i]).Success?
    requires IsPermutation(perm, |Sent(Results(decode, frames))|)
    ensures var s := Replay(Reorder(Sent(Results(decode, frames)), perm));
            s.nextSeq == failed && |s.emitted| == failed &&
            (forall i :: 0 <= i < failed ==>
               s.emitted[i] == Emission(i, FromBytes(decode, Feed(frames).0[i]).value)) &&
            (forall k :: k in s.buffer <==>
               failed < k < |Feed(frames).0| && FromBytes(decode, Feed(frames).0[k]).Success?)
  {
    PipelineStalls(Results(decode, frames), perm, failed);
  }

  /** The whole feed when every numbered frame parses: all books are
      emitted in frame order and the buffer ends empty. */
  lemma AllParsedDelivered(decode: JsonDecoder, frames: seq<Frame>, perm: seq<nat>)
    requires forall i :: 0 <= i < |Feed(frames).0| ==> FromBytes(decode, Feed(frames).0[i]).Success?
    requires IsPermutation(perm, |Sent(Results(decode, frames))|)
    ensures var s := Replay(Reorder(Sent(Results(decode, frames)), perm));
            s.nextSeq == |Feed(frames).0| && s.buffer == map[] && |s.emitted| == |Feed(frames).0| &&
            (forall i :: 0 <= i < |Feed(frames).0| ==>
               s.emitted[i] == Emission(i, FromBytes(decode, Feed(frames).0[i]).value))
  {
    PipelineDelivers(Results(decode, frames), perm);
  }
}
