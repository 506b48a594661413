/** The trade feed of src/main.rs: Text frames that mention
    `last_trade_price` are numbered and handed to the pool as they are, a
    worker turns each into text, and the consumer prints them in number
    order.

    As in `BookFeed`, the connection, the pool and the channel are not
    modelled: frames are a sequence given in advance and the channel's
    delivery order is an arbitrary permutation. */
module TradeFeed {
  import opened Wrappers
  import opened ByteStrings
  import opened Resequencing
  import opened Frames

  /** The `LAST_TRADE_PRICE` marker. */
  function LastTradeMarker(): (m: Bytes)
    ensures |m| == 16
  {
    Ascii("last_trade_price")
  }

  /** `is_last_trade_price`: the marker occurs somewhere in the frame; a
      frame shorter than the marker never matches. */
  function IsLastTradePrice(raw: Bytes): (r: bool)
    ensures r <==> Contains(raw, LastTradeMarker())
    ensures |raw| < |LastTradeMarker()| ==> !r
  {
    AnyWindow(raw, LastTradeMarker())
  }

  /** `parse_message`: never fails, and the text carries the frame's bytes
      unchanged. */
  function ParseMessage(raw: Bytes): (r: Option<Bytes>)
    ensures r.Some? && r.value == raw
  {
    Some(raw)
  }

  /** Reference definition of the frame loop of `main`: the payloads handed
      to the pool, in order, and how the loop ends. */
  function Feed(frames: seq<Frame>): (seq<Bytes>, Stop) {
    if frames == [] then ([], StillOpen)
    else
      match frames[0]
      case Close => ([], Closed)
      case ReadFailure => ([], ReadFailed)
      case OtherOpcode => Feed(frames[1..])
      case Text(raw) =>
        if IsLastTradePrice(raw) then
          var rest := Feed(frames[1..]);
          ([raw] + rest.0, rest.1)
        else Feed(frames[1..])
  }

  /** Every payload handed on mentions the marker, and it is the frame's
      whole payload: nothing is unwrapped, so the loop cannot panic. */
  lemma {:induction false} FedAreTrades(frames: seq<Frame>)
    ensures forall d :: d in Feed(frames).0 ==> IsLastTradePrice(d)
    ensures forall d :: d in Feed(frames).0 ==> Text(d) in frames
    ensures Feed(frames).1 != StripPanicked
  {
    if frames != [] {
      FedAreTrades(frames[1..]);
      assert forall f :: f in frames[1..] ==> f in frames;
    }
  }

  /** The frame loop of `main`: each matching Text frame gets the next
      number, counting from 0; nothing else is numbered. */
  method AssignSequenceNumbers(frames: seq<Frame>) returns (tasks: seq<Task>, stop: Stop)
    ensures |tasks| == |Feed(frames).0| && stop == Feed(frames).1
    ensures forall i :: 0 <= i < |tasks| ==> tasks[i] == Task(i, Feed(frames).0[i])
  {
    var seqNo: nat := 0;
    tasks, stop := [], StillOpen;
    var i := 0;
    assert frames[0..] == frames && Datas(tasks) == [];
    assert Datas(tasks) + Feed(frames).0 == Feed(frames).0;
    while i < |frames|
      invariant 0 <= i <= |frames| && seqNo == |tasks|
      invariant forall j :: 0 <= j < |tasks| ==> tasks[j].seqNo == j
      invariant Feed(frames) == (Datas(tasks) + Feed(frames[i..]).0, Feed(frames[i..]).1)
      decreases |frames| - i
    {
      assert frames[i..][1..] == frames[i + 1..];
      match frames[i] {
        case Close =>
          stop := Closed;
          break;
        case ReadFailure =>
          stop := ReadFailed;
          break;
        case OtherOpcode =>
        case Text(raw) =>
          if IsLastTradePrice(raw) {
            var n := seqNo;
            seqNo := seqNo + 1;
            var before := tasks;
            tasks := tasks + [Task(n, raw)];
            assert Datas(tasks) == Datas(before) + [raw];
            assert Datas(before) + ([raw] + Feed(frames[i + 1..]).0) == Datas(tasks) + Feed(frames[i + 1..]).0;
          }
      }
      i := i + 1;
    }
    assert Datas(tasks) + [] == Datas(tasks);
  }

  /** A Text frame without the marker leaves the loop exactly as if it had
      not arrived: it takes no sequence number and shifts no later one. */
  lemma {:induction false} OtherFramesIgnored(before: seq<Frame>, raw: Bytes, after: seq<Frame>)
    requires !IsLastTradePrice(raw)
    ensures Feed(before + [Text(raw)] + after) == Feed(before + after)
  {
    var with, without := before + [Text(raw)] + after, before + after;
    if before == [] {
      assert with[1..] == after && without == after;
    } else {
      OtherFramesIgnored(before[1..], raw, after);
      assert with[0] == without[0] == before[0];
      assert with[1..] == before[1..] + [Text(raw)] + after;
      assert without[1..] == before[1..] + after;
    }
  }

  /** What the workers make of the tasks, in task order. */
  function Results(frames: seq<Frame>): (r: seq<Option<Bytes>>)
    ensures |r| == |Feed(frames).0|
  {
    var data := Feed(frames).0;
    seq(|data|, i requires 0 <= i < |data| => ParseMessage(data[i]))
  }

  /** The whole feed: since parsing cannot fail, whatever order the
      workers finish in, the consumer prints every matching frame exactly
      once, in frame order, and its buffer ends empty. */
  lemma EveryTradeDelivered(frames: seq<Frame>, perm: seq<nat>)
    requires IsPermutation(perm, |Sent(Results(frames))|)
    ensures var s := Replay(Reorder(Sent(Results(frames)), perm));
            s.nextSeq == |Feed(frames).0| && s.buffer == map[] && |s.emitted| == |Feed(frames).0| &&
            (forall i :: 0 <= i < |Feed(frames).0| ==> s.emitted[i] == Emission(i, Feed(frames).0[i]))
  {
    PipelineDelivers(Results(frames), perm);
  }
}
