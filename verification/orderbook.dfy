/** The order book of src/orderbook.rs: building a book from a decoded
    snapshot message (`from_bytes`), replacing a live book wholesale
    (`apply_snapshot`, `update_from_bytes`) and the four read-only queries.

    Prices carry 2 implied decimals and sizes 1. Asks are keyed by price and
    read lowest first; bids are keyed under `Reverse` in the source so that
    the highest price comes first. Both sides are plain maps here and the
    queries take the minimum or maximum key explicitly. */
module Orderbooks {
  import opened Wrappers
  import opened Decimal
  import opened ByteStrings

  const PRICE_DECIMALS: nat := 2
  const SIZE_DECIMALS: nat := 1

  /** One `{"price": "...", "size": "..."}` entry with its text not yet converted. */
  datatype RawLevel = RawLevel(price: string, size: string)

  /** `IncomingOrderBookMessage` as JSON decoding leaves it: decimal and
      timestamp fields still text. */
  datatype RawBookMessage = RawBookMessage(
    market: string,
    assetId: string,
    timestamp: string,
    bids: seq<RawLevel>,
    asks: seq<RawLevel>,
    hash: string)

  /** The structural JSON decoding `serde_json::from_slice` performs: None
      for malformed JSON or a missing or mistyped field. */
  type JsonDecoder = Bytes -> Option<RawBookMessage>

  /** `LevelEntry`: a price level and its size, both scaled integers. */
  datatype Level = Level(price: nat, size: nat)

  datatype ParseError = MalformedJson | InvalidTimestamp | InvalidLevel(cause: DecimalError)

  /** The `deserialize_price` and `deserialize_size` conversions of one entry. */
  function DecodeLevel(e: RawLevel): Result<Level, ParseError> {
    match ParseDecimal(e.price, PRICE_DECIMALS)
    case Failure(err) => Failure(InvalidLevel(err))
    case Success(price) =>
      match ParseDecimal(e.size, SIZE_DECIMALS)
      case Failure(err) => Failure(InvalidLevel(err))
      case Success(size) => Success(Level(price, size))
  }

  /** A level list decodes when every entry does; the first bad entry is the error. */
  function DecodeLevels(raw: seq<RawLevel>): (r: Result<seq<Level>, ParseError>)
    ensures r.Success? <==> forall i :: 0 <= i < |raw| ==> DecodeLevel(raw[i]).Success?
    ensures r.Success? ==> |r.value| == |raw| && forall i :: 0 <= i < |raw| ==> DecodeLevel(raw[i]) == Success(r.value[i])
  {
    if raw == [] then Success([])
    else
      assert forall i :: 1 <= i < |raw| ==> raw[i] == raw[1..][i - 1];
      var first, rest := DecodeLevel(raw[0]), DecodeLevels(raw[1..]);
      if first.Failure? then Failure(first.error)
      else if rest.Failure? then Failure(rest.error)
      else Success([first.value] + rest.value)
  }

  /** `.filter(|e| e.size > 0).map(..).collect()` into a `BTreeMap`: zero
      sizes are dropped before collecting, and a later entry at the same
      price overwrites an earlier one. */
  function CollectLevels(levels: seq<Level>): (side: map<nat, nat>)
    ensures forall p :: p in side ==> side[p] > 0
    ensures forall p :: p in side <==> exists i :: 0 <= i < |levels| && levels[i].price == p && levels[i].size > 0
  {
    if levels == [] then map[]
    else
      var earlier := CollectLevels(levels[..|levels| - 1]);
      var last := levels[|levels| - 1];
      assert forall i :: 0 <= i < |levels| - 1 ==> levels[..|levels| - 1][i] == levels[i];
      if last.size > 0 then earlier[last.price := last.size] else earlier
  }

  /** The size kept at a price is that of the last non-zero entry at that price. */
  lemma {:induction false} LaterEntryWins(levels: seq<Level>, i: nat)
    requires i < |levels| && levels[i].size > 0
    requires forall j :: i < j < |levels| && levels[j].price == levels[i].price ==> levels[j].size == 0
    ensures levels[i].price in CollectLevels(levels)
    ensures CollectLevels(levels)[levels[i].price] == levels[i].size
  {
    var n := |levels|;
    if i < n - 1 {
      var earlier := levels[..n - 1];
      assert earlier[i] == levels[i];
      forall j | i < j < |earlier| && earlier[j].price == earlier[i].price
        ensures earlier[j].size == 0
      {
        assert earlier[j] == levels[j];
      }
      LaterEntryWins(earlier, i);
      assert levels[n - 1].price != levels[i].price || levels[n - 1].size == 0;
    }
  }

  /** A zero-size entry never removes a price collected before it: the
      filter runs before the collect. */
  lemma ZeroSizeKeepsEarlier(levels: seq<Level>, price: nat)
    ensures CollectLevels(levels + [Level(price, 0)]) == CollectLevels(levels)
  {
    assert (levels + [Level(price, 0)])[..|levels|] == levels;
  }

  ghost predicate IsMaxOf(m: nat, keys: set<nat>) {
    m in keys && forall k :: k in keys ==> k <= m
  }

  ghost predicate IsMinOf(m: nat, keys: set<nat>) {
    m in keys && forall k :: k in keys ==> m <= k
  }

  /** A non-empty set of price levels has a largest element. */
  lemma {:induction false} HasMaximum(keys: set<nat>)
    requires keys != {}
    ensures exists m :: IsMaxOf(m, keys)
  {
    var x :| x in keys;
    var rest := keys - {x};
    if rest == {} {
      assert keys == {x};
      assert IsMaxOf(x, keys);
    } else {
      HasMaximum(rest);
      var m :| IsMaxOf(m, rest);
      var top := if m < x then x else m;
      forall k | k in keys ensures k <= top {
        if k != x { assert k in rest; }
      }
      assert IsMaxOf(top, keys);
    }
  }

  /** A non-empty set of price levels has a smallest element. */
  lemma {:induction false} HasMinimum(keys: set<nat>)
    requires keys != {}
    ensures exists m :: IsMinOf(m, keys)
  {
    var x :| x in keys;
    var rest := keys - {x};
    if rest == {} {
      assert keys == {x};
      assert IsMinOf(x, keys);
    } else {
      HasMinimum(rest);
      var m :| IsMinOf(m, rest);
      var bottom := if x < m then x else m;
      forall k | k in keys ensures bottom <= k {
        if k != x { assert k in rest; }
      }
      assert IsMinOf(bottom, keys);
    }
  }

  function MaxKey(keys: set<nat>): (m: nat)
    requires keys != {}
    ensures m in keys && forall k :: k in keys ==> k <= m
  {
    HasMaximum(keys);
    var m :| m in keys && forall k :: k in keys ==> k <= m;
    m
  }

  function MinKey(keys: set<nat>): (m: nat)
    requires keys != {}
    ensures m in keys && forall k :: k in keys ==> m <= k
  {
    HasMinimum(keys);
    var m :| m in keys && forall k :: k in keys ==> m <= k;
    m
  }

  /** `Orderbook` as a value: what `from_bytes` builds and the pipeline
      passes along. `asks` and `bids` map a price level to its quantity. */
  datatype Orderbook = Orderbook(
    market: string,
    assetId: string,
    timestamp: nat,
    asks: map<nat, nat>,
    bids: map<nat, nat>)
  {
    /** No price level holds a zero quantity. */
    ghost predicate NoEmptyLevels() {
      && (forall p :: p in asks ==> asks[p] > 0)
      && (forall p :: p in bids ==> bids[p] > 0)
    }

    /** `best_bid`: the highest bid price with its quantity. */
    function BestBid(): (r: Option<(nat, nat)>)
      ensures r.None? <==> bids == map[]
      ensures r.Some? ==> r.value.0 in bids && r.value.1 == bids[r.value.0]
      ensures r.Some? ==> forall p :: p in bids ==> p <= r.value.0
    {
      if bids == map[] then None
      else
        var price := MaxKey(bids.Keys);
        Some((price, bids[price]))
    }

    /** `best_ask`: the lowest ask price with its quantity. */
    function BestAsk(): (r: Option<(nat, nat)>)
      ensures r.None? <==> asks == map[]
      ensures r.Some? ==> r.value.0 in asks && r.value.1 == asks[r.value.0]
      ensures r.Some? ==> forall p :: p in asks ==> r.value.0 <= p
    {
      if asks == map[] then None
      else
        var price := MinKey(asks.Keys);
        Some((price, asks[price]))
    }

    /** `mid_price`: the average of best bid and best ask, rounded down. */
    function MidPrice(): (r: Option<nat>)
      ensures r.Some? <==> bids != map[] && asks != map[]
      ensures r.Some? ==> 2 * r.value <= BestBid().value.0 + BestAsk().value.0 < 2 * r.value + 2
    {
      match (BestBid(), BestAsk())
      case (Some((bid, _)), Some((ask, _))) => Some((bid + ask) / 2)
      case _ => None
    }

    /** `spread`: best ask minus best bid, saturating at zero when the book
      is crossed or touching. */
    function Spread(): (r: Option<nat>)
      ensures r.Some? <==> bids != map[] && asks != map[]
      ensures r.Some? ==> (r.value == 0 <==> BestAsk().value.0 <= BestBid().value.0)
      ensures r.Some? && r.value > 0 ==> BestBid().value.0 + r.value == BestAsk().value.0
    {
      match (BestBid(), BestAsk())
      case (Some((bid, _)), Some((ask, _))) => Some(if ask >= bid then ask - bid else 0)
      case _ => None
    }
  }

  /** `Orderbook::default()`. */
  const EmptyBook := Orderbook("", "", 0, map[], map[])

  /** The part of `from_bytes` after JSON decoding: convert the timestamp
      and every level, then collect each side without its zero sizes. */
  function FromMessage(msg: RawBookMessage): (r: Result<Orderbook, ParseError>)
    ensures r.Success? <==>
              && ParseU64(msg.timestamp).Some?
              && (forall i :: 0 <= i < |msg.bids| ==> DecodeLevel(msg.bids[i]).Success?)
              && (forall i :: 0 <= i < |msg.asks| ==> DecodeLevel(msg.asks[i]).Success?)
    ensures r.Success? ==>
              && r.value.market == msg.market
              && r.value.assetId == msg.assetId
              && ParseU64(msg.timestamp) == Some(r.value.timestamp)
              && r.value.NoEmptyLevels()
  {
    match ParseU64(msg.timestamp)
    case None => Failure(InvalidTimestamp)
    case Some(timestamp) =>
      match DecodeLevels(msg.bids)
      case Failure(e) => Failure(e)
      case Success(bids) =>
        match DecodeLevels(msg.asks)
        case Failure(e) => Failure(e)
        case Success(asks) =>
          Success(Orderbook(msg.market, msg.assetId, timestamp, CollectLevels(asks), CollectLevels(bids)))
  }

  /** `Orderbook::from_bytes`. */
  function FromBytes(decode: JsonDecoder, raw: Bytes): Result<Orderbook, ParseError> {
    match decode(raw)
    case None => Failure(MalformedJson)
    case Some(msg) => FromMessage(msg)
  }

  /** A price is on the ask side of a parsed book exactly when some ask
      entry of the message has that price and a non-zero size; likewise for bids. */
  lemma SnapshotLevels(msg: RawBookMessage, p: nat)
    requires FromMessage(msg).Success?
    ensures p in FromMessage(msg).value.asks <==>
            exists i :: 0 <= i < |msg.asks| && DecodeLevel(msg.asks[i]).value.price == p && DecodeLevel(msg.asks[i]).value.size > 0
    ensures p in FromMessage(msg).value.bids <==>
            exists i :: 0 <= i < |msg.bids| && DecodeLevel(msg.bids[i]).value.price == p && DecodeLevel(msg.bids[i]).value.size > 0
  {
    assert FromMessage(msg).value.asks == CollectLevels(DecodeLevels(msg.asks).value);
    assert FromMessage(msg).value.bids == CollectLevels(DecodeLevels(msg.bids).value);
    SideLevels(msg.asks, p);
    SideLevels(msg.bids, p);
  }

  /** One side of `SnapshotLevels`. */
  lemma SideLevels(raw: seq<RawLevel>, p: nat)
    requires DecodeLevels(raw).Success?
    ensures p in CollectLevels(DecodeLevels(raw).value) <==>
            exists i :: 0 <= i < |raw| && DecodeLevel(raw[i]).value.price == p && DecodeLevel(raw[i]).value.size > 0
  {
    var levels := DecodeLevels(raw).value;
    assert forall i :: 0 <= i < |raw| ==> DecodeLevel(raw[i]).value == levels[i];
  }

  /** A worked example: bids {33: 10, 32: 5} and asks {34: 7}. */
  lemma QueryExample()
    ensures var book := Orderbook("m", "a", 0, map[34 := 7], map[33 := 10, 32 := 5]);
            && book.BestBid() == Some((33, 10))
            && book.BestAsk() == Some((34, 7))
            && book.Spread() == Some(1)
            && book.MidPrice() == Some(33)
  {
    var book := Orderbook("m", "a", 0, map[34 := 7], map[33 := 10, 32 := 5]);
    assert 33 in book.bids && 34 in book.asks;
    var bid, ask := book.BestBid().value.0, book.BestAsk().value.0;
    assert bid in {33, 32} && 33 <= bid;
    assert ask in {34};
  }

  /** An empty book answers None to all four queries. */
  lemma EmptyBookQueries()
    ensures EmptyBook.BestBid() == None && EmptyBook.BestAsk() == None
    ensures EmptyBook.MidPrice() == None && EmptyBook.Spread() == None
  {
  }

  /** The book a consumer holds and replaces in place. */
  class LiveOrderbook {
    var market: string
    var assetId: string
    var timestamp: nat
    var asks: map<nat, nat>
    var bids: map<nat, nat>

    function Value(): Orderbook
      reads this
    {
      Orderbook(market, assetId, timestamp, asks, bids)
    }

    /** `Orderbook::default()`. */
    constructor ()
      ensures Value() == EmptyBook
    {
      market, assetId, timestamp := "", "", 0;
      asks, bids := map[], map[];
    }

    /** `apply_snapshot`: all five fields are overwritten; a level present
        before and absent from the snapshot is gone. */
    method ApplySnapshot(snapshot: Orderbook)
      modifies this
      ensures Value() == snapshot
      ensures forall p :: p in old(asks) && p !in snapshot.asks ==> p !in asks
      ensures forall p :: p in old(bids) && p !in snapshot.bids ==> p !in bids
    {
      market := snapshot.market;
      assetId := snapshot.assetId;
      timestamp := snapshot.timestamp;
      asks := snapshot.asks;
      bids := snapshot.bids;
    }

    /** `update_from_bytes`: a parse error is returned and the book is left as it was. */
    method UpdateFromBytes(decode: JsonDecoder, raw: Bytes) returns (r: Result<(), ParseError>)
      modifies this
      ensures r.Success? <==> FromBytes(decode, raw).Success?
      ensures r.Success? ==> Value() == FromBytes(decode, raw).value
      ensures r.Failure? ==> r.error == FromBytes(decode, raw).error && Value() == old(Value())
    {
      match FromBytes(decode, raw)
      case Failure(e) =>
        r := Failure(e);
      case Success(snapshot) =>
        ApplySnapshot(snapshot);
        r := Success(());
    }
  }
}
