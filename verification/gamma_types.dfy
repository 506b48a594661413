/** The market metadata types of src/polymarket/gamma/types.rs: the query
    string of a market listing request, and the shaping of a decoded market
    record, whose outcome names and token ids arrive as two parallel lists,
    into a list of tokens.

    The JSON decoding itself (including the stringified arrays) is not
    modelled: `MarketFromRaw` starts from an already-decoded `RawMarket`. */
module Gamma {
  import opened Wrappers
  import opened Decimal

  /** Optional filters of a market listing. `tagId` is a `u64`. */
  datatype ListMarketParams = ListMarketParams(tagId: Option<nat>, order: Option<string>, ascending: Option<bool>)

  /** `ListMarketParams::default()`. */
  const DefaultParams: ListMarketParams := ListMarketParams(None, None, None)

  /** `bool::to_string`. */
  function BoolString(b: bool): string {
    if b then "true" else "false"
  }

  /** How many filters are set. */
  function SetCount(p: ListMarketParams): nat {
    (if p.tagId.Some? then 1 else 0) + (if p.order.Some? then 1 else 0) + (if p.ascending.Some? then 1 else 0)
  }

  /** The position of a query key in the fixed order tag_id, order, ascending. */
  function KeyRank(key: string): nat {
    if key == "tag_id" then 0 else if key == "order" then 1 else 2
  }

  /** The pair a single filter contributes, if it is set. */
  function TagPair(p: ListMarketParams): seq<(string, string)> {
    if p.tagId.Some? then [("tag_id", DecimalString(p.tagId.value))] else []
  }

  function OrderPair(p: ListMarketParams): seq<(string, string)> {
    if p.order.Some? then [("order", p.order.value)] else []
  }

  function AscendingPair(p: ListMarketParams): seq<(string, string)> {
    if p.ascending.Some? then [("ascending", BoolString(p.ascending.value))] else []
  }

  /** Length, keys and key order of the pairs. */
  lemma PairsShape(p: ListMarketParams)
    ensures var params := TagPair(p) + OrderPair(p) + AscendingPair(p);
            |params| == SetCount(p) &&
            (forall i :: 0 <= i < |params| ==>
               params[i].0 == "tag_id" || params[i].0 == "order" || params[i].0 == "ascending") &&
            (forall i, j :: 0 <= i < j < |params| ==> KeyRank(params[i].0) < KeyRank(params[j].0))
  {
    assert |"tag_id"| == 6 && |"order"| == 5 && |"ascending"| == 9;
  }

  /** What each key is paired with. */
  lemma PairsValues(p: ListMarketParams)
    requires p.tagId.Some? ==> p.tagId.value <= U64_MAX
    ensures var params := TagPair(p) + OrderPair(p) + AscendingPair(p);
            (forall v :: ("tag_id", v) in params <==> p.tagId.Some? && v == DecimalString(p.tagId.value)) &&
            (forall v :: ("tag_id", v) in params ==> ParseU64(v) == p.tagId) &&
            (forall v :: ("order", v) in params <==> p.order == Some(v)) &&
            (forall v :: ("ascending", v) in params <==> p.ascending.Some? && v == BoolString(p.ascending.value))
  {
    assert |"tag_id"| == 6 && |"order"| == 5 && |"ascending"| == 9;
    if p.tagId.Some? {
      ParseRendered(p.tagId.value);
    }
  }

  /** `to_query_params`: one pair per filter that is set, in the order
      tag_id, order, ascending. The tag id is written in decimal and reads
      back as the same number, the order string is copied, and the flag is
      written "true" or "false". */
  method ToQueryParams(p: ListMarketParams) returns (params: seq<(string, string)>)
    requires p.tagId.Some? ==> p.tagId.value <= U64_MAX
    ensures |params| == SetCount(p)
    ensures forall i :: 0 <= i < |params| ==>
              params[i].0 == "tag_id" || params[i].0 == "order" || params[i].0 == "ascending"
    ensures forall i, j :: 0 <= i < j < |params| ==> KeyRank(params[i].0) < KeyRank(params[j].0)
    ensures forall v :: ("tag_id", v) in params <==> p.tagId.Some? && v == DecimalString(p.tagId.value)
    ensures forall v :: ("tag_id", v) in params ==> ParseU64(v) == p.tagId
    ensures forall v :: ("order", v) in params <==> p.order == Some(v)
    ensures forall v :: ("ascending", v) in params <==> p.ascending.Some? && v == BoolString(p.ascending.value)
    ensures p == DefaultParams ==> params == []
  {
    params := [];
    if p.tagId.Some? {
      params := params + [("tag_id", DecimalString(p.tagId.value))];
    }
    if p.order.Some? {
      params := params + [("order", p.order.value)];
    }
    if p.ascending.Some? {
      params := params + [("ascending", BoolString(p.ascending.value))];
    }
    assert params == TagPair(p) + OrderPair(p) + AscendingPair(p);
    PairsShape(p);
    PairsValues(p);
  }

  datatype Token = Token(tokenId: string, outcome: string)

  /** The record as the API sends it, after JSON decoding. */
  datatype RawMarket = RawMarket(
    id: string, conditionId: string, slug: string,
    outcomes: seq<string>, clobTokenIds: seq<string>,
    active: bool, closed: bool, endDate: Option<string>)

  datatype Market = Market(
    id: string, conditionId: string, slug: string,
    tokens: seq<Token>,
    active: bool, closed: bool, endDate: Option<string>)

  function Min(a: nat, b: nat): nat {
    if a < b then a else b
  }

  /** `clob_token_ids.into_iter().zip(outcomes).map(Token)`: pairs by
      position; the longer list's surplus is dropped. */
  function ZipTokens(ids: seq<string>, outcomes: seq<string>): (r: seq<Token>)
    ensures |r| == Min(|ids|, |outcomes|)
    ensures forall i :: 0 <= i < |r| ==> r[i] == Token(ids[i], outcomes[i])
  {
    if ids == [] || outcomes == [] then []
    else [Token(ids[0], outcomes[0])] + ZipTokens(ids[1..], outcomes[1..])
  }

  /** `Market::deserialize` after decoding: the tokens are zipped and every
      other field is carried over unchanged. */
  function MarketFromRaw(raw: RawMarket): (m: Market)
    ensures m.tokens == ZipTokens(raw.clobTokenIds, raw.outcomes)
    ensures m.id == raw.id && m.conditionId == raw.conditionId && m.slug == raw.slug
    ensures m.active == raw.active && m.closed == raw.closed && m.endDate == raw.endDate
  {
    Market(raw.id, raw.conditionId, raw.slug, ZipTokens(raw.clobTokenIds, raw.outcomes),
           raw.active, raw.closed, raw.endDate)
  }

  function TokenIds(tokens: seq<Token>): (r: seq<string>)
    ensures |r| == |tokens|
  {
    seq(|tokens|, i requires 0 <= i < |tokens| => tokens[i].tokenId)
  }

  function Outcomes(tokens: seq<Token>): (r: seq<string>)
    ensures |r| == |tokens|
  {
    seq(|tokens|, i requires 0 <= i < |tokens| => tokens[i].outcome)
  }

  /** Unzipping the tokens gives back the common prefix of the two lists,
      and both lists whole when they have the same length: nothing is lost
      or reordered, only a surplus is dropped. */
  lemma TokensUnzip(raw: RawMarket)
    ensures var tokens := MarketFromRaw(raw).tokens;
            TokenIds(tokens) == raw.clobTokenIds[..|tokens|] && Outcomes(tokens) == raw.outcomes[..|tokens|]
    ensures |raw.clobTokenIds| == |raw.outcomes| ==>
              TokenIds(MarketFromRaw(raw).tokens) == raw.clobTokenIds &&
              Outcomes(MarketFromRaw(raw).tokens) == raw.outcomes
  {
  }

  /** The usual two-outcome market. */
  lemma BinaryMarketExample()
    ensures MarketFromRaw(RawMarket("1", "0xc", "s", ["Yes", "No"], ["11", "22"], true, false, None)).tokens ==
            [Token("11", "Yes"), Token("22", "No")]
    ensures MarketFromRaw(RawMarket("1", "0xc", "s", ["Yes", "No"], ["11"], true, false, None)).tokens ==
            [Token("11", "Yes")]
  {
    assert ZipTokens([], ["No"]) == [];
  }
}
