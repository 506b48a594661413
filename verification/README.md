# Polymarket feed core, modelled in Dafny

This project models the message-handling core of a Rust client for the
Polymarket CLOB market WebSocket and the Gamma market API:

- **Decimal codec** (`decimal.dfy`, module `Decimal`). It covers
  `parse_decimal_to_int`, which turns exchange decimal text such as
  `"0.33"` into a scaled unsigned integer. It also covers the `u64`
  parser the codec relies on, and the `u64` rendering used in query
  strings, which is that parser's inverse.
- **Order book** (`orderbook.dfy`, module `Orderbooks`).
  - `Orderbook` is a value with the four queries: best bid, best ask, mid
    price and spread.
  - `FromMessage` and `FromBytes` build a book from a decoded snapshot
    message.
  - `LiveOrderbook` is the book that `apply_snapshot` and
    `update_from_bytes` replace in place.
- **Reorder buffer** (`resequencer.dfy`, module `Resequencing`). This is
  `orderbook_handling`, which has the same shape in both binaries.
  - `Drain`, `Step` and `Replay` define what the consumer emits for any
    arrival order.
  - The class `Resequencer` keeps the map and the counter and updates them
    in place. It is proved to follow `Replay`.
  - `Sent` and `Reorder` describe the worker pool: each task sends at most
    once, and the channel delivers in any order.
- **Book feed** (`websocket.dfy`, module `BookFeed`). It covers the frame
  loop of `connect`:
  - skipping book frames;
  - `strip_array_wrapper`, including the inputs on which its slice panics;
  - numbering the remaining frames;
  - `parse_message` and its 500-byte preview.
- **Trade feed** (`trade_feed.dfy`, module `TradeFeed`). It covers the
  frame loop of `main`: it keeps `last_trade_price` frames unchanged and
  numbers them.
- **Market metadata** (`gamma_types.dfy`, module `Gamma`). It covers
  `to_query_params` and how `Market::deserialize` zips token ids with
  outcome names.
- **Shared definitions.** `frames.dfy` holds the frame and task types both
  loops share. `bytes.dfy` holds byte strings and the `windows(..).any(..)`
  search. `wrappers.dfy` holds `Option` and `Result`.

Prices carry 2 implied decimals and sizes 1, as in `PRICE_DECIMALS` and
`SIZE_DECIMALS`. Integers are unbounded naturals.

### Behaviour worth knowing

The model follows the code in each of these cases:

- **Text with no `]`.** `strip_array_wrapper` still drops the first byte;
  it does not return the text unchanged. Its slice panics on an empty frame
  and on a frame whose only `]` is its first byte. The model ends the loop
  with `StripPanicked` there.
- **A frame that does not parse.** It sends nothing, and no skip is
  recorded. `next_seq` therefore stops at that number for good, and every
  later book stays in the buffer (`BookFeed.FailedParseStalls`).
- **Zero-size entries.** `from_bytes` filters them out before it collects
  the side. A later zero-size entry therefore does not remove a price
  collected earlier (`Orderbooks.ZeroSizeKeepsEarlier`).
- **Long fractions.** They are truncated by integer division of the
  fraction's value, and its text length counts leading zeros. `"1.2345"`
  at 2 decimals is 123, not 120 (`Decimal.TruncationExample`).

## Model

| member | source | states |
|---|---|---|
| Decimal.ParseU64 | src/orderbook.rs:139 | Succeeds exactly on one optional '+' followed by at least one ASCII digit, with a value of at most u64::MAX. Plain digit text gives its digit value. |
| Decimal.DecimalString | src/polymarket/gamma/types.rs:14 | `u64::to_string` gives non-empty ASCII digits with no leading zero. |
| Decimal.DecimalStringValue | src/polymarket/gamma/types.rs:14 | The rendered digits denote the number rendered. |
| Decimal.ParseRendered | src/polymarket/gamma/types.rs:14 | Rendering any u64 and parsing it back gives the same number. |
| Decimal.RenderParsed | src/orderbook.rs:139 | Canonical digit text (no sign, no leading zero) comes back unchanged after parsing and rendering. |
| Decimal.DigitsValuePositive | src/orderbook.rs:139 | Digit text that does not start with '0' denotes a positive number. |
| Decimal.FindFirst | src/orderbook.rs:148 | `str::find`: None exactly when the character is absent; otherwise an index holding it, with none before. |
| Decimal.FirstDot | src/orderbook.rs:148 | A '.' with no '.' before it is the one `find` reports. |
| Decimal.ScaleFraction | src/orderbook.rs:150-162 | Brings the fraction to exactly `decimals` digits, padding by the text length or dropping digits by integer division. `PaddedFraction` proves that padding is exact, and `DroppedFraction` that dropping loses less than one unit. |
| Decimal.ParsePointed | src/orderbook.rs:148-164 | The branch for text with a '.': the integer part is checked first, then the fraction, and the result is int·10^decimals plus the scaled fraction. `ParseErrors` and `ParseTruncates` state its errors and its value. |
| Decimal.ParseDecimal | src/orderbook.rs:145-170 | `parse_decimal_to_int`. `ParseSucceedsIff` states when it succeeds and `ParseErrors` which error it reports. `ParseWhole` gives the value without a '.', and `ParseTruncates` the value with one. |
| Decimal.ParseSucceedsIff | src/orderbook.rs:145-170 | The parse succeeds exactly on a '.'-free u64 text, or on u64 texts on both sides of the first '.'. |
| Decimal.ParseErrors | src/orderbook.rs:149-167 | Each of the three error values occurs exactly in its case: a bad whole number, a bad integer part (checked first), or a bad fractional part. |
| Decimal.ParseWhole | src/orderbook.rs:165-168 | Text without a '.' gives its value times 10^decimals. |
| Decimal.ParseTruncates | src/orderbook.rs:148-164 | The result is the exact value I.F scaled by 10^decimals and truncated toward zero. L is the fraction's text length: r·10^L ≤ (I·10^L + F)·10^decimals < (r+1)·10^L. |
| Decimal.TruncationBounds | src/orderbook.rs:156-164 | The same truncation bound, stated on the integer part, the fraction value and the fraction length. |
| Decimal.PaddedFraction | src/orderbook.rs:156-157 | A fraction shorter than `decimals`, or as long, is padded with zeros and the result is exact. |
| Decimal.DroppedFraction | src/orderbook.rs:158-159 | With a fraction longer than `decimals`, the digits dropped by integer division lower the result by less than one unit. |
| Decimal.PriceExample | src/orderbook.rs:143 | "0.33" at 2 decimals is 33. |
| Decimal.SizeExample | src/orderbook.rs:144 | "4142.5" at 1 decimal is 41425. |
| Decimal.Digits4142 | src/orderbook.rs:149 | "4142" parses to 4142. |
| Decimal.WholeExample | src/orderbook.rs:167-168 | "5" at 2 decimals is 500. |
| Decimal.PaddingExample | src/orderbook.rs:156-157 | "0.05" at 2 decimals is 5: the padding follows the text length. |
| Decimal.TruncationExample | src/orderbook.rs:158-159 | "1.2345" at 2 decimals is 123: truncated, not rounded. |
| Decimal.ErrorExamples | src/orderbook.rs:149-167 | ".5" gives an integer-part error. "5." and "1.2.3" give a fractional-part error. "abc" gives an integer error. |
| Orderbooks.DecodeLevels | src/orderbook.rs:116-131 | A level list decodes exactly when every entry's price (2 decimals) and size (1 decimal) parse. The levels then match the entries position by position. |
| Orderbooks.CollectLevels | src/orderbook.rs:61-73 | The side holds a price exactly when some entry with a non-zero size has it. No price maps to zero. |
| Orderbooks.LaterEntryWins | src/orderbook.rs:61-66 | At a repeated price, the last non-zero entry's size is kept. |
| Orderbooks.ZeroSizeKeepsEarlier | src/orderbook.rs:64 | Appending a zero-size entry leaves the collected side unchanged. |
| Orderbooks.DecodeLevel | src/orderbook.rs:116-131 | `deserialize_price` (2 decimals), then `deserialize_size` (1 decimal), for one entry. `DecodeLevels` states that a list decodes exactly when each entry does. |
| Orderbooks.HasMaximum | src/orderbook.rs:86-88 | A non-empty set of bid prices has a largest element. |
| Orderbooks.HasMinimum | src/orderbook.rs:92-94 | A non-empty set of ask prices has a smallest element. |
| Orderbooks.MaxKey | src/orderbook.rs:87 | The greatest key: first in `Reverse` order. |
| Orderbooks.MinKey | src/orderbook.rs:93 | The least key: first in `BTreeMap` order. |
| Orderbooks.Orderbook.BestBid | src/orderbook.rs:86-88 | None exactly on an empty bid side. Otherwise the highest bid price with its size. |
| Orderbooks.Orderbook.BestAsk | src/orderbook.rs:92-94 | None exactly on an empty ask side. Otherwise the lowest ask price with its size. |
| Orderbooks.Orderbook.MidPrice | src/orderbook.rs:98-103 | Defined exactly when both sides are non-empty. It is half the sum of the best bid and best ask, rounded down: 2·r ≤ bid + ask < 2·r + 2. |
| Orderbooks.Orderbook.Spread | src/orderbook.rs:107-112 | Defined exactly when both sides are non-empty. It is 0 exactly when the book is crossed or touching; otherwise best bid + spread = best ask. |
| Orderbooks.FromMessage | src/orderbook.rs:58-82 | Succeeds exactly when the timestamp and every level parse. market and asset id are copied, the timestamp is its parsed value, and no level is empty. |
| Orderbooks.FromBytes | src/orderbook.rs:58-82 | MalformedJson when JSON decoding fails, otherwise `FromMessage`. `UpdateFromBytes` and `BookFeed.ParseMessage` are stated in terms of its success, value and error. |
| Orderbooks.SnapshotLevels | src/orderbook.rs:61-73 | A price is on a side of the parsed book exactly when an entry of that side has that price and a non-zero size. |
| Orderbooks.QueryExample | src/orderbook.rs:84-112 | Bids {33: 10, 32: 5} and asks {34: 7} give best bid (33, 10), best ask (34, 7), spread 1 and mid 33. |
| Orderbooks.EmptyBookQueries | src/orderbook.rs:32-39 | The default book answers None to all four queries. |
| Orderbooks.LiveOrderbook.constructor | src/orderbook.rs:32-39 | The new live book is the default book. |
| Orderbooks.LiveOrderbook.ApplySnapshot | src/orderbook.rs:42-48 | Every field is replaced by the snapshot's. No earlier level survives unless the snapshot has it. |
| Orderbooks.LiveOrderbook.UpdateFromBytes | src/orderbook.rs:49-53 | Succeeds exactly when `from_bytes` does, and the book then equals the parsed one. On failure it returns the same error and leaves the book unchanged. |
| ByteStrings.AnyWindow | src/polymarket/websocket.rs:107 | `windows(n).any(w == pat)` is true exactly when the pattern occurs, and never for a shorter input. |
| ByteStrings.OccursShifted | src/polymarket/websocket.rs:107 | The pattern occurs in a non-empty input exactly when it starts at 0 or occurs in the tail. |
| Resequencing.DrainSpec | src/polymarket/websocket.rs:136-152 | The drain stops at the first number missing from the buffer. It emits the run up to that number in order, removes exactly that run, and leaves other payloads alone. |
| Resequencing.StepInOrder | src/polymarket/websocket.rs:133-152 | One receive keeps the history invariant: the i-th emission is number i, `next_seq` counts emissions and is never buffered, and everything came from an arrival. |
| Resequencing.ReplayInOrder | src/polymarket/websocket.rs:129-154 | For any arrival order, emissions are 0, 1, 2, … with no gap and no repeat, each carrying a payload that arrived. |
| Resequencing.ReplayExtends | src/polymarket/websocket.rs:133-152 | Emission only appends: later arrivals never retract or reorder what was emitted, and `next_seq` never decreases. |
| Resequencing.StepAccounted | src/polymarket/websocket.rs:133-152 | With distinct numbers, one receive keeps the buffer equal to "arrived and not yet emitted", each entry with its own payload. |
| Resequencing.ReplayAccounted | src/polymarket/websocket.rs:129-154 | With distinct numbers, the buffer is exactly the arrived numbers from `next_seq` up, and each emitted number carries the payload it arrived with. |
| Resequencing.ReplayStall | src/polymarket/websocket.rs:136 | A number that never arrives is never passed, and every arrival at or above it stays buffered. |
| Resequencing.StallsAtMissing | src/polymarket/websocket.rs:129-154 | If everything below a missing number arrives once, the consumer emits exactly those payloads in order, stops at the missing number, and buffers everything above it. |
| Resequencing.DeliversAll | src/main.rs:140-152 | If 0..n-1 each arrive once in any order, all n payloads are emitted in ascending order and the buffer ends empty. |
| Resequencing.Drain | src/polymarket/websocket.rs:136-152 | The inner `remove(&next_seq)` loop as a function. `DrainSpec` proves that it emits and removes exactly the run starting at `next_seq`. |
| Resequencing.Step | src/polymarket/websocket.rs:133-152 | One receive: insert, overwriting any payload already under that number, then drain. `StepInOrder` and `StepAccounted` state the invariants it keeps. |
| Resequencing.Replay | src/polymarket/websocket.rs:129-154 | The consumer's state after the arrivals, in order. `ReplayInOrder`, `ReplayAccounted`, `ReplayExtends`, `ReplayStall`, `StallsAtMissing` and `DeliversAll` characterise it. |
| Resequencing.Resequencer.constructor | src/polymarket/websocket.rs:130-131 | An empty map and `next_seq` 0 are the replay of no arrivals. |
| Resequencing.Resequencer.Receive | src/polymarket/websocket.rs:133-152 | Inserting and draining in place keeps the fields equal to the replay of all arrivals so far. What it returns is exactly the new emissions. |
| Resequencing.TakeRun | src/polymarket/websocket.rs:136-152 | The inner remove loop on the map and counter computes exactly `Drain`. |
| Resequencing.Handle | src/main.rs:140-152 | Running the consumer over a delivery order emits exactly what `Replay` prescribes. |
| Resequencing.SentFacts | src/polymarket/websocket.rs:88-95 | Workers send distinct numbers: exactly the tasks whose parse succeeded, each with its own result. |
| Resequencing.Sent | src/polymarket/websocket.rs:88-95 | The worker sends: one message for each task whose parse succeeded, under that task's number. `SentFacts` states that the numbers are distinct, cover exactly the successes, and carry their own results. |
| Resequencing.Reorder | src/polymarket/websocket.rs:88-95 | Channel delivery order: position i holds the message the permutation names. |
| Resequencing.ReorderKeeps | src/polymarket/websocket.rs:88-95 | Delivery order keeps the set of numbers, keeps them distinct, and invents no message. |
| Resequencing.PipelineStalls | src/polymarket/websocket.rs:88-95 | If task `failed` sends nothing, then in any delivery order the results before it are emitted in order, nothing more is emitted, and later successes stay buffered. |
| Resequencing.PipelineDelivers | src/main.rs:119-126 | If every task sends, then in any delivery order all results are emitted in task order and the buffer ends empty. |
| BookFeed.BookMarker | src/polymarket/websocket.rs:19 | The `ORDERBOOK` marker is 18 bytes. |
| BookFeed.IsBookMessage | src/polymarket/websocket.rs:106-108 | True exactly when the frame does not start with '[' and contains the book marker. |
| BookFeed.LastIndexOf | src/polymarket/websocket.rs:113 | `rposition`: None exactly when the byte is absent; otherwise its last index. |
| BookFeed.StripArrayWrapper | src/polymarket/websocket.rs:109-115 | Without ']' the result is the frame minus its first byte. Otherwise it is the bytes strictly between the first byte and the last ']'. |
| BookFeed.StripUnwraps | src/polymarket/websocket.rs:109-115 | `x inner ] trailer`, with no ']' in the trailer, strips to `inner`, whatever `x` is and even if `inner` holds ']'. |
| BookFeed.NoBracketDropsFirstByte | src/polymarket/websocket.rs:113-114 | A frame with no ']' loses its first byte. |
| BookFeed.StripPanics | src/polymarket/websocket.rs:114 | The slice is out of bounds exactly on an empty frame, or one whose only ']' is its first byte. |
| BookFeed.ParseMessage | src/polymarket/websocket.rs:117-126 | A book exactly when `from_bytes` succeeds. Otherwise the error and a preview that is the first min(len, 500) bytes. |
| BookFeed.Feed | src/polymarket/websocket.rs:69-100 | The payloads the `connect` loop hands to the pool, and how the loop ends. `AssignSequenceNumbers` is proved equal to it, and `BookFramesIgnored` shows book frames drop out. |
| BookFeed.AssignSequenceNumbers | src/polymarket/websocket.rs:69-100 | The loop's tasks are numbered 0, 1, 2, … and carry exactly the unwrapped payloads of `Feed`. It ends the way `Feed` does. |
| BookFeed.BookFramesIgnored | src/polymarket/websocket.rs:80-81 | A book frame changes neither the payloads nor the numbering of the others. |
| BookFeed.Results | src/polymarket/websocket.rs:88-89 | One worker result per task. |
| BookFeed.FailedParseStalls | src/polymarket/websocket.rs:83-94 | If the frame numbered `failed` does not parse, the books before it are emitted in frame order and the consumer then stalls with every later book buffered. |
| BookFeed.AllParsedDelivered | src/polymarket/websocket.rs:69-100 | If every numbered frame parses, then in any delivery order every book is emitted once, in frame order, and the buffer ends empty. |
| TradeFeed.LastTradeMarker | src/main.rs:16 | The `LAST_TRADE_PRICE` marker is 16 bytes. |
| TradeFeed.IsLastTradePrice | src/main.rs:36-39 | True exactly when the marker occurs in the frame; never for a frame shorter than the marker. |
| TradeFeed.ParseMessage | src/main.rs:136-138 | Never fails, and carries the frame's bytes. |
| TradeFeed.Feed | src/main.rs:99-131 | The payloads `main`'s loop hands to the pool, and how the loop ends. `AssignSequenceNumbers` is proved equal to it, `FedAreTrades` shows every payload is a whole matching frame, and `OtherFramesIgnored` shows other frames drop out. |
| TradeFeed.FedAreTrades | src/main.rs:109-117 | Every payload handed on is a whole Text frame that carries the marker, and the loop never panics. |
| TradeFeed.AssignSequenceNumbers | src/main.rs:99-131 | The loop's tasks are numbered 0, 1, 2, … and carry exactly the matching frames of `Feed`. It ends the way `Feed` does. |
| TradeFeed.OtherFramesIgnored | src/main.rs:109-110 | A Text frame without the marker changes neither the payloads nor the numbering of the others. |
| TradeFeed.Results | src/main.rs:119-126 | One worker result per task. |
| TradeFeed.EveryTradeDelivered | src/main.rs:99-152 | In any delivery order, every matching frame is printed once, in frame order, and the buffer ends empty. |
| Gamma.ToQueryParams | src/polymarket/gamma/types.rs:11-23 | One pair per set filter, in the order tag_id, order, ascending. The tag id is in decimal and parses back to itself, the order string is copied, and the flag is "true" or "false". The default params give []. |
| Gamma.PairsShape | src/polymarket/gamma/types.rs:12-22 | The pairs' count, keys and strict key order. |
| Gamma.PairsValues | src/polymarket/gamma/types.rs:13-21 | Each key is present exactly when its filter is set, with that filter's rendering. |
| Gamma.ZipTokens | src/polymarket/gamma/types.rs:70-75 | The length is the shorter list's, and token i pairs token id i with outcome i. |
| Gamma.MarketFromRaw | src/polymarket/gamma/types.rs:77-85 | The tokens are the zip. id, condition id, slug, active, closed and end date are copied unchanged. |
| Gamma.TokensUnzip | src/polymarket/gamma/types.rs:70-75 | Unzipping the tokens gives back the common prefix of both lists, and both whole lists when their lengths are equal. |
| Gamma.BinaryMarketExample | src/polymarket/gamma/types.rs:70-75 | Two ids with "Yes"/"No" give two tokens. A missing second id drops "No". |

## Left out

- Network I/O is not modelled: TCP, TLS, the WebSocket handshake, the subscribe message and `read_frame`. Frames are a sequence given in advance, and a read error is the frame `ReadFailure`.
- Threads are not modelled: the rayon pool, the crossbeam channel and the consumer thread. Worker results are modelled per task (`Sent`), and the channel's delivery order is an arbitrary permutation (`Reorder`). Receives are sequential.
- JSON decoding is not modelled: `serde_json::from_slice`, the serde field attributes and `deserialize_stringified_array`. `FromBytes` takes the decoder as a parameter (`JsonDecoder`), and `MarketFromRaw` starts from a decoded `RawMarket`.
- Printing is not modelled (`println!`, `eprintln!`). The consumer's "emission" is the message it would print. That includes the slice `&ob.asset_id[..20]`, which panics on an asset id shorter than 20 bytes.
- TradeFeed.ParseMessage: `String::from_utf8_lossy` is not modelled; the text is kept as the frame's bytes.
- Decimal.ParseDecimal: `int_part * multiplier` and `frac_part * 10^k` are computed on unbounded naturals; `u64` overflow is not modelled. Only `decimals <= 19` is required, because `10u64.pow` overflows beyond that.
- Orderbooks.FromMessage: when several fields are bad, the source reports the first bad one in JSON key order, because serde runs each field's converter as it meets the key. The decoder parameter keeps no key order, so the model reports the timestamp first, then bids, then asks, with price before size within an entry. Success and failure agree either way.
- Orderbooks.Orderbook.MidPrice: `bid + ask` is computed without `u64` overflow.
- Resequencing.Resequencer.Receive: `next_seq` and the producers' `seq_no` are unbounded; `u64` wrap-around is not modelled.
- Gamma.ToQueryParams: requires the tag id to fit in `u64`, the type the field has in the source.
- The Binance feed, the Gamma HTTP client and the price-change message wrappers are not modelled. `src/binance_ws.rs`, `src/polymarket/gamma/client.rs` and `src/polymarket/messages/price_change.rs` are not part of this model.
- `PRICE_CHANGE` and the websocket-side `LAST_TRADE_PRICE` constant are declared but never used by the book feed, so they are not modelled.
