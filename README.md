# Steam sale digest, modelled in Dafny

`SteamSaleChart.py` is a chat bot that posts one message digest a day at 06:00
Korean time. The digest lists the most-played Steam games that are on sale:

1. It reads the ranking site page by page and keeps the first 300 games. Each
   game's id is the last segment of its link, and its name is the trimmed
   cell text.
2. It asks the storefront for each game's discount and price. A failed
   request, an answer without an entry for the game, or an unsuccessful
   entry gives `(0, "N/A")`. Some malformed answers raise instead (see
   below).
3. It keeps the games discounted by at least 20%, with their store URLs, in
   rank order.
4. It posts them to the channel, one line per game, after a header line. A
   new message starts when the next line would push the current one past
   2000 characters. A line is never split, so only a message holding a
   single over-long line can exceed 2000. When no game qualifies, a single
   notice is posted instead.

This project models that deterministic core:

- **Text** holds the Python string operations the script uses:
  - `str.strip()`;
  - `split('/')[-1]`;
  - `str(n)`.

  It also defines `Concat`, the concatenation of a list of strings in order.
  It stands for the f-string that builds a line and for the `+=` that grows
  a message.

  Strings are sequences of code points, the units Python's `len` counts.
- **Json** holds the parsed JSON values, plus four Python operations on them:
  - `dict.get` with a default;
  - truthiness;
  - `>= n`, which can raise `TypeError`;
  - `str()` inside an f-string.
- **Ranking** models `get_top_games`. It is a method with the source's two
  nested loops and its early `break`. It is proved against a function that
  lists every game on the pages.
- **Discount** models `get_discount_info` as a pure function over the
  request's outcome, and `get_store_url`.
- **Packing** defines the greedy packer over any list of items. It proves the
  packer's properties: the packing is greedy and the only greedy one, the
  blocks join back to the items, the blocks are bounded, and the step lemmas
  the imperative loop uses.
- **Digest** models `send_discount_games`: the filter loop, the line format,
  the message-packing loop, and the run as a whole.
- **Schedule** models the wait computed by `scheduled_discount_check`. Time is
  integer microseconds on the Asia/Seoul wall clock, a zone without daylight
  saving time.

The pages, the storefront's answers and whether the channel resolves are all
inputs to the model.

`get_discount_info` catches only `requests.exceptions.RequestException`
(line 72). Other errors escape it and end the whole run:

- an entry that is not a dict raises `AttributeError` on `.get`;
- so do `data` and `price_overview` when they are not dicts.

Separately, the filter loop of `send_discount_games` compares the discount
with `discount >= 20` (line 91). A discount that is neither a number nor a
bool raises `TypeError` there, which also ends the run.

The model keeps these as `Raised` outcomes, and a run ending this way is
`Crashed`.

## Model

| member | source | states |
|---|---|---|
| Text.StripSpec | SteamSaleChart.py:35 | `strip()` returns a slice of the text. Only whitespace lies before and after the slice, and the result neither starts nor ends with whitespace. |
| Text.LastSegmentSpec | SteamSaleChart.py:34 | `split('/')[-1]` is free of `/` and ends the link. When it is not the whole link, a `/` comes right before it. |
| Text.LastSegmentAfterSlash | SteamSaleChart.py:34 | Appending a `/`-free segment to a string that ends in `/` makes that segment the last segment. |
| Text.DecimalSpec | SteamSaleChart.py:122 | `str(n)` is a non-empty string of digits with no leading zero, and it reads back as `n`. |
| Text.ConcatAppend | SteamSaleChart.py:128 | Joining two lists of strings one after the other equals joining each list and concatenating the results. |
| Json.DisplayIntSpec | SteamSaleChart.py:122 | `str(i)` of an int discount or price shown in a line is non-empty and begins with `-` exactly when `i` is negative. The rest is the decimal digits of the magnitude of `i`, with no leading zero, which read back as that magnitude. |
| Ranking.ScanRows | SteamSaleChart.py:29-39 | The row loop appends the entry of each row with at least two cells. It stops as soon as `limit` games are held, so the result is the first `limit` of the old games followed by the page's entries. |
| Ranking.ScanStops | SteamSaleChart.py:38-39 | Breaking once `limit` games are held loses nothing: the rest of the page cannot change the first `limit` entries. |
| Ranking.RankedPrefix | SteamSaleChart.py:23-42 | The games of the first `p` pages are a prefix of the games of all pages, so reading more pages only appends. |
| Ranking.GetTopGames | SteamSaleChart.py:19-45 | The result is the first `limit` readable rows of the pages, in page and row order, so it never exceeds `limit`. It holds exactly `limit` games precisely when the pages supply enough of them. It reads no page beyond the one that fills the list. |
| Ranking.RankedIdsHaveNoSlash | SteamSaleChart.py:34 | No ranked game's id contains `/`. |
| Discount.GetDiscountInfo | SteamSaleChart.py:48-74 | A failed request, an answer that is not a dict, a missing entry for the id, or a missing or false `success` all give `(0, "N/A")`. An entry, `data` or `price_overview` that is not a dict raises `AttributeError`. Otherwise the result is `discount_percent` and `final_formatted`, unchanged, defaulting to 0 and `"N/A"`. |
| Discount.StoreUrlRoundTrip | SteamSaleChart.py:76-77 | The last path segment of a game's store URL is its id, for any `/`-free id. |
| Discount.StoreUrlInjective | SteamSaleChart.py:76-77 | Different ids get different store URLs. |
| Digest.AssessSpec | SteamSaleChart.py:89-98 | One turn of the filter loop lists the game exactly when its lookup returns an int discount of at least 20. The listing carries the name, the discount, the price and the store URL. The turn raises exactly when the lookup raises or the discount is neither a number nor a bool. |
| Digest.SelectedSpec | SteamSaleChart.py:88-98 | The reference selection holds, in increasing order, exactly the positions of the qualifying games. |
| Digest.FilteredListsSelected | SteamSaleChart.py:88-98 | A filter that completes lists exactly the selected games, in rank order, each as its listing. |
| Digest.ListingsQualify | SteamSaleChart.py:91-98 | Every listed game has a discount of at least 20 and carries a ranked game's name and that game's store URL. |
| Digest.FilteredRaises | SteamSaleChart.py:88-91 | The filter loop raises exactly when some lookup or comparison raises, and it reports the first such error. |
| Digest.RaisedIsFinal | SteamSaleChart.py:88-91 | Once a turn raises, the later games do not matter. |
| Digest.FilterGames | SteamSaleChart.py:88-104 | The imperative filter loop computes the reference filter: the listings of the qualifying games, or the first exception. |
| Digest.LineEndsWithNewline | SteamSaleChart.py:122 | Every game line ends in a newline, so no line is empty. |
| Digest.PackMessages | SteamSaleChart.py:118-131 | The imperative packing loop produces the greedy packing of the header followed by the lines. The first message starts with the header. The messages join back to the header plus every line. Each message is non-empty and at most 2000 characters, unless it is a single over-long line. |
| Digest.MessagesStartWithHeader | SteamSaleChart.py:119 | The first message begins with the header. |
| Digest.MessagesJoinToDigest | SteamSaleChart.py:118-131 | The messages, joined in order, are the header followed by every line: nothing is lost, repeated or reordered. |
| Digest.MessagesAreBounded | SteamSaleChart.py:121-131 | Every message is non-empty. Each is at most 2000 characters, or else it is exactly one game line. |
| Digest.MessagesAreGreedy | SteamSaleChart.py:124-126 | Every message after the first begins with the first line not yet posted: the messages before it join to the header plus exactly the lines before that one. That line would have pushed the previous message past 2000 characters. |
| Digest.SendDiscountGames | SteamSaleChart.py:80-135 | A run stalls exactly when the pages list fewer than 300 games. Otherwise an exception from the filter crashes it. An unresolvable channel gets nothing. No qualifying game gets the single notice. Otherwise the run posts the greedy packing of the header and the lines. |
| Packing.PackIsGreedy | SteamSaleChart.py:121-131 | The packer's groups flatten back to the items. No group is empty. A group over the limit is a single item. Each group, plus the first item of the next, exceeds the limit. No items give no groups. |
| Packing.GreedyPackingIsUnique | SteamSaleChart.py:121-131 | Any packing with the greedy properties is the packer's own, so the greedy rule fixes the split boundaries exactly. |
| Packing.BlocksJoinToItems | SteamSaleChart.py:124-131 | The blocks, joined, equal the items joined. |
| Packing.BlocksAreBounded | SteamSaleChart.py:124-131 | For non-empty items: there are blocks exactly when there are items. Each block is non-empty, and it fits the limit or is one over-long item. |
| Packing.BlocksAreGreedy | SteamSaleChart.py:124-126 | Every block after the first begins with the first item not in the blocks before it, and that item would have pushed the previous block over the limit. |
| Packing.BlockStart | SteamSaleChart.py:124-128 | Gives the position of block `k`'s first item. The items before that position join to exactly the first `k` blocks. |
| Packing.BlocksStep | SteamSaleChart.py:124-128 | Packing one more item either appends it to the last block or, when the two together would exceed the limit, starts a new block with it. |
| Packing.FirstBlockStartsWithFirstItem | SteamSaleChart.py:119 | The first block starts with the first item. |
| Schedule.NextWait | SteamSaleChart.py:142-148 | The wait is positive and at most one day, and it ends exactly at 06:00. |
| Schedule.NextWaitIsFirst | SteamSaleChart.py:143-146 | No instant strictly inside the wait is 06:00, so the wait ends at the next 06:00. |
| Schedule.NextWaitDay | SteamSaleChart.py:145-146 | At or after 06:00 the run is the next day, and before 06:00 it is the same day. The wait is a full day exactly when it is 06:00 now. |

## Left out

- HTTP requests to the ranking site and the storefront, with their User-Agent headers and timeout (lines 24-26, 49-54). Each page and each storefront answer is an input instead. `RequestFailed` stands for any `RequestException`, which includes a body that is not JSON.
- HTML parsing with BeautifulSoup (lines 27-30, 34-35). Rows arrive as lists of cells, each with the anchor's `href` and the cell text. The anchor is assumed to exist.
- Ranking.GetTopGames: the source requests pages forever while it has fewer than `limit` games. The model reads a finite list of pages and reports `complete == false`, which a run reports as `Stalled`. A failed ranking request (an exception at line 26) is not modelled.
- The chat client: presence updates, `get_channel`/`fetch_channel`, sending, `bot.run` and `on_ready` (lines 12-13, 81, 106-112, 134-138, 153-161). Channel resolution is an input (`Found` or `NotFound`). Errors other than `NotFound` and send failures are not modelled. `Delivered` lists the messages the run sends, in order.
- `asyncio.sleep` delays and the 24-hour `tasks.loop` repetition (lines 43, 69, 140, 150). The model covers one run. The delays affect only timing. An exception that escapes a run (a `Crashed` run) also ends the repetition: the `discord.ext.tasks` loop stops on an unhandled exception, and no later run happens. That library is not part of this model.
- `print` logging, including the `count` and `not_found` variables of the filter loop, which only feed log lines.
- Schedule.NextWait: the float `total_seconds()` is replaced by an exact count of microseconds. pytz is replaced by a clock with no daylight saving time, which is the case for Asia/Seoul.
- JSON numbers with a fraction. The values have integers only, so a float discount or price is not modelled.
- Digest.Line: a price that is a JSON list or object is shown as a placeholder, not as Python's `repr` of it.
