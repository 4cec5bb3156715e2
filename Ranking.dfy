/** The ranking fetcher (`get_top_games`): reads the ranking site's pages
    1, 2, 3, ... in order and collects the first `limit` games listed on them.
    Pages arrive already fetched and parsed: a page is the list of its table
    rows, a row the list of its cells. */
module Ranking {
  import Text

  /** A table cell: the `href` of its anchor and its text. */
  datatype Cell = Cell(href: string, text: string)

  type Row = seq<Cell>

  type Page = seq<Row>

  /** A ranked game: its storefront id and its display name. */
  datatype Game = Game(appId: string, name: string)

  /** A row the scraper reads: one with at least two cells. */
  predicate Readable(row: Row) {
    |row| >= 2
  }

  /** The game a readable row names, taken from its second cell: the id is the
      last `/`-separated segment of the link, the name the trimmed text. */
  function Entry(row: Row): Game
    requires Readable(row)
  {
    Game(Text.LastSegment(row[1].href), Text.Strip(row[1].text))
  }

  /** The rows of a page below its header row. */
  function DataRows(page: Page): seq<Row> {
    if page == [] then [] else page[1..]
  }

  /** The games listed by `rows`, in order, skipping unreadable rows. */
  function RowGames(rows: seq<Row>): seq<Game> {
    if rows == [] then []
    else
      var last := rows[|rows| - 1];
      RowGames(rows[..|rows| - 1]) + (if Readable(last) then [Entry(last)] else [])
  }

  /** Every game the pages list, page after page, in rank order. */
  function Ranked(pages: seq<Page>): seq<Game> {
    if pages == [] then []
    else Ranked(pages[..|pages| - 1]) + RowGames(DataRows(pages[|pages| - 1]))
  }

  /** The first `n` elements of `s`, or all of `s` when it is shorter. */
  function Take<T>(s: seq<T>, n: nat): (r: seq<T>)
    ensures |r| <= n
  {
    if |s| <= n then s else s[..n]
  }

  lemma SliceAppend<T>(a: seq<T>, b: seq<T>, k: nat)
    requires k <= |b|
    ensures (a + b)[..|a| + k] == a + b[..k]
  {
  }

  /** The games of a prefix of the rows are a prefix of the games of all
      rows. */
  lemma {:induction false} RowGamesPrefix(rows: seq<Row>, j: nat)
    requires j <= |rows|
    ensures |RowGames(rows[..j])| <= |RowGames(rows)|
    ensures RowGames(rows)[..|RowGames(rows[..j])|] == RowGames(rows[..j])
  {
    if j < |rows| {
      assert rows[..|rows| - 1][..j] == rows[..j];
      RowGamesPrefix(rows[..|rows| - 1], j);
    } else {
      assert rows[..j] == rows;
    }
  }

  /** The games of the first `p` pages are a prefix of the games of all
      pages. */
  lemma {:induction false} RankedPrefix(pages: seq<Page>, p: nat)
    requires p <= |pages|
    ensures |Ranked(pages[..p])| <= |Ranked(pages)|
    ensures Ranked(pages)[..|Ranked(pages[..p])|] == Ranked(pages[..p])
  {
    if p < |pages| {
      assert pages[..|pages| - 1][..p] == pages[..p];
      RankedPrefix(pages[..|pages| - 1], p);
    } else {
      assert pages[..p] == pages;
    }
  }

  /** A readable row `rows[j]` is followed in the listing by its entry. */
  lemma RowGamesStep(rows: seq<Row>, j: nat)
    requires j < |rows|
    ensures RowGames(rows[..j + 1]) == RowGames(rows[..j]) + (if Readable(rows[j]) then [Entry(rows[j])] else [])
  {
    assert rows[..j + 1][..j] == rows[..j];
  }

  lemma RankedStep(pages: seq<Page>, p: nat)
    requires p < |pages|
    ensures Ranked(pages[..p + 1]) == Ranked(pages[..p]) + RowGames(DataRows(pages[p]))
  {
    assert pages[..p + 1][..p] == pages[..p];
  }

  /** Every entry's id is free of `/`: it is the tail of the link after its
      last `/`. */
  lemma {:induction false} RankedIdsHaveNoSlash(pages: seq<Page>)
    ensures forall k :: 0 <= k < |Ranked(pages)| ==> Text.NoSlash(Ranked(pages)[k].appId)
  {
    if pages != [] {
      RankedIdsHaveNoSlash(pages[..|pages| - 1]);
      RowGamesIdsHaveNoSlash(DataRows(pages[|pages| - 1]));
    }
  }

  lemma {:induction false} RowGamesIdsHaveNoSlash(rows: seq<Row>)
    ensures forall k :: 0 <= k < |RowGames(rows)| ==> Text.NoSlash(RowGames(rows)[k].appId)
  {
    if rows != [] {
      RowGamesIdsHaveNoSlash(rows[..|rows| - 1]);
      var last := rows[|rows| - 1];
      if Readable(last) {
        Text.LastSegmentSpec(last[1].href);
      }
    }
  }

  /** The `for row in ...` loop of `get_top_games` over one page's data rows:
      appends the entries of readable rows to `games` and stops as soon as
      `games` holds `limit` entries. */
  method ScanRows(games: seq<Game>, rows: seq<Row>, limit: nat) returns (out: seq<Game>)
    requires |games| < limit
    ensures out == Take(games + RowGames(rows), limit)
  {
    out := games;
    var j := 0;
    while j < |rows|
      invariant j <= |rows|
      invariant |out| < limit
      invariant out == games + RowGames(rows[..j])
    {
      var cols := rows[j];
      if |cols| < 2 {
        assert out == games + RowGames(rows[..j + 1]) by { RowGamesStep(rows, j); }
        j := j + 1;
        continue;
      }
      out := out + [Entry(cols)];
      assert out == games + RowGames(rows[..j + 1]) by { RowGamesStep(rows, j); }
      if |out| >= limit {
        ScanStops(games, rows, j + 1, limit);
        return;
      }
      j := j + 1;
    }
    assert rows[..j] == rows;
  }

  /** Once the rows scanned so far fill `games` up to `limit`, the rest of
      the page cannot change the first `limit` entries. */
  lemma ScanStops(games: seq<Game>, rows: seq<Row>, j: nat, limit: nat)
    requires j <= |rows|
    requires |games + RowGames(rows[..j])| == limit
    ensures games + RowGames(rows[..j]) == Take(games + RowGames(rows), limit)
  {
    RowGamesPrefix(rows, j);
    SliceAppend(games, RowGames(rows), |RowGames(rows[..j])|);
  }

  /** `get_top_games(limit)` over `pages`. The source requests further pages
      for as long as it has fewer than `limit` games; `complete` is false
      when the given pages run out first, where the source would keep paging.
      `fetched` is the number of pages read. */
  method GetTopGames(pages: seq<Page>, limit: nat) returns (games: seq<Game>, fetched: nat, complete: bool)
    ensures games == Take(Ranked(pages), limit)
    ensures complete <==> |games| == limit
    ensures !complete ==> fetched == |pages|
    ensures fetched <= |pages|
    ensures complete ==> |Ranked(pages[..fetched])| >= limit
    ensures fetched > 0 ==> |Ranked(pages[..fetched - 1])| < limit
  {
    games := [];
    var page := 0;
    while |games| < limit && page < |pages|
      invariant page <= |pages|
      invariant games == Take(Ranked(pages[..page]), limit)
      invariant page > 0 ==> |Ranked(pages[..page - 1])| < limit
    {
      RankedStep(pages, page);
      games := ScanRows(games, DataRows(pages[page]), limit);
      page := page + 1;
    }
    fetched := page;
    complete := |games| == limit;
    RankedPrefix(pages, page);
    assert pages[..|pages|] == pages;
  }
}
