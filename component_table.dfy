/**
 * The TradingView index-components table as both TradingView scrapers shape it: the
 * scraped cell grid becomes a frame under the standard headers, with the index symbol
 * in `Pair` and the scrape time in `Last Updated`.
 */
module ComponentTable {
  import opened Wrappers
  import opened Frames
  import Text

  /** The standard headers, `Pair` first and `Last Updated` last. */
  const Headers: seq<string> := ["Pair", "Symbol", "Market cap", "Price", "Change %", "Volume", "Rel Volume",
                                 "P/E", "EPS dil", "EPS dil growth", "Div yield %", "Sector", "Analyst Rating",
                                 "Last Updated"]

  /** The index symbols, in the order the scrapers visit them. */
  const Symbols: seq<string> := ["AUS200", "ESP35", "EUSTX50", "FRA40", "GER40", "JPN225", "NAS100",
                                 "SPX500", "UK100", "US30"]

  /** TradingView's identifier for each index symbol. */
  const SymbolMap: map<string, string> := map[
    "AUS200" := "ASX-XJO", "ESP35" := "BME-IBC", "EUSTX50" := "TVC-SX5E", "FRA40" := "EURONEXT-PX1",
    "GER40" := "XETR-DAX", "JPN225" := "INDEX-NKY", "NAS100" := "NASDAQ-NDX", "SPX500" := "SPX",
    "UK100" := "FTSE-UKX", "US30" := "DJ-DJI"]

  lemma HeadersDistinct()
    ensures Distinct(Headers) && |Headers| == 14
    ensures Headers[0] == "Pair" && Headers[1] == "Symbol" && Headers[13] == "Last Updated"
  {
  }

  /** `symbol_map.get(symbol, symbol)`: the mapped identifier, or the symbol itself. */
  function TradingViewId(symbol: string): (id: string)
    ensures symbol in SymbolMap ==> id == SymbolMap[symbol]
    ensures symbol !in SymbolMap ==> id == symbol
  {
    if symbol in SymbolMap then SymbolMap[symbol] else symbol
  }

  /** Every visited symbol has its own identifier. */
  lemma SymbolsMapped()
    ensures forall s :: s in Symbols <==> s in SymbolMap
  {
  }

  /** The cell texts of every table row, each `strip()`ped. */
  function StripCells(page: seq<seq<string>>): (grid: seq<seq<string>>)
    ensures |grid| == |page|
    ensures forall i :: 0 <= i < |page| ==>
      (|grid[i]| == |page[i]| && forall j :: 0 <= j < |page[i]| ==> grid[i][j] == Text.Strip(page[i][j]))
  {
    seq(|page|, i requires 0 <= i < |page| =>
      seq(|page[i]|, j requires 0 <= j < |page[i]| => Text.Strip(page[i][j])))
  }

  /** `not table_data or not any(table_data)`: no row has a cell. */
  predicate NoData(grid: seq<seq<string>>) {
    forall i :: 0 <= i < |grid| ==> |grid[i]| == 0
  }

  /** `max(len(row) for row in table_data)`, 0 for no rows. */
  function MaxCols(grid: seq<seq<string>>): (m: nat)
    ensures forall i :: 0 <= i < |grid| ==> |grid[i]| <= m
    ensures |grid| > 0 ==> exists i :: 0 <= i < |grid| && |grid[i]| == m
  {
    if |grid| == 0 then 0
    else
      var rest := MaxCols(grid[1..]);
      assert forall i :: 1 <= i < |grid| ==> grid[i] == grid[1..][i - 1];
      if |grid[0]| >= rest then |grid[0]| else rest
  }

  /** A row as the frame constructor stores it under `width` columns: the texts, then missing cells. */
  function Pad(row: seq<string>, width: nat): (cells: seq<Cell>)
    requires |row| <= width
    ensures |cells| == width
    ensures forall j :: 0 <= j < width ==> cells[j] == if j < |row| then Text(row[j]) else Null
  {
    seq(width, j requires 0 <= j < width => if j < |row| then Text(row[j]) else Null)
  }

  /** `pd.DataFrame(table_data, columns=names)` when no row is wider than the names. */
  function GridFrame(grid: seq<seq<string>>, names: seq<string>): (f: Frame)
    requires forall i :: 0 <= i < |grid| ==> |grid[i]| <= |names|
    ensures f.columns == names && WellFormed(f) && |f.rows| == |grid|
    ensures forall i :: 0 <= i < |grid| ==> f.rows[i] == Pad(grid[i], |names|)
  {
    Frame(names, seq(|grid|, i requires 0 <= i < |grid| => Pad(grid[i], |names|)))
  }

  /** A header list of the standard form: distinct names, `Pair` first, `Last Updated` last. */
  predicate StandardHeaders(hs: seq<string>) {
    Distinct(hs) && |hs| >= 2 && hs[0] == "Pair" && hs[|hs| - 1] == "Last Updated"
  }

  lemma HeadersStandard()
    ensures StandardHeaders(Headers) && |Headers| == 14 && Headers[1] == "Symbol"
  {
  }

  /** A grid the frame constructor accepts: one row has a cell, none is wider than the data headers. */
  predicate Shapeable(grid: seq<seq<string>>, hs: seq<string>) {
    !NoData(grid) && MaxCols(grid) <= |hs| - 1
  }

  /** The data columns named `hs[1 : max_cols + 1]`, with `Pair` inserted first. */
  function PairFrame(symbol: string, grid: seq<seq<string>>, hs: seq<string>): (f: Frame)
    requires Shapeable(grid, hs)
    ensures WellFormed(f) && |f.rows| == |grid|
    ensures f.columns == ["Pair"] + hs[1..MaxCols(grid) + 1]
    ensures forall i :: 0 <= i < |grid| ==> f.rows[i] == [Text(symbol)] + Pad(grid[i], MaxCols(grid))
  {
    InsertFirst(GridFrame(grid, hs[1..MaxCols(grid) + 1]), "Pair", Text(symbol))
  }

  /** The frame before the final reindex: `Last Updated` set on the `Pair` frame. */
  function Stamped(symbol: string, grid: seq<seq<string>>, stamp: string, hs: seq<string>): (f: Frame)
    requires Shapeable(grid, hs)
    ensures WellFormed(f) && |f.rows| == |grid|
  {
    SetColumn(PairFrame(symbol, grid, hs), "Last Updated", Text(stamp))
  }

  /**
   * Lines 91-102 of scraping.py (and 93-98 of the overview scraper): the data columns
   * are named `hs[1 : max_cols + 1]`, `Pair` is inserted first, `Last Updated` is set,
   * and the frame is reindexed to `hs` with `fill`. `None` when the source returns the
   * empty frame or skips the symbol instead.
   */
  function ShapeGrid(symbol: string, grid: seq<seq<string>>, stamp: string, fill: Cell, hs: seq<string>)
    : (r: Option<Frame>)
    ensures r.Some? <==> Shapeable(grid, hs)
    ensures r.Some? ==> r.value.columns == hs && WellFormed(r.value) && |r.value.rows| == |grid|
  {
    if !Shapeable(grid, hs) then None
    else Some(Reindex(Stamped(symbol, grid, stamp, hs), hs, fill))
  }

  /** The `Pair` frame's columns are the first headers. */
  lemma PairColumns(symbol: string, grid: seq<seq<string>>, hs: seq<string>)
    requires StandardHeaders(hs) && Shapeable(grid, hs)
    ensures PairFrame(symbol, grid, hs).columns == hs[..MaxCols(grid) + 1]
  {
    var m := MaxCols(grid);
    assert hs[..m + 1] == [hs[0]] + hs[1..m + 1];
  }

  /** A distinct list's first `n` names followed by its last name. */
  lemma PrefixAndLast(hs: seq<string>, n: nat)
    requires Distinct(hs) && 0 < n < |hs|
    ensures var cs := hs[..n] + [hs[|hs| - 1]];
      && Distinct(cs)
      && (forall h :: n <= h < |hs| - 1 ==> hs[h] !in cs)
  {
    var cs := hs[..n] + [hs[|hs| - 1]];
    assert forall k :: 0 <= k < n ==> cs[k] == hs[k];
    assert cs[n] == hs[|hs| - 1];
  }

  /** The columns before the reindex: all headers, or the first ones followed by `Last Updated`. */
  lemma StampedColumnList(symbol: string, grid: seq<seq<string>>, stamp: string, hs: seq<string>)
    requires StandardHeaders(hs) && Shapeable(grid, hs)
    ensures var f := Stamped(symbol, grid, stamp, hs);
      if MaxCols(grid) == |hs| - 1 then f.columns == hs
      else f.columns == hs[..MaxCols(grid) + 1] + [hs[|hs| - 1]]
  {
    var m := MaxCols(grid);
    PairColumns(symbol, grid, hs);
    if m < |hs| - 1 {
      PrefixAndLast(hs, m + 1);
      assert hs[..m + 1] + [hs[|hs| - 1]] == hs[..m + 1] + [hs[|hs| - 1]];
      assert hs[|hs| - 1] !in hs[..m + 1];
    }
  }

  /** A data header past the widest row is not a column before the reindex. */
  lemma StampedDropped(symbol: string, grid: seq<seq<string>>, stamp: string, hs: seq<string>, h: int)
    requires StandardHeaders(hs) && Shapeable(grid, hs) && MaxCols(grid) < h < |hs| - 1
    ensures hs[h] !in Stamped(symbol, grid, stamp, hs).columns
  {
    StampedColumnList(symbol, grid, stamp, hs);
    PrefixAndLast(hs, MaxCols(grid) + 1);
  }

  /** The stamped frame's columns are distinct. */
  lemma StampedDistinct(symbol: string, grid: seq<seq<string>>, stamp: string, hs: seq<string>)
    requires StandardHeaders(hs) && Shapeable(grid, hs)
    ensures Distinct(Stamped(symbol, grid, stamp, hs).columns)
  {
    StampedColumnList(symbol, grid, stamp, hs);
    if MaxCols(grid) < |hs| - 1 {
      PrefixAndLast(hs, MaxCols(grid) + 1);
    }
  }

  /**
   * What each cell of a shaped frame holds: the symbol under `Pair`, the time under
   * `Last Updated`, the row's c-th text under the c-th data header, a missing cell
   * where the row is shorter than the widest row, and `fill` past the widest row.
   */
  lemma ShapeGridCells(symbol: string, grid: seq<seq<string>>, stamp: string, fill: Cell, hs: seq<string>,
                       i: int, h: int)
    requires StandardHeaders(hs) && Shapeable(grid, hs) && 0 <= i < |grid| && 0 <= h < |hs|
    ensures ShapeGrid(symbol, grid, stamp, fill, hs).value.rows[i][h] ==
      if h == 0 then Text(symbol)
      else if h == |hs| - 1 then Text(stamp)
      else if h - 1 < |grid[i]| then Text(grid[i][h - 1])
      else if h <= MaxCols(grid) then Null
      else fill
  {
    var f := Stamped(symbol, grid, stamp, hs);
    assert ShapeGrid(symbol, grid, stamp, fill, hs).value.rows[i][h] == CellOr(f.columns, f.rows[i], hs[h], fill);
    if h < |hs| - 1 && h > MaxCols(grid) {
      StampedDropped(symbol, grid, stamp, hs, h);
    } else {
      var c := StampedCell(symbol, grid, stamp, hs, i, h);
    }
  }

  /** The cell of the stamped frame under header `h`, for the headers it holds. */
  lemma StampedCell(symbol: string, grid: seq<seq<string>>, stamp: string, hs: seq<string>, i: int, h: int)
    returns (c: Cell)
    requires StandardHeaders(hs) && Shapeable(grid, hs) && 0 <= i < |grid| && 0 <= h < |hs|
    requires h == |hs| - 1 || h <= MaxCols(grid)
    ensures var f := Stamped(symbol, grid, stamp, hs);
      hs[h] in f.columns && f.rows[i][IndexOf(f.columns, hs[h])] == c
    ensures c == if h == 0 then Text(symbol)
      else if h == |hs| - 1 then Text(stamp)
      else if h - 1 < |grid[i]| then Text(grid[i][h - 1])
      else Null
  {
    var f := Stamped(symbol, grid, stamp, hs);
    if h == |hs| - 1 {
      StampedLast(symbol, grid, stamp, hs);
      c := Text(stamp);
    } else {
      StampedDistinct(symbol, grid, stamp, hs);
      c := StampedFront(symbol, grid, stamp, hs, i, h);
      IndexOfDistinct(f.columns, h);
    }
  }

  /** `Last Updated` is a column of the stamped frame and holds the time. */
  lemma StampedLast(symbol: string, grid: seq<seq<string>>, stamp: string, hs: seq<string>)
    requires Shapeable(grid, hs)
    ensures var f := Stamped(symbol, grid, stamp, hs);
      && "Last Updated" in f.columns
      && forall i :: 0 <= i < |f.rows| ==> f.rows[i][IndexOf(f.columns, "Last Updated")] == Text(stamp)
  {
    var p := PairFrame(symbol, grid, hs);
    assert Stamped(symbol, grid, stamp, hs) == SetColumn(p, "Last Updated", Text(stamp));
  }

  /** A cell of the stamped frame in one of its leading columns: the symbol, or the padded row. */
  lemma StampedFront(symbol: string, grid: seq<seq<string>>, stamp: string, hs: seq<string>, i: int, h: int)
    returns (c: Cell)
    requires StandardHeaders(hs) && Shapeable(grid, hs) && 0 <= i < |grid| && 0 <= h <= MaxCols(grid)
    requires h < |hs| - 1
    ensures var f := Stamped(symbol, grid, stamp, hs);
      h < |f.columns| && f.columns[h] == hs[h] && f.rows[i][h] == c
    ensures c == if h == 0 then Text(symbol)
      else if h - 1 < |grid[i]| then Text(grid[i][h - 1])
      else Null
  {
    var p := PairFrame(symbol, grid, hs);
    c := PairCell(symbol, grid, hs, i, h);
    SetColumnKeeps(p, "Last Updated", Text(stamp), i, h);
  }

  /** A cell of the `Pair` frame: the symbol, or the padded row. */
  lemma PairCell(symbol: string, grid: seq<seq<string>>, hs: seq<string>, i: int, h: int)
    returns (c: Cell)
    requires StandardHeaders(hs) && Shapeable(grid, hs) && 0 <= i < |grid| && 0 <= h <= MaxCols(grid)
    requires h < |hs| - 1
    ensures var p := PairFrame(symbol, grid, hs);
      h < |p.columns| && p.columns[h] == hs[h] && hs[h] != "Last Updated" && p.rows[i][h] == c
    ensures c == if h == 0 then Text(symbol)
      else if h - 1 < |grid[i]| then Text(grid[i][h - 1])
      else Null
  {
    PairColumns(symbol, grid, hs);
    var p := PairFrame(symbol, grid, hs);
    assert hs[h] != hs[|hs| - 1];
    assert p.rows[i] == [Text(symbol)] + Pad(grid[i], MaxCols(grid));
    c := p.rows[i][h];
  }
}
