/**
 * `TradingViewScraper` of scraping.py: one components table per index symbol, shaped
 * under the standard headers, then all symbols concatenated and rows without a
 * `Symbol` dropped. The browser is an input: for each symbol, either navigating to the
 * page failed (`driver.get`, which runs before the `try` and so ends the whole run),
 * or reading the table raised inside the `try`, or the raw cell texts of its table
 * rows and the scrape time.
 */
module TradingViewComponents {
  import opened Wrappers
  import opened Frames
  import opened ComponentTable

  /**
   * What the browser produced for one symbol: `Unreachable` when `driver.get` raised
   * (outside any handler), `Failed` when the `try` block raised.
   */
  datatype PageScrape = Unreachable | Failed | Page(cells: seq<seq<string>>, stamp: string)

  /** Every page of the run was navigated to, so no exception escapes the loop. */
  predicate Reached(pages: seq<PageScrape>) {
    forall k :: 0 <= k < |pages| ==> !pages[k].Unreachable?
  }

  /** A CSV file written with the given frame. */
  datatype CsvWrite = CsvWrite(file: string, frame: Frame)

  const ComponentsCsv := "tradingview_indices_components.csv"

  /** `pd.DataFrame(columns=self.headers)`: the headers and no rows. */
  function EmptyComponents(hs: seq<string>): Frame {
    Frame(hs, [])
  }

  /** Header lists of the standard form with `Symbol` second, as `self.headers` is. */
  predicate ComponentHeaders(hs: seq<string>) {
    StandardHeaders(hs) && hs[1] == "Symbol"
  }

  /**
   * `scrape_symbol_component`: the stripped cell grid shaped under the headers with
   * missing columns filled with `N/A`; the empty frame for a page whose `try` block
   * raised, a grid with no cell, or a row wider than the headers after `Pair`. A failed
   * navigation raises out of the method: no frame at all.
   */
  function ScrapeSymbolComponent(hs: seq<string>, symbol: string, page: PageScrape): (r: Option<Frame>)
    ensures r.None? <==> page.Unreachable?
    ensures r.Some? ==> r.value.columns == hs && WellFormed(r.value)
  {
    match page
    case Unreachable => None
    case Failed => Some(EmptyComponents(hs))
    case Page(cells, stamp) =>
      match ShapeGrid(symbol, StripCells(cells), stamp, Text("N/A"), hs)
      case None => Some(EmptyComponents(hs))
      case Some(g) => Some(g)
  }

  /** A symbol's frame has rows exactly when its page loaded and its grid can be shaped, one per table row. */
  lemma ScrapeSymbolRows(hs: seq<string>, symbol: string, page: PageScrape)
    ensures var r := ScrapeSymbolComponent(hs, symbol, page);
      r.Some? ==>
        && (|r.value.rows| > 0 <==> page.Page? && Shapeable(StripCells(page.cells), hs))
        && (|r.value.rows| > 0 ==> |r.value.rows| == |page.cells|)
  {
    if page.Page? && Shapeable(StripCells(page.cells), hs) {
      var grid := StripCells(page.cells);
      assert !NoData(grid);
      assert |grid| > 0;
    }
  }

  /** A row with more cells than the 13 headers after `Pair` makes the symbol yield the empty frame. */
  lemma WideRowRejected(hs: seq<string>, symbol: string, cells: seq<seq<string>>, stamp: string, i: int)
    requires 0 <= i < |cells| && |cells[i]| > |hs| - 1
    ensures ScrapeSymbolComponent(hs, symbol, Page(cells, stamp)) == Some(EmptyComponents(hs))
  {
    var grid := StripCells(cells);
    assert |grid[i]| == |cells[i]|;
    assert MaxCols(grid) >= |grid[i]|;
  }

  /**
   * The cells of a shaped symbol: `Pair` is the symbol, `Last Updated` the scrape time
   * on every row, the c-th data header holds the row's c-th stripped text, shorter rows
   * are padded with missing cells up to the widest row, and headers past it are `N/A`.
   */
  lemma ScrapeSymbolCells(hs: seq<string>, symbol: string, cells: seq<seq<string>>, stamp: string, i: int, h: int)
    requires ComponentHeaders(hs) && Shapeable(StripCells(cells), hs) && 0 <= i < |cells| && 0 <= h < |hs|
    ensures var f := ScrapeSymbolComponent(hs, symbol, Page(cells, stamp)).value;
      f.rows[i][h] ==
        if h == 0 then Text(symbol)
        else if h == |hs| - 1 then Text(stamp)
        else if h - 1 < |cells[i]| then Text(Text.Strip(cells[i][h - 1]))
        else if h <= MaxCols(StripCells(cells)) then Null
        else Text("N/A")
  {
    ShapeGridCells(symbol, StripCells(cells), stamp, Text("N/A"), hs, i, h);
  }

  /** A shaped row has a `Symbol` exactly when its table row had at least one cell. */
  lemma SymbolPresent(hs: seq<string>, symbol: string, cells: seq<seq<string>>, stamp: string, i: int)
    requires ComponentHeaders(hs) && Shapeable(StripCells(cells), hs) && 0 <= i < |cells|
    ensures var f := ScrapeSymbolComponent(hs, symbol, Page(cells, stamp)).value;
      !f.rows[i][1].Null? <==> |cells[i]| > 0
  {
    var grid := StripCells(cells);
    assert !NoData(grid);
    var w :| 0 <= w < |grid| && |grid[w]| > 0;
    assert MaxCols(grid) >= 1;
    ScrapeSymbolCells(hs, symbol, cells, stamp, i, 1);
  }

  /** The per-symbol frames, in the order the symbols are visited. */
  function SymbolFrames(symbols: seq<string>, hs: seq<string>, pages: seq<PageScrape>): (frames: seq<Frame>)
    requires |pages| == |symbols| && Reached(pages)
    ensures |frames| == |symbols|
    ensures forall k :: 0 <= k < |frames| ==> Some(frames[k]) == ScrapeSymbolComponent(hs, symbols[k], pages[k])
  {
    seq(|symbols|, k requires 0 <= k < |symbols| => ScrapeSymbolComponent(hs, symbols[k], pages[k]).value)
  }

  /** `~df_final["Symbol"].isnull()`. */
  function HasSymbol(columns: seq<string>): seq<Cell> -> bool {
    var s := IndexOf(columns, "Symbol");
    (r: seq<Cell>) => !(0 <= s < |r| && r[s].Null?)
  }

  /**
   * `scrape_all`: every symbol's frame concatenated in visiting order (the keys of
   * `symbol_map`), rows with a missing `Symbol` dropped, written to the CSV whose name
   * is returned. The list of symbols is never empty, so the CSV is written whenever
   * every page was reached; a failed navigation raises out of the list comprehension,
   * and then nothing is written, the browser is not closed and no name is returned.
   */
  function ScrapeAll(symbols: seq<string>, hs: seq<string>, pages: seq<PageScrape>): (w: Option<CsvWrite>)
    requires |pages| == |symbols|
    ensures w.None? <==> exists k :: 0 <= k < |pages| && pages[k].Unreachable?
    ensures w.Some? ==> w.value.file == ComponentsCsv
  {
    if !Reached(pages) then None
    else
      var all := Concat(SymbolFrames(symbols, hs, pages));
      Some(CsvWrite(ComponentsCsv, Frame(all.columns, FilterRows(all.rows, HasSymbol(all.columns)))))
  }

  /** One page that cannot be navigated to aborts the run, whatever the other pages hold. */
  lemma UnreachableAborts(symbols: seq<string>, hs: seq<string>, pages: seq<PageScrape>, k: int)
    requires |pages| == |symbols| && 0 <= k < |pages| && pages[k].Unreachable?
    ensures ScrapeAll(symbols, hs, pages) == None
  {
    assert !Reached(pages);
  }

  /** `(r: seq<Cell>) => !r[1].Null?` on rows that have a second cell. */
  function SecondPresent(): seq<Cell> -> bool {
    (r: seq<Cell>) => !(1 < |r| && r[1].Null?)
  }

  /**
   * The saved table has exactly the headers, and its rows are the rows of the
   * per-symbol frames, in order, that have a `Symbol`.
   */
  lemma ScrapeAllShape(symbols: seq<string>, hs: seq<string>, pages: seq<PageScrape>)
    requires ComponentHeaders(hs) && |pages| == |symbols| && |symbols| > 0 && Reached(pages)
    ensures var w := ScrapeAll(symbols, hs, pages).value;
      && w.frame.columns == hs
      && w.frame.rows == FilterRows(Flatten(AllRows(SymbolFrames(symbols, hs, pages))), SecondPresent())
  {
    var frames := SymbolFrames(symbols, hs, pages);
    ConcatUniform(frames, hs);
    IndexOfDistinct(hs, 1);
    FilterSame(Flatten(AllRows(frames)), HasSymbol(hs), SecondPresent());
  }

  /** Two filters that agree on every row keep the same rows. */
  lemma {:induction false} FilterSame(rows: seq<seq<Cell>>, p: seq<Cell> -> bool, q: seq<Cell> -> bool)
    requires forall x :: x in rows ==> p(x) == q(x)
    ensures FilterRows(rows, p) == FilterRows(rows, q)
  {
    if |rows| > 0 {
      FilterSame(rows[1..], p, q);
    }
  }

  /** The shaped row `i` of the symbol at position `k`, when it had a cell. */
  predicate SavedRow(symbols: seq<string>, hs: seq<string>, pages: seq<PageScrape>, k: int, i: int, x: seq<Cell>)
    requires |pages| == |symbols|
  {
    && 0 <= k < |symbols| && pages[k].Page? && Shapeable(StripCells(pages[k].cells), hs)
    && 0 <= i < |pages[k].cells| && |pages[k].cells[i]| > 0
    && x == ScrapeSymbolComponent(hs, symbols[k], pages[k]).value.rows[i]
  }

  /** A saved row is a shaped row, with a cell, of some symbol. */
  lemma SavedOnlyShaped(symbols: seq<string>, hs: seq<string>, pages: seq<PageScrape>, x: seq<Cell>)
    requires ComponentHeaders(hs) && |pages| == |symbols| && |symbols| > 0 && Reached(pages)
    requires x in ScrapeAll(symbols, hs, pages).value.frame.rows
    ensures exists k, i :: SavedRow(symbols, hs, pages, k, i, x)
  {
    var frames := SymbolFrames(symbols, hs, pages);
    SavedInFlat(symbols, hs, pages, x);
    var k, i := InFlatFrame(frames, x);
    assert Some(frames[k]) == ScrapeSymbolComponent(hs, symbols[k], pages[k]);
    FrameRowSaved(symbols, hs, pages, k, i);
    assert SavedRow(symbols, hs, pages, k, i, x);
  }

  /** A saved row is a row of the concatenation with a `Symbol`. */
  lemma SavedInFlat(symbols: seq<string>, hs: seq<string>, pages: seq<PageScrape>, x: seq<Cell>)
    requires ComponentHeaders(hs) && |pages| == |symbols| && |symbols| > 0 && Reached(pages)
    requires x in ScrapeAll(symbols, hs, pages).value.frame.rows
    ensures x in Flatten(AllRows(SymbolFrames(symbols, hs, pages))) && SecondPresent()(x)
  {
    ScrapeAllShape(symbols, hs, pages);
  }

  /** A row of a symbol's frame that has a `Symbol` is a shaped row with a cell. */
  lemma FrameRowSaved(symbols: seq<string>, hs: seq<string>, pages: seq<PageScrape>, k: int, i: int)
    requires ComponentHeaders(hs) && |pages| == |symbols| && 0 <= k < |symbols| && !pages[k].Unreachable?
    requires var f := ScrapeSymbolComponent(hs, symbols[k], pages[k]).value;
      0 <= i < |f.rows| && SecondPresent()(f.rows[i])
    ensures SavedRow(symbols, hs, pages, k, i, ScrapeSymbolComponent(hs, symbols[k], pages[k]).value.rows[i])
  {
    ScrapeSymbolRows(hs, symbols[k], pages[k]);
    SymbolPresent(hs, symbols[k], pages[k].cells, pages[k].stamp, i);
  }

  /** Every shaped row, with a cell, of every symbol is saved. */
  lemma SavedAllShaped(symbols: seq<string>, hs: seq<string>, pages: seq<PageScrape>, x: seq<Cell>, k: int, i: int)
    requires ComponentHeaders(hs) && |pages| == |symbols| && |symbols| > 0 && Reached(pages)
    requires SavedRow(symbols, hs, pages, k, i, x)
    ensures x in ScrapeAll(symbols, hs, pages).value.frame.rows
  {
    var frames := SymbolFrames(symbols, hs, pages);
    ScrapeAllShape(symbols, hs, pages);
    ScrapeSymbolRows(hs, symbols[k], pages[k]);
    SymbolPresent(hs, symbols[k], pages[k].cells, pages[k].stamp, i);
    assert x in AllRows(frames)[k];
    FlattenRows(AllRows(frames), x);
  }

  /**
   * When every page was reached, a row is saved exactly when it is a shaped row of some
   * symbol whose table row had a cell: cell-less rows, padded to missing values, are
   * dropped, and nothing else is.
   */
  lemma ScrapeAllKeeps(symbols: seq<string>, hs: seq<string>, pages: seq<PageScrape>, x: seq<Cell>)
    requires ComponentHeaders(hs) && |pages| == |symbols| && |symbols| > 0 && Reached(pages)
    ensures x in ScrapeAll(symbols, hs, pages).value.frame.rows <==>
      exists k, i :: SavedRow(symbols, hs, pages, k, i, x)
  {
    if x in ScrapeAll(symbols, hs, pages).value.frame.rows {
      SavedOnlyShaped(symbols, hs, pages, x);
    }
    if exists k, i :: SavedRow(symbols, hs, pages, k, i, x) {
      var k, i :| SavedRow(symbols, hs, pages, k, i, x);
      SavedAllShaped(symbols, hs, pages, x, k, i);
    }
  }

  /** The scraper's own header list and symbols meet the lemmas' requirements. */
  lemma ScraperConfigured()
    ensures ComponentHeaders(Headers) && |Symbols| == 10
  {
    HeadersStandard();
  }
}
