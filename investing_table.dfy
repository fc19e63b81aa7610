/**
 * `scrape_investing_price` of the Investing.com scrapers (the price script and its
 * verbatim copy, the technical script): the rows of the page's major-indices table that
 * have at least one cell per header, cut to that many stripped cells, saved under the
 * named headers. The browser is an input: `None` when waiting for or reading the table
 * raised, otherwise the text of every cell of every body row.
 */
module InvestingTable {
  import opened Wrappers
  import opened Frames
  import Text
  import C = TradingViewComponents

  /** `self.price_headers`: the first cell of a row has no name. */
  const PriceHeaders: seq<string> := ["", "Name", "Last", "High", "Low", "Chg.", "Chg. %", "Time"]

  /** The CSV both scripts write, and the sheet both upload it to. */
  const PriceCsv: string := "investing_indices_price.csv"
  const PriceSheet: string := "investing_price"

  /** Headers the frame steps accept: distinct, at least one, none called `Last Updated`. */
  predicate PriceLayout(hs: seq<string>) {
    Distinct(hs) && |hs| >= 1 && "Last Updated" !in hs
  }

  lemma PriceHeadersLayout()
    ensures PriceLayout(PriceHeaders) && |PriceHeaders| == 8
    ensures PriceHeaders[1..] == ["Name", "Last", "High", "Low", "Chg.", "Chg. %", "Time"]
  {
  }

  /** The first `w` cells of a row, each stripped (line 71). */
  function Truncated(cells: seq<string>, w: nat): (r: seq<string>)
    requires w <= |cells|
    ensures |r| == w
  {
    seq(w, j requires 0 <= j < w => Text.Strip(cells[j]))
  }

  /** The rows of `rows` with at least `w` cells, each truncated, in page order. */
  function Kept(rows: seq<seq<string>>, w: nat): seq<seq<string>> {
    if |rows| == 0 then []
    else
      var n := |rows| - 1;
      Kept(rows[..n], w) + (if |rows[n]| >= w then [Truncated(rows[n], w)] else [])
  }

  /** Lines 67-71: `table_data` built by the loop with its conditional append. */
  method CollectRows(rows: seq<seq<string>>, w: nat) returns (table: seq<seq<string>>)
    ensures table == Kept(rows, w)
  {
    table := [];
    for k := 0 to |rows|
      invariant table == Kept(rows[..k], w)
    {
      assert rows[..k + 1][..k] == rows[..k];
      if |rows[k]| >= w {
        table := table + [Truncated(rows[k], w)];
      }
    }
    assert rows[..|rows|] == rows;
  }

  /** Every kept row has exactly `w` cells. */
  lemma {:induction false} KeptWidth(rows: seq<seq<string>>, w: nat)
    ensures forall i :: 0 <= i < |Kept(rows, w)| ==> |Kept(rows, w)[i]| == w
  {
    if |rows| > 0 {
      KeptWidth(rows[..|rows| - 1], w);
    }
  }

  /** A row is kept exactly when it is the truncation of a page row with enough cells. */
  lemma {:induction false} KeptMembers(rows: seq<seq<string>>, w: nat, x: seq<string>)
    ensures x in Kept(rows, w) <==>
      exists i :: 0 <= i < |rows| && |rows[i]| >= w && x == Truncated(rows[i], w)
  {
    if |rows| > 0 {
      var n := |rows| - 1;
      var front := rows[..n];
      KeptMembers(front, w, x);
      assert forall i :: 0 <= i < n ==> front[i] == rows[i];
    }
  }

  /** Splitting the page splits the kept rows: their order is the page order. */
  lemma {:induction false} KeptAppend(a: seq<seq<string>>, b: seq<seq<string>>, w: nat)
    ensures Kept(a + b, w) == Kept(a, w) + Kept(b, w)
  {
    if |b| == 0 {
      assert a + b == a;
    } else {
      var n := |b| - 1;
      KeptAppend(a, b[..n], w);
      assert (a + b)[..|a + b| - 1] == a + b[..n];
      assert (a + b)[|a + b| - 1] == b[n];
    }
  }

  /** When every row is wide enough, each is kept, in place, so the count is the page's. */
  lemma {:induction false} KeptAll(rows: seq<seq<string>>, w: nat)
    requires forall i :: 0 <= i < |rows| ==> |rows[i]| >= w
    ensures |Kept(rows, w)| == |rows|
    ensures forall i :: 0 <= i < |rows| ==> Kept(rows, w)[i] == Truncated(rows[i], w)
  {
    if |rows| > 0 {
      var n := |rows| - 1;
      var front := rows[..n];
      KeptAll(front, w);
      var kept := Kept(front, w);
      assert Kept(rows, w) == kept + [Truncated(rows[n], w)];
      forall i | 0 <= i < n ensures Kept(rows, w)[i] == Truncated(rows[i], w) {
        assert kept[i] == Truncated(front[i], w);
        assert front[i] == rows[i];
      }
    }
  }

  /** Nothing is kept exactly when no row has enough cells (line 74). */
  lemma KeptEmpty(rows: seq<seq<string>>, w: nat)
    ensures |Kept(rows, w)| == 0 <==> forall i :: 0 <= i < |rows| ==> |rows[i]| < w
  {
    if exists i :: 0 <= i < |rows| && |rows[i]| >= w {
      var i :| 0 <= i < |rows| && |rows[i]| >= w;
      KeptMembers(rows, w, Truncated(rows[i], w));
    } else if |Kept(rows, w)| > 0 {
      KeptMembers(rows, w, Kept(rows, w)[0]);
    }
  }

  /** Text cells for a table of strings. */
  function TextRows(table: seq<seq<string>>): (r: seq<seq<Cell>>)
    ensures |r| == |table|
    ensures forall i :: 0 <= i < |table| ==> |r[i]| == |table[i]|
  {
    seq(|table|, i requires 0 <= i < |table| =>
      seq(|table[i]|, j requires 0 <= j < |table[i]| => Text(table[i][j])))
  }

  /**
   * Lines 78-83 for kept rows of width `|hs|`: the frame under `hs`, the stamp added as
   * `Last Updated`, reindexed to `hs` plus `Last Updated` with `""` for absent columns,
   * then restricted to the headers after the first.
   */
  function PriceFrame(table: seq<seq<string>>, stamp: string, hs: seq<string>): (r: Frame)
    requires PriceLayout(hs)
    requires forall i :: 0 <= i < |table| ==> |table[i]| == |hs|
    ensures r.columns == hs[1..] && WellFormed(r) && |r.rows| == |table|
  {
    var named := Frame(hs, TextRows(table));
    var stamped := SetColumn(named, "Last Updated", Text(stamp));
    var full := Reindex(stamped, hs + ["Last Updated"], Text(""));
    Select(full, hs[1..])
  }

  /** The headers with `Last Updated` appended stay distinct. */
  lemma StampedDistinct(hs: seq<string>)
    requires PriceLayout(hs)
    ensures Distinct(hs + ["Last Updated"])
  {
    var cs := hs + ["Last Updated"];
    forall a, b | 0 <= a < b < |cs| ensures cs[a] != cs[b] {
      if b == |hs| {
        assert cs[a] == hs[a] && hs[a] in hs;
      } else {
        assert cs[a] == hs[a] && cs[b] == hs[b];
      }
    }
  }

  /** Each saved cell is the table cell one place to the right: the unnamed first one goes. */
  lemma PriceFrameCells(table: seq<seq<string>>, stamp: string, hs: seq<string>, i: int, j: int)
    requires PriceLayout(hs)
    requires forall k :: 0 <= k < |table| ==> |table[k]| == |hs|
    requires 0 <= i < |table| && 0 <= j < |hs| - 1
    ensures PriceFrame(table, stamp, hs).rows[i][j] == Text(table[i][j + 1])
  {
    var named := Frame(hs, TextRows(table));
    var stamped := SetColumn(named, "Last Updated", Text(stamp));
    assert stamped.columns == hs + ["Last Updated"];
    StampedDistinct(hs);
    ReindexSame(stamped, Text(""));
    IndexOfDistinct(stamped.columns, j + 1);
    assert hs[1..][j] == stamped.columns[j + 1];
    assert hs[j + 1] != "Last Updated" by {
      assert hs[j + 1] in hs;
    }
  }

  /**
   * `scrape_investing_price`: `None` when the table could not be read or no row has a
   * cell per header, otherwise the CSV write of the kept rows under the named headers.
   */
  function ScrapeSpec(page: Option<seq<seq<string>>>, stamp: string, hs: seq<string>): Option<C.CsvWrite>
    requires PriceLayout(hs)
  {
    if page.None? then None
    else
      var table := Kept(page.value, |hs|);
      if |table| == 0 then None
      else
        KeptWidth(page.value, |hs|);
        Some(C.CsvWrite(PriceCsv, PriceFrame(table, stamp, hs)))
  }

  /** Lines 60-92, with the page read by the browser given as `page`. */
  method ScrapeInvestingPrice(page: Option<seq<seq<string>>>, stamp: string, hs: seq<string>)
    returns (out: Option<C.CsvWrite>)
    requires PriceLayout(hs)
    ensures out == ScrapeSpec(page, stamp, hs)
  {
    if page.None? {
      return None;
    }
    var table := CollectRows(page.value, |hs|);
    if |table| == 0 {
      return None;
    }
    KeptWidth(page.value, |hs|);
    out := Some(C.CsvWrite(PriceCsv, PriceFrame(table, stamp, hs)));
  }

  /** Nothing is saved exactly when the page failed or no row has a cell per header. */
  lemma ScrapeNothing(page: Option<seq<seq<string>>>, stamp: string, hs: seq<string>)
    requires PriceLayout(hs)
    ensures ScrapeSpec(page, stamp, hs).None? <==>
      page.None? || forall i :: 0 <= i < |page.value| ==> |page.value[i]| < |hs|
  {
    if page.Some? {
      KeptEmpty(page.value, |hs|);
    }
  }

  /**
   * A saved table goes to `investing_indices_price.csv` under the headers after the first,
   * one row per kept page row in the same order, each saved cell holding the kept cell one
   * place to the right (the unnamed first cell and `Last Updated` are gone).
   */
  lemma ScrapeSaved(page: Option<seq<seq<string>>>, stamp: string, hs: seq<string>, i: int, j: int)
    requires PriceLayout(hs) && ScrapeSpec(page, stamp, hs).Some?
    requires 0 <= i < |Kept(page.value, |hs|)| && 0 <= j < |hs| - 1
    ensures ScrapeSpec(page, stamp, hs).value.file == PriceCsv
    ensures ScrapeSpec(page, stamp, hs).value.frame.columns == hs[1..]
    ensures |ScrapeSpec(page, stamp, hs).value.frame.rows| == |Kept(page.value, |hs|)|
    ensures ScrapeSpec(page, stamp, hs).value.frame.rows[i][j] == Text(Kept(page.value, |hs|)[i][j + 1])
  {
    var table := Kept(page.value, |hs|);
    KeptWidth(page.value, |hs|);
    assert ScrapeSpec(page, stamp, hs).value == C.CsvWrite(PriceCsv, PriceFrame(table, stamp, hs));
    PriceFrameCells(table, stamp, hs, i, j);
  }

  /** A kept cell is the stripped text of the page cell in the same place of some wide row. */
  lemma KeptCell(rows: seq<seq<string>>, w: nat, i: int, j: int)
    requires 0 <= i < |Kept(rows, w)| && 0 <= j < |Kept(rows, w)[i]|
    ensures exists r :: 0 <= r < |rows| && |rows[r]| >= w && j < |rows[r]| && Kept(rows, w)[i][j] == Text.Strip(rows[r][j])
  {
    KeptWidth(rows, w);
    KeptMembers(rows, w, Kept(rows, w)[i]);
    var r :| 0 <= r < |rows| && |rows[r]| >= w && Kept(rows, w)[i] == Truncated(rows[r], w);
    assert Truncated(rows[r], w)[j] == Text.Strip(rows[r][j]);
  }

  /** The outcome of one run of either script: the sheet upload, if any. */
  datatype Upload = Upload(file: string, sheet: string)

  /** Lines 95-108: the CSV is uploaded to the `investing_price` sheet only when one was written. */
  function RunScript(page: Option<seq<seq<string>>>, stamp: string): (r: Option<Upload>)
  {
    PriceHeadersLayout();
    match ScrapeSpec(page, stamp, PriceHeaders)
    case None => None
    case Some(w) => Some(Upload(w.file, PriceSheet))
  }

  /** A run uploads exactly when a CSV was written, always the same file to the same sheet. */
  lemma RunUploads(page: Option<seq<seq<string>>>, stamp: string)
    ensures PriceLayout(PriceHeaders)
    ensures RunScript(page, stamp).Some? <==> ScrapeSpec(page, stamp, PriceHeaders).Some?
    ensures RunScript(page, stamp).Some? ==> RunScript(page, stamp).value == Upload(PriceCsv, PriceSheet)
    ensures RunScript(page, stamp).None? <==>
      page.None? || forall i :: 0 <= i < |page.value| ==> |page.value[i]| < 8
  {
    PriceHeadersLayout();
    ScrapeNothing(page, stamp, PriceHeaders);
  }
}
