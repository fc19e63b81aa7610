/**
 * `scrape_tradingview_overview` of scraping_tradingview_overview.py: every symbol's
 * components table shaped under the overview headers (missing columns filled with
 * `""`), the frames concatenated, then cleaned column by column: rows without a
 * `Symbol` dropped, `—` cells blanked, number columns filtered to number characters,
 * `+` signs removed, `Volume` and `Market cap` converted to numbers with their K/M/B
 * unit, and the `Symbol` cell split into `Symbol` and `Description`.
 */
module TradingViewOverview {
  import opened Wrappers
  import opened Frames
  import Text
  import Decimal
  import opened ComponentTable
  import C = TradingViewComponents

  const OverviewCsv := "tradingview_indices_components.csv"

  /** How a run ends: a CSV written, no frame to write (the name is still returned), or an exception. */
  datatype Outcome = Saved(write: C.CsvWrite) | NothingSaved(file: string) | Raised

  // ---------------------------------------------------------------------------------
  // Per-symbol frames (the loop over `symbol_map`)
  // ---------------------------------------------------------------------------------

  /**
   * What the `try` block of one iteration adds to `all_data`: nothing when it raised,
   * for an empty grid or for a too-wide row. An unreachable page adds nothing either,
   * but the run never gets this far: `driver.get` raises out of the loop first
   * (`CollectFrames`).
   */
  function Contribution(hs: seq<string>, symbol: string, page: C.PageScrape): (r: Option<Frame>)
    ensures r.Some? ==> r.value.columns == hs && WellFormed(r.value)
  {
    match page
    case Unreachable => None
    case Failed => None
    case Page(cells, stamp) => ShapeGrid(symbol, StripCells(cells), stamp, Text(""), hs)
  }

  /**
   * A symbol contributes exactly when its page loaded and its grid has a cell and no row
   * wider than the headers after `Pair`; it then contributes one row per table row.
   */
  lemma ContributionShape(hs: seq<string>, symbol: string, page: C.PageScrape)
    ensures var r := Contribution(hs, symbol, page);
      && (r.Some? <==> page.Page? && Shapeable(StripCells(page.cells), hs))
      && (r.Some? ==> |r.value.rows| == |page.cells|)
  {
  }

  /** The present values of `xs`, in order. */
  function Somes<T>(xs: seq<Option<T>>): seq<T> {
    if |xs| == 0 then []
    else Somes(xs[..|xs| - 1]) + (if xs[|xs| - 1].Some? then [xs[|xs| - 1].value] else [])
  }

  /** Every value kept is one of the present values, and nothing is kept exactly when none is present. */
  lemma {:induction false} SomesMembers<T>(xs: seq<Option<T>>)
    ensures |Somes(xs)| <= |xs|
    ensures forall x :: x in Somes(xs) ==> Some(x) in xs
    ensures |Somes(xs)| == 0 <==> forall k :: 0 <= k < |xs| ==> xs[k].None?
  {
    if |xs| > 0 {
      var n := |xs| - 1;
      SomesMembers(xs[..n]);
      assert xs == xs[..n] + [xs[n]];
    }
  }

  /** One more element of `xs` adds its value, if present, to the end. */
  lemma SomesStep<T>(xs: seq<Option<T>>, k: int)
    requires 0 <= k < |xs|
    ensures Somes(xs[..k + 1]) == Somes(xs[..k]) + (if xs[k].Some? then [xs[k].value] else [])
  {
    assert xs[..k + 1][..k] == xs[..k];
  }

  /** Each symbol's contribution, in `symbol_map` order. */
  function Contributions(symbols: seq<string>, hs: seq<string>, pages: seq<C.PageScrape>): (cs: seq<Option<Frame>>)
    requires |pages| == |symbols|
    ensures |cs| == |symbols|
    ensures forall k :: 0 <= k < |symbols| ==> cs[k] == Contribution(hs, symbols[k], pages[k])
  {
    seq(|symbols|, k requires 0 <= k < |symbols| => Contribution(hs, symbols[k], pages[k]))
  }

  /** `all_data` after the loop over `symbol_map`. */
  function Collected(symbols: seq<string>, hs: seq<string>, pages: seq<C.PageScrape>): (frames: seq<Frame>)
    requires |pages| == |symbols|
    ensures |frames| <= |symbols|
    ensures forall k :: 0 <= k < |frames| ==> frames[k].columns == hs && WellFormed(frames[k])
  {
    var cs := Contributions(symbols, hs, pages);
    SomesMembers(cs);
    var frames := Somes(cs);
    assert forall k :: 0 <= k < |frames| ==> Some(frames[k]) in cs by {
      forall k | 0 <= k < |frames| ensures Some(frames[k]) in cs {
        assert frames[k] in frames;
      }
    }
    frames
  }

  /**
   * The loop at lines 70-103: one shaped frame appended per symbol that yields one.
   * `driver.get` runs before the `try`, so a page that cannot be reached raises out of
   * the loop: `None`, and nothing after it is visited.
   */
  method CollectFrames(symbols: seq<string>, hs: seq<string>, pages: seq<C.PageScrape>)
    returns (frames: Option<seq<Frame>>)
    requires |pages| == |symbols|
    ensures frames.None? <==> !C.Reached(pages)
    ensures frames.Some? ==> frames.value == Collected(symbols, hs, pages)
  {
    ghost var cs := Contributions(symbols, hs, pages);
    var acc := [];
    for k := 0 to |symbols|
      invariant acc == Somes(cs[..k])
      invariant forall j :: 0 <= j < k ==> !pages[j].Unreachable?
    {
      if pages[k].Unreachable? {
        assert !C.Reached(pages);
        return None;
      }
      var contribution := Contribution(hs, symbols[k], pages[k]);
      SomesStep(cs, k);
      assert cs[k] == contribution;
      if contribution.Some? {
        acc := acc + [contribution.value];
      }
    }
    assert cs[..|symbols|] == cs;
    assert C.Reached(pages);
    CollectedSomes(symbols, hs, pages);
    frames := Some(acc);
  }

  /** `Collected` is the present contributions, in order. */
  lemma CollectedSomes(symbols: seq<string>, hs: seq<string>, pages: seq<C.PageScrape>)
    requires |pages| == |symbols|
    ensures Collected(symbols, hs, pages) == Somes(Contributions(symbols, hs, pages))
  {
  }

  /** No frame is collected exactly when no symbol yields one. */
  lemma CollectedEmpty(symbols: seq<string>, hs: seq<string>, pages: seq<C.PageScrape>)
    requires |pages| == |symbols|
    ensures |Collected(symbols, hs, pages)| == 0 <==>
      forall k :: 0 <= k < |symbols| ==> Contribution(hs, symbols[k], pages[k]).None?
  {
    SomesMembers(Contributions(symbols, hs, pages));
  }

  /** Every collected frame has a row with a `Symbol`: its grid had a row with a cell. */
  lemma CollectedHasSymbol(symbols: seq<string>, hs: seq<string>, pages: seq<C.PageScrape>, k: int)
    requires C.ComponentHeaders(hs) && |pages| == |symbols|
    requires 0 <= k < |Collected(symbols, hs, pages)|
    ensures exists i :: 0 <= i < |Collected(symbols, hs, pages)[k].rows| && !Collected(symbols, hs, pages)[k].rows[i][1].Null?
  {
    var cs := Contributions(symbols, hs, pages);
    var f := Collected(symbols, hs, pages)[k];
    SomesMembers(cs);
    assert f in Somes(cs);
    var j :| 0 <= j < |cs| && cs[j] == Some(f);
    ContributionHasSymbol(hs, symbols[j], pages[j]);
  }

  /** A contributed frame has a row with a `Symbol`: its grid had a row with a cell. */
  lemma ContributionHasSymbol(hs: seq<string>, symbol: string, page: C.PageScrape)
    requires C.ComponentHeaders(hs) && Contribution(hs, symbol, page).Some?
    ensures var f := Contribution(hs, symbol, page).value;
            exists i :: 0 <= i < |f.rows| && !f.rows[i][1].Null?
  {
    ContributionShape(hs, symbol, page);
    var grid := StripCells(page.cells);
    assert !NoData(grid);
    var i :| 0 <= i < |grid| && |grid[i]| > 0;
    ShapeGridCells(symbol, grid, page.stamp, Text(""), hs, i, 1);
  }

  // ---------------------------------------------------------------------------------
  // Cell transforms
  // ---------------------------------------------------------------------------------

  /** `replace("—", "")`: a cell that is exactly the dash becomes empty text. */
  function Undash(c: Cell): Cell {
    if c == Text("—") then Text("") else c
  }

  /** The characters `[\d.\sKMB]` keeps (ASCII digits). */
  predicate NumberChar(x: char) {
    Decimal.IsDigit(x) || x == '.' || Text.IsSpace(x) || x == 'K' || x == 'M' || x == 'B'
  }

  /** `.str.replace(r"[^\d.\sKMB]", "", regex=True)`; non-text cells give a missing value. */
  function KeepNumber(c: Cell): (r: Cell)
    ensures c.Text? <==> r.Text?
    ensures r.Text? ==> forall x :: x in r.s <==> x in c.s && NumberChar(x)
  {
    if c.Text? then Text(Text.KeepChars(c.s, NumberChar)) else Null
  }

  /** `.str.replace("+", "", regex=False)`; non-text cells give a missing value. */
  function DropPlus(c: Cell): (r: Cell)
    ensures c.Text? <==> r.Text?
    ensures r.Text? ==> '+' !in r.s && forall x :: x != '+' ==> (x in r.s <==> x in c.s)
  {
    if c.Text? then Text(Text.RemoveChar(c.s, '+')) else Null
  }

  /** `v` multiplied by 1000, `k` times. */
  function Thousands(v: real, k: nat): real {
    if k == 0 then v else 1000.0 * Thousands(v, k - 1)
  }

  /** `float(t)` times 1000^k, `None` where `float` raises. */
  function Scaled(t: string, k: nat): Option<Cell> {
    match Decimal.ParseDecimal(t)
    case None => None
    case Some(v) => Some(Num(Thousands(v, k)))
  }

  /**
   * `convert_volume`: commas dropped; the first of K, M, B present (checked in that
   * order) removed everywhere and the number scaled by 10^3, 10^6 or 10^9; otherwise
   * the number itself. Non-text gives a missing value; `None` where `float` raises.
   */
  function ConvertVolume(c: Cell): Option<Cell> {
    match c
    case Text(s) =>
      var t := Text.RemoveChar(s, ',');
      if 'K' in t then Scaled(Text.RemoveChar(t, 'K'), 1)
      else if 'M' in t then Scaled(Text.RemoveChar(t, 'M'), 2)
      else if 'B' in t then Scaled(Text.RemoveChar(t, 'B'), 3)
      else Scaled(t, 0)
    case _ => Some(Null)
  }

  /** The trailing tags `\n(D|REIT|P|DR)$` removes, in the regex's order. */
  const Tags: seq<string> := ["D", "REIT", "P", "DR"]

  /** The first of `tags` that `s` ends with after a newline. */
  function FirstTag(s: string, tags: seq<string>): (r: Option<string>)
    ensures r.Some? ==> r.value in tags && Text.EndsWith(s, "\n" + r.value)
    ensures r.None? ==> forall t :: t in tags ==> !Text.EndsWith(s, "\n" + t)
  {
    if |tags| == 0 then None
    else if Text.EndsWith(s, "\n" + tags[0]) then Some(tags[0])
    else FirstTag(s, tags[1..])
  }

  /** The tag the regex alternation matches at the end of `s`, if any. */
  function EndTag(s: string): (r: Option<string>)
    ensures r.Some? ==> r.value in Tags && Text.EndsWith(s, "\n" + r.value)
    ensures r.None? ==> forall t :: t in Tags ==> !Text.EndsWith(s, "\n" + t)
  {
    FirstTag(s, Tags)
  }

  /**
   * `re.sub(r"\n(D|REIT|P|DR)$", "", s)`: the tag and its newline removed at the end,
   * or just before a final newline (where `$` also matches).
   */
  function DropTag(s: string): (r: string)
    ensures |r| <= |s|
  {
    match EndTag(s)
    case Some(t) => s[..|s| - |t| - 1]
    case None =>
      if |s| > 0 && s[|s| - 1] == '\n' then
        match EndTag(s[..|s| - 1])
        case Some(t) => s[..|s| - |t| - 2] + "\n"
        case None => s
      else s
  }

  /** `.str.split("\n", n=1)` after dropping the tag: the symbol and, after the first newline, its description. */
  function SplitSymbol(c: Cell): (r: (Cell, Cell))
    ensures c.Text? ==> r.0.Text? && '\n' !in r.0.s
    ensures r.1.Text? ==> c.Text? && '\n' in DropTag(c.s)
  {
    match c
    case Text(s) =>
      var parts := Text.SplitFirst(DropTag(s), '\n');
      (Text(parts.0), if parts.1.Some? then Text(parts.1.value) else Null)
    case _ => (Null, Null)
  }

  // ---------------------------------------------------------------------------------
  // Frame steps
  // ---------------------------------------------------------------------------------

  /** `df.replace(v, w)` over every cell. */
  function MapCells(f: Frame, g: Cell -> Cell): (r: Frame)
    requires WellFormed(f)
    ensures r.columns == f.columns && WellFormed(r) && |r.rows| == |f.rows|
    ensures forall i, j :: 0 <= i < |f.rows| && 0 <= j < |f.columns| ==> r.rows[i][j] == g(f.rows[i][j])
  {
    Frame(f.columns, seq(|f.rows|, i requires 0 <= i < |f.rows| =>
      seq(|f.columns|, j requires 0 <= j < |f.columns| => g(f.rows[i][j]))))
  }

  /** `g` applied to each named column in turn, as the loops at lines 110-115 do. */
  function MapColumns(f: Frame, names: seq<string>, g: Cell -> Cell): (r: Frame)
    requires WellFormed(f)
    ensures r.columns == f.columns && WellFormed(r) && |r.rows| == |f.rows|
  {
    if |names| == 0 then f
    else MapColumn(MapColumns(f, names[..|names| - 1], g), names[|names| - 1], g)
  }

  /**
   * With distinct columns and names, each named column holds `g` of its old cells and
   * every other column is unchanged.
   */
  lemma {:induction false} MapColumnsCells(f: Frame, names: seq<string>, g: Cell -> Cell, i: int, j: int)
    requires WellFormed(f) && Distinct(f.columns) && Distinct(names)
    requires 0 <= i < |f.rows| && 0 <= j < |f.columns|
    ensures MapColumns(f, names, g).rows[i][j] == if f.columns[j] in names then g(f.rows[i][j]) else f.rows[i][j]
  {
    if |names| > 0 {
      var n := |names| - 1;
      var before := MapColumns(f, names[..n], g);
      MapColumnsCells(f, names[..n], g, i, j);
      IndexOfDistinct(f.columns, j);
      assert f.columns[j] in names <==> f.columns[j] in names[..n] || f.columns[j] == names[n] by {
        assert names == names[..n] + [names[n]];
      }
      if f.columns[j] == names[n] {
        assert names[n] !in names[..n];
      }
    }
  }

  /** Each named column in turn, the loops at lines 110-115. */
  method CleanColumns(f: Frame, names: seq<string>, g: Cell -> Cell) returns (r: Frame)
    requires WellFormed(f)
    ensures r == MapColumns(f, names, g)
  {
    r := f;
    for k := 0 to |names|
      invariant r == MapColumns(f, names[..k], g)
    {
      assert names[..k + 1][..k] == names[..k];
      r := MapColumn(r, names[k], g);
    }
    assert names[..|names|] == names;
  }

  /** Whether every cell of the column converts. */
  predicate AllConvert(f: Frame, name: string)
    requires WellFormed(f) && name in f.columns
  {
    var k := IndexOf(f.columns, name);
    forall i :: 0 <= i < |f.rows| ==> ConvertVolume(f.rows[i][k]).Some?
  }

  /** `df[name] = df[name].apply(convert_volume)`: `None` when one cell raises. */
  function ConvertColumn(f: Frame, name: string): (r: Option<Frame>)
    requires WellFormed(f) && name in f.columns
    ensures r.Some? <==> AllConvert(f, name)
    ensures r.Some? ==> r.value.columns == f.columns && WellFormed(r.value) && |r.value.rows| == |f.rows|
    ensures r.Some? ==> forall i, j :: 0 <= i < |f.rows| && 0 <= j < |f.columns| ==>
      r.value.rows[i][j] == if j == IndexOf(f.columns, name) then ConvertVolume(f.rows[i][j]).value else f.rows[i][j]
  {
    if AllConvert(f, name) then
      Some(MapColumn(f, name, c => if ConvertVolume(c).Some? then ConvertVolume(c).value else Null))
    else None
  }

  /** Whether some row's symbol, tag dropped, still holds a newline, so that the split has two parts. */
  predicate SomeDescription(f: Frame)
    requires WellFormed(f) && "Symbol" in f.columns
  {
    var s := IndexOf(f.columns, "Symbol");
    exists i :: 0 <= i < |f.rows| && f.rows[i][s].Text? && '\n' in DropTag(f.rows[i][s].s)
  }

  /**
   * `df[['Symbol', 'Description']] = ...str.split("\n", n=1, expand=True)`: the symbol
   * replaced by its first part and `Description` appended; `None` (pandas raises) when
   * no row splits, because the split then yields one column for two names.
   */
  function SplitColumn(f: Frame): (r: Option<Frame>)
    requires WellFormed(f) && "Symbol" in f.columns && "Description" !in f.columns
    ensures r.Some? <==> SomeDescription(f)
    ensures r.Some? ==> r.value.columns == f.columns + ["Description"] && WellFormed(r.value)
    ensures r.Some? ==> |r.value.rows| == |f.rows|
    ensures r.Some? ==> forall i :: 0 <= i < |f.rows| ==>
      var s := IndexOf(f.columns, "Symbol");
      && r.value.rows[i][s] == SplitSymbol(f.rows[i][s]).0
      && r.value.rows[i][|f.columns|] == SplitSymbol(f.rows[i][s]).1
      && forall j :: 0 <= j < |f.columns| && j != s ==> r.value.rows[i][j] == f.rows[i][j]
  {
    if !SomeDescription(f) then None
    else
      var s := IndexOf(f.columns, "Symbol");
      Some(Frame(f.columns + ["Description"], seq(|f.rows|, i requires 0 <= i < |f.rows| =>
        f.rows[i][s := SplitSymbol(f.rows[i][s]).0] + [SplitSymbol(f.rows[i][s]).1])))
  }

  /** The columns other than `Symbol` and `Description`, in order. */
  function Others(columns: seq<string>): (r: seq<string>)
    ensures forall c :: c in r <==> c in columns && c != "Symbol" && c != "Description"
  {
    Without(columns, "Symbol", "Description")
  }

  /** The names of `columns` other than `a` and `b`, in order. */
  function Without(columns: seq<string>, a: string, b: string): (r: seq<string>)
    ensures forall c :: c in r <==> c in columns && c != a && c != b
  {
    if |columns| == 0 then []
    else if columns[0] == a || columns[0] == b then Without(columns[1..], a, b)
    else [columns[0]] + Without(columns[1..], a, b)
  }

  /** `df_final[column_order]`: `Symbol`, `Description`, then the rest in their order. */
  function Reorder(f: Frame): (r: Frame)
    requires WellFormed(f) && "Symbol" in f.columns && "Description" in f.columns
    ensures r.columns == ["Symbol", "Description"] + Others(f.columns) && WellFormed(r)
    ensures |r.rows| == |f.rows|
  {
    Select(f, ["Symbol", "Description"] + Others(f.columns))
  }

  /** The columns the cleaning chain names are there, and `Description` is not yet. */
  predicate Cleanable(columns: seq<string>) {
    && "Symbol" in columns && "Market cap" in columns && "Price" in columns && "EPS dil" in columns
    && "EPS dil growth" in columns && "Change %" in columns && "Volume" in columns
    && "Description" !in columns
  }

  const NumberColumns: seq<string> := ["Market cap", "Price", "EPS dil"]
  const SignedColumns: seq<string> := ["EPS dil growth", "Change %"]

  /** The frame after `dropna`, `replace` and the two column loops (lines 107-115). */
  function Filtered(f: Frame): (r: Frame)
    requires WellFormed(f)
    ensures r.columns == f.columns && WellFormed(r)
  {
    var kept := Where(f, C.HasSymbol(f.columns));
    MapColumns(MapColumns(MapCells(kept, Undash), NumberColumns, KeepNumber), SignedColumns, DropPlus)
  }

  /** Lines 106-133 from the concatenated frame: the cleaned frame, or `None` when a step raises. */
  function CleanSpec(f: Frame): (r: Option<Frame>)
    requires WellFormed(f) && Cleanable(f.columns)
  {
    var signs := Filtered(f);
    match ConvertColumn(signs, "Volume")
    case None => None
    case Some(volumes) =>
      match ConvertColumn(volumes, "Market cap")
      case None => None
      case Some(caps) =>
        match SplitColumn(caps)
        case None => None
        case Some(split) => Some(Reorder(split))
  }

  /** The cleaning chain step by step, with the column loops of lines 110-115. */
  method CleanOverview(f: Frame) returns (r: Option<Frame>)
    requires WellFormed(f) && Cleanable(f.columns)
    ensures r == CleanSpec(f)
  {
    var df := Where(f, C.HasSymbol(f.columns));
    df := MapCells(df, Undash);
    df := CleanColumns(df, NumberColumns, KeepNumber);
    df := CleanColumns(df, SignedColumns, DropPlus);
    var volumes := ConvertColumn(df, "Volume");
    if volumes.None? {
      return None;
    }
    var caps := ConvertColumn(volumes.value, "Market cap");
    if caps.None? {
      return None;
    }
    var split := SplitColumn(caps.value);
    if split.None? {
      return None;
    }
    r := Some(Reorder(split.value));
  }

  /** The whole run as a function of the scraped pages; an unreachable page raises. */
  function OverviewSpec(symbols: seq<string>, hs: seq<string>, pages: seq<C.PageScrape>): Outcome
    requires |pages| == |symbols| && C.ComponentHeaders(hs) && Cleanable(hs)
  {
    var frames := Collected(symbols, hs, pages);
    if !C.Reached(pages) then Raised
    else if |frames| == 0 then NothingSaved(OverviewCsv)
    else
      ConcatUniform(frames, hs);
      match CleanSpec(Concat(frames))
      case None => Raised
      case Some(cleaned) => Saved(C.CsvWrite(OverviewCsv, cleaned))
  }

  /** `scrape_tradingview_overview`. */
  method ScrapeOverview(symbols: seq<string>, hs: seq<string>, pages: seq<C.PageScrape>) returns (out: Outcome)
    requires |pages| == |symbols| && C.ComponentHeaders(hs) && Cleanable(hs)
    ensures out == OverviewSpec(symbols, hs, pages)
  {
    var collected := CollectFrames(symbols, hs, pages);
    if collected.None? {
      return Raised;
    }
    var frames := collected.value;
    if |frames| == 0 {
      return NothingSaved(OverviewCsv);
    }
    ConcatUniform(frames, hs);
    var cleaned := CleanOverview(Concat(frames));
    if cleaned.None? {
      return Raised;
    }
    out := Saved(C.CsvWrite(OverviewCsv, cleaned.value));
  }

  // ---------------------------------------------------------------------------------
  // What the run promises
  // ---------------------------------------------------------------------------------

  /**
   * With every page reached, the run returns the name without writing a CSV exactly
   * when no symbol contributes a frame.
   */
  lemma OverviewNothingSaved(symbols: seq<string>, hs: seq<string>, pages: seq<C.PageScrape>)
    requires |pages| == |symbols| && C.ComponentHeaders(hs) && Cleanable(hs)
    ensures OverviewSpec(symbols, hs, pages).NothingSaved? <==>
      C.Reached(pages) && forall k :: 0 <= k < |symbols| ==> Contribution(hs, symbols[k], pages[k]).None?
    ensures OverviewSpec(symbols, hs, pages).NothingSaved? ==> OverviewSpec(symbols, hs, pages).file == OverviewCsv
  {
    CollectedEmpty(symbols, hs, pages);
  }

  /** A page that cannot be navigated to makes the whole run raise, whatever the other pages hold. */
  lemma UnreachableRaises(symbols: seq<string>, hs: seq<string>, pages: seq<C.PageScrape>, k: int)
    requires |pages| == |symbols| && C.ComponentHeaders(hs) && Cleanable(hs)
    requires 0 <= k < |pages| && pages[k].Unreachable?
    ensures OverviewSpec(symbols, hs, pages) == Raised
  {
    assert !C.Reached(pages);
  }

  /** Dropping names a list does not hold leaves it as it is. */
  lemma {:induction false} WithoutPlain(columns: seq<string>, a: string, b: string)
    requires a !in columns && b !in columns
    ensures Without(columns, a, b) == columns
  {
    if |columns| > 0 {
      WithoutPlain(columns[1..], a, b);
      assert [columns[0]] + columns[1..] == columns;
    }
  }

  /** A trailing dropped name adds nothing. */
  lemma {:induction false} WithoutAppend(columns: seq<string>, a: string, b: string)
    ensures Without(columns + [b], a, b) == Without(columns, a, b)
  {
    if |columns| == 0 {
      assert columns + [b] == [b];
    } else {
      assert (columns + [b])[1..] == columns[1..] + [b];
      WithoutAppend(columns[1..], a, b);
    }
  }

  /** With `a` second among distinct headers and `b` absent, the split puts `a`, `b`, then the first header and the rest. */
  lemma WithoutOrder(hs: seq<string>, a: string, b: string)
    requires Distinct(hs) && |hs| >= 2 && hs[1] == a && b !in hs
    ensures [a, b] + Without(hs + [b], a, b) == [a, b, hs[0]] + hs[2..]
  {
    var rest := hs[2..];
    var all := hs + [b];
    assert a !in rest && b !in rest by {
      forall j | 0 <= j < |rest| ensures rest[j] != a && rest[j] != b {
        assert rest[j] == hs[j + 2] && hs[j + 2] in hs;
      }
    }
    assert Without(all, a, b) == [hs[0]] + Without(all[1..], a, b) by {
      assert all[0] == hs[0] && hs[0] in hs && hs[0] != hs[1];
    }
    assert Without(all[1..], a, b) == Without(rest + [b], a, b) by {
      assert all[1..][0] == a;
      assert all[1..][1..] == rest + [b];
    }
    WithoutAppend(rest, a, b);
    WithoutPlain(rest, a, b);
  }

  /** After the split, the order is `Symbol`, `Description`, `Pair`, then the headers after `Symbol`. */
  lemma OverviewOrder(hs: seq<string>)
    requires C.ComponentHeaders(hs) && Cleanable(hs)
    ensures ["Symbol", "Description"] + Others(hs + ["Description"]) == ["Symbol", "Description", hs[0]] + hs[2..]
  {
    assert Distinct(hs) && |hs| >= 2 && hs[1] == "Symbol" && "Description" !in hs;
    WithoutOrder(hs, "Symbol", "Description");
  }

  /** The cleaned frame keeps one row per concatenated row that has a `Symbol`. */
  lemma CleanRows(f: Frame)
    requires WellFormed(f) && Cleanable(f.columns)
    ensures CleanSpec(f).Some? ==> |CleanSpec(f).value.rows| == |FilterRows(f.rows, C.HasSymbol(f.columns))|
    ensures CleanSpec(f).Some? ==>
      CleanSpec(f).value.columns == ["Symbol", "Description"] + Others(f.columns + ["Description"])
  {
  }

  /**
   * A saved overview has the columns `Symbol`, `Description`, `Pair` and the remaining
   * headers in order, and as many rows as the concatenated frames have rows with a
   * `Symbol`; since every collected frame has such a row, it is never empty.
   */
  lemma OverviewShape(symbols: seq<string>, hs: seq<string>, pages: seq<C.PageScrape>)
    requires |pages| == |symbols| && C.ComponentHeaders(hs) && Cleanable(hs)
    requires OverviewSpec(symbols, hs, pages).Saved?
    ensures var frames := Collected(symbols, hs, pages);
      var saved := OverviewSpec(symbols, hs, pages).write.frame;
      && saved.columns == ["Symbol", "Description", hs[0]] + hs[2..]
      && |saved.rows| == |FilterRows(Flatten(AllRows(frames)), C.HasSymbol(hs))|
      && |saved.rows| > 0
  {
    var frames := Collected(symbols, hs, pages);
    ConcatUniform(frames, hs);
    CleanRows(Concat(frames));
    OverviewOrder(hs);
    CollectedHasSymbol(symbols, hs, pages, 0);
    var i :| 0 <= i < |frames[0].rows| && !frames[0].rows[i][1].Null?;
    var x := frames[0].rows[i];
    assert x in AllRows(frames)[0];
    FlattenRows(AllRows(frames), x);
    IndexOfDistinct(hs, 1);
    assert C.HasSymbol(hs)(x);
    assert x in FilterRows(Flatten(AllRows(frames)), C.HasSymbol(hs));
  }

  /** A `Volume` cell that is blank text once the dash is replaced. */
  predicate BlankVolume(f: Frame, i: int)
    requires WellFormed(f) && "Volume" in f.columns && 0 <= i < |f.rows|
  {
    var c := f.rows[i][IndexOf(f.columns, "Volume")];
    c == Text("—") || (c.Text? && Text.AllSpace(c.s))
  }

  /**
   * A kept row whose `Volume` is `—` or blank makes `convert_volume` raise, so the whole
   * run ends in an exception and nothing is saved.
   */
  lemma BlankVolumeRaises(f: Frame, i: int)
    requires WellFormed(f) && Cleanable(f.columns) && Distinct(f.columns) && 0 <= i < |f.rows|
    requires C.HasSymbol(f.columns)(f.rows[i]) && BlankVolume(f, i)
    ensures CleanSpec(f).None?
  {
    var kept := Where(f, C.HasSymbol(f.columns));
    assert f.rows[i] in kept.rows;
    var k :| 0 <= k < |kept.rows| && kept.rows[k] == f.rows[i];
    var v := IndexOf(f.columns, "Volume");
    FilteredVolume(f, k);
    assert Filtered(f).rows[k][v] == Undash(f.rows[i][v]);
    FilteredBlankRaises(f, k);
  }

  /** A blank `Volume` left after the dash replacement makes the conversion raise. */
  lemma FilteredBlankRaises(f: Frame, k: int)
    requires WellFormed(f) && Cleanable(f.columns) && 0 <= k < |Filtered(f).rows|
    requires var c := Filtered(f).rows[k][IndexOf(f.columns, "Volume")];
      c == Text("") || (c.Text? && Text.AllSpace(c.s))
    ensures CleanSpec(f).None?
  {
    var c := Filtered(f).rows[k][IndexOf(f.columns, "Volume")];
    ConvertBlank(c.s);
    assert !AllConvert(Filtered(f), "Volume");
  }

  /** Before conversion, a kept row's `Volume` has only had the dash replaced. */
  lemma FilteredVolume(f: Frame, k: int)
    requires WellFormed(f) && Distinct(f.columns) && "Volume" in f.columns
    requires 0 <= k < |Where(f, C.HasSymbol(f.columns)).rows|
    ensures var v := IndexOf(f.columns, "Volume");
      Filtered(f).rows[k][v] == Undash(Where(f, C.HasSymbol(f.columns)).rows[k][v])
  {
    var kept := Where(f, C.HasSymbol(f.columns));
    var v := IndexOf(f.columns, "Volume");
    var undashed := MapCells(kept, Undash);
    var numbers := MapColumns(undashed, NumberColumns, KeepNumber);
    assert "Volume" !in NumberColumns && "Volume" !in SignedColumns;
    MapColumnsCells(undashed, NumberColumns, KeepNumber, k, v);
    MapColumnsCells(numbers, SignedColumns, DropPlus, k, v);
  }

  /** Blank text, the empty text included, is not a number: `convert_volume` raises. */
  lemma ConvertBlank(s: string)
    requires Text.AllSpace(s)
    ensures ConvertVolume(Text(s)).None?
  {
    var t := Text.RemoveChar(s, ',');
    Text.RemoveCharSpace(s, ',');
    assert 'K' !in t && 'M' !in t && 'B' !in t by {
      forall i | 0 <= i < |t| ensures t[i] != 'K' && t[i] != 'M' && t[i] != 'B' {
        assert Text.IsSpace(t[i]);
      }
    }
    Decimal.BlankRejected(t);
  }

  /** A whole number without unit converts to itself. */
  lemma ConvertPlain(n: nat)
    ensures ConvertVolume(Text(Decimal.NatText(n))) == Some(Num(n as real))
  {
    var s := Decimal.NatText(n);
    NoLetters(s);
    Text.RemoveCharAbsent(s, ',');
    Decimal.ParseNat(n);
  }

  /** Digits contain no comma and no unit letter. */
  lemma NoLetters(s: string)
    requires Decimal.AllDigits(s)
    ensures ',' !in s && 'K' !in s && 'M' !in s && 'B' !in s
  {
    forall i | 0 <= i < |s| ensures s[i] != ',' && s[i] != 'K' && s[i] != 'M' && s[i] != 'B' {
      assert Decimal.IsDigit(s[i]);
    }
  }

  /** The power of 1000 `convert_volume` applies for a unit letter. */
  function UnitPower(u: char): nat {
    if u == 'K' then 1 else if u == 'M' then 2 else 3
  }

  /** K, M and B multiply by 10^3, 10^6 and 10^9. */
  lemma UnitMultipliers(v: real)
    ensures Thousands(v, UnitPower('K')) == 1000.0 * v
    ensures Thousands(v, UnitPower('M')) == 1000000.0 * v
    ensures Thousands(v, UnitPower('B')) == 1000000000.0 * v
  {
    assert Thousands(v, 1) == 1000.0 * v;
    assert Thousands(v, 2) == 1000.0 * Thousands(v, 1);
    assert Thousands(v, 3) == 1000.0 * Thousands(v, 2);
  }

  /** A whole number with a K, M or B suffix converts to the number times 1000 per unit step. */
  lemma ConvertUnit(n: nat, u: char)
    requires u == 'K' || u == 'M' || u == 'B'
    ensures ConvertVolume(Text(Decimal.NatText(n) + [u])) == Some(Num(Thousands(n as real, UnitPower(u))))
  {
    var d := Decimal.NatText(n);
    var s := d + [u];
    NoLetters(d);
    assert forall x :: x in s <==> x in d || x == u;
    UnitDispatch(s, u);
    assert Text.RemoveChar(s, u) == d by {
      Text.RemoveCharAppend(d, [u], u);
      Text.RemoveCharAbsent(d, u);
    }
    Decimal.ParseNat(n);
  }

  /** A comma-free text whose first unit letter, in K, M, B order, is `u` is scaled by that unit. */
  lemma UnitDispatch(s: string, u: char)
    requires u == 'K' || u == 'M' || u == 'B'
    requires ',' !in s && u in s && (u != 'K' ==> 'K' !in s) && (u == 'B' ==> 'M' !in s)
    ensures ConvertVolume(Text(s)) == Scaled(Text.RemoveChar(s, u), UnitPower(u))
  {
    Text.RemoveCharAbsent(s, ',');
  }

  /** A `T` (trillion) suffix is dropped by the number filter, and the digits stay. */
  lemma TrillionDropped(n: nat)
    ensures KeepNumber(Text(Decimal.NatText(n) + "T")) == Text(Decimal.NatText(n))
  {
    var d := Decimal.NatText(n);
    Text.KeepCharsAppend(d, "T", NumberChar);
    Text.KeepCharsAll(d, NumberChar);
    assert !NumberChar('T');
  }

  /** Every `+` goes and the rest is kept, so a signed figure loses only its sign. */
  lemma PlusDropped(s: string)
    requires '+' !in s
    ensures DropPlus(Text("+" + s)) == Text(s)
  {
    Text.RemoveCharAbsent(s, '+');
  }

  /**
   * The symbol cell round trip: `name`, a newline, a one-line description, and a tag
   * split into the name and the description; without the tag as well.
   */
  lemma SplitSymbolTagged(name: string, desc: string, tag: string)
    requires '\n' !in name && '\n' !in desc && desc !in Tags && tag in Tags
    ensures SplitSymbol(Text(name + "\n" + desc + "\n" + tag)) == (Text(name), Text(desc))
    ensures SplitSymbol(Text(name + "\n" + desc)) == (Text(name), Text(desc))
  {
    var s := name + "\n" + desc;
    TagRemoved(s, tag);
    NoTag(name, desc);
    SplitAtNewline(name, desc);
  }

  /** A symbol with no newline is its own symbol and has no description. */
  lemma SplitSymbolPlain(name: string)
    requires '\n' !in name
    ensures SplitSymbol(Text(name)) == (Text(name), Null)
  {
    NoNewlineNoTag(name);
    if |name| > 0 {
      assert name[|name| - 1] in name;
    }
  }

  /** Text without a newline ends with no tag. */
  lemma NoNewlineNoTag(x: string)
    requires '\n' !in x
    ensures EndTag(x).None?
  {
    forall t | t in Tags ensures !Text.EndsWith(x, "\n" + t) {
      if Text.EndsWith(x, "\n" + t) {
        NewlineBeforeSuffix(x, t);
      }
    }
  }

  /** Text ending with a newline and `u` has the newline just before `u`. */
  lemma NewlineBeforeSuffix(s: string, u: string)
    requires Text.EndsWith(s, "\n" + u)
    ensures |u| < |s| && s[|s| - |u| - 1] == '\n' && s[|s| - |u|..] == u
  {
    assert s[|s| - |u| - 1] == ("\n" + u)[0];
    assert s[|s| - |u|..] == s[|s| - |u| - 1..][1..];
  }

  lemma TagRemoved(s: string, tag: string)
    requires tag in Tags
    ensures DropTag(s + "\n" + tag) == s
  {
    var x := s + "\n" + tag;
    assert x[|x| - |tag| - 1..] == "\n" + tag;
    var t := EndTag(x).value;
    TagsOneLine();
    SuffixesAgree(x, t, tag);
    assert x[..|x| - |tag| - 1] == s;
  }

  /** No tag holds a newline. */
  lemma TagsOneLine()
    ensures forall t :: t in Tags ==> '\n' !in t
  {
  }

  /** Two one-line texts that `x` ends with after a newline are the same text. */
  lemma SuffixesAgree(x: string, t: string, u: string)
    requires Text.EndsWith(x, "\n" + t) && Text.EndsWith(x, "\n" + u)
    requires '\n' !in t && '\n' !in u
    ensures t == u
  {
    NewlineBeforeSuffix(x, t);
    NewlineBeforeSuffix(x, u);
    OneLineSuffix(x, t);
    OneLineSuffix(x, u);
    assert |t| == |u|;
  }

  /** A one-line text that `x` ends with leaves no newline at the end of `x`. */
  lemma OneLineSuffix(x: string, t: string)
    requires |t| <= |x| && x[|x| - |t|..] == t && '\n' !in t
    ensures forall j :: |x| - |t| <= j < |x| ==> x[j] != '\n'
  {
    forall j | |x| - |t| <= j < |x| ensures x[j] != '\n' {
      assert x[j] == t[j - (|x| - |t|)];
    }
  }

  lemma NoTag(name: string, desc: string)
    requires '\n' !in name && '\n' !in desc && desc !in Tags
    ensures DropTag(name + "\n" + desc) == name + "\n" + desc
  {
    var s := name + "\n" + desc;
    forall t | t in Tags ensures !Text.EndsWith(s, "\n" + t) {
      if Text.EndsWith(s, "\n" + t) {
        NewlineBeforeSuffix(s, t);
      }
    }
    if |desc| > 0 {
      assert s[|s| - 1] == desc[|desc| - 1];
    } else {
      assert s[..|s| - 1] == name;
      NoNewlineNoTag(name);
    }
  }

  lemma SplitAtNewline(name: string, desc: string)
    requires '\n' !in name
    ensures Text.SplitFirst(name + "\n" + desc, '\n') == (name, Some(desc))
  {
    var r := Text.SplitFirst(name + "\n" + desc, '\n');
    if r.1.Some? {
      SplitUnique(r.0, r.1.value, name, desc);
    }
  }

  /** Text with a first newline splits there in one way only. */
  lemma SplitUnique(a: string, b: string, c: string, d: string)
    requires '\n' !in a && '\n' !in c && a + "\n" + b == c + "\n" + d
    ensures a == c && b == d
  {
    var x := a + "\n" + b;
    assert x[|a|] == '\n' && x[|c|] == '\n';
    assert a == x[..|a|] && c == x[..|c|];
    assert b == x[|a| + 1..] && d == x[|c| + 1..];
  }
}
