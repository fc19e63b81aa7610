/**
 * `YahooFinanceDataFetcher` and its entry point: minute and daily price history per
 * symbol, cleaned to `Symbol`, `Datetime` and the price columns, concatenated across
 * symbols, and upserted into two MySQL tables that keep at most a day of minutes and
 * ten years of days per symbol. The download, `pd.to_datetime`/`strftime` and
 * `pd.to_numeric` are oracles given as parameters.
 */
module YahooPrices {
  import opened Wrappers
  import opened Frames
  import SqlTable
  import R = Retention
  import M = MySqlConnector

  // ---------------------------------------------------------------------------------
  // Configuration
  // ---------------------------------------------------------------------------------

  /** The loaded YAML: the `symbols_yfinance` map, if present, and the other string settings. */
  datatype Config = Config(symbols: Option<seq<(string, string)>>, settings: map<string, string>)

  /** The fetcher's attributes after `__init__`. */
  datatype Fetcher = Fetcher(symbolMap: seq<(string, string)>, minutePeriod: string, minuteInterval: string,
                             dailyPeriod: string, dailyInterval: string)

  /** `config.get(key, default)`. */
  function Setting(settings: map<string, string>, key: string, default: string): string {
    if key in settings then settings[key] else default
  }

  /** Lines 25-29. */
  function FromConfig(c: Config): Fetcher {
    Fetcher(c.symbols.GetOr([]),
            Setting(c.settings, "minute_period", "7d"), Setting(c.settings, "minute_interval", "1m"),
            Setting(c.settings, "daily_period", "10y"), Setting(c.settings, "daily_interval", "1d"))
  }

  /** Missing settings fall back to seven days of one-minute bars and ten years of daily bars; present ones win. */
  lemma ConfigDefaults(c: Config)
    ensures var f := FromConfig(c);
      && (c.symbols.None? ==> f.symbolMap == [])
      && (c.symbols.Some? ==> f.symbolMap == c.symbols.value)
      && ("minute_period" !in c.settings ==> f.minutePeriod == "7d")
      && ("minute_interval" !in c.settings ==> f.minuteInterval == "1m")
      && ("daily_period" !in c.settings ==> f.dailyPeriod == "10y")
      && ("daily_interval" !in c.settings ==> f.dailyInterval == "1d")
      && ("minute_period" in c.settings ==> f.minutePeriod == c.settings["minute_period"])
      && ("daily_period" in c.settings ==> f.dailyPeriod == c.settings["daily_period"])
  {
  }

  // ---------------------------------------------------------------------------------
  // Downloads
  // ---------------------------------------------------------------------------------

  /**
   * What `yf.download` returns: the price frame (one level of column names) and its
   * index, a named column of one value per row.
   */
  datatype Download = Download(indexName: string, index: seq<Cell>, data: Frame)

  type Raw = d: Download | WellFormed(d.data) && |d.index| == |d.data.rows|
    witness Download("Date", [], Frame([], []))

  /** `pd.DataFrame()`. */
  const NoFrame: Frame := Frame([], [])

  /** `fetch_data`: the download, or an empty frame when it raised (`None`). */
  function FetchData(download: Option<Raw>): (r: Raw)
    ensures download.None? ==> r.data == NoFrame && IsEmpty(r.data)
  {
    if download.Some? then download.value else Download("Date", [], NoFrame)
  }

  // ---------------------------------------------------------------------------------
  // clean_data
  // ---------------------------------------------------------------------------------

  const NumericCols: seq<string> := ["Open", "High", "Low", "Close", "Volume"]

  /** Why `clean_data` raises: no `Datetime` column, or a column it converts that is two columns. */
  datatype CleanError = NoDatetime | DuplicateColumn(name: string)

  /** How many columns are called `name`. */
  function Occurrences(columns: seq<string>, name: string): (n: nat)
    ensures n == 0 <==> name !in columns
  {
    if |columns| == 0 then 0
    else Occurrences(columns[..|columns| - 1], name) + (if columns[|columns| - 1] == name then 1 else 0)
  }

  /** `reset_index()`: the index becomes the first column. */
  function ResetIndex(d: Raw): (r: Frame)
    ensures WellFormed(r) && r.columns == [d.indexName] + d.data.columns && |r.rows| == |d.data.rows|
  {
    Frame([d.indexName] + d.data.columns,
          seq(|d.data.rows|, i requires 0 <= i < |d.data.rows| => [d.index[i]] + d.data.rows[i]))
  }

  /** The rename map of line 71 applied to one name. */
  function RenameColumn(c: string): string {
    if c == "Date" || c == "datetime" then "Datetime" else c
  }

  /** Line 71: every `Date` and every `datetime` column is called `Datetime`. */
  function Renamed(f: Frame): (r: Frame)
    requires WellFormed(f)
    ensures WellFormed(r) && r.rows == f.rows && |r.columns| == |f.columns|
    ensures forall j :: 0 <= j < |f.columns| ==> r.columns[j] == RenameColumn(f.columns[j])
  {
    Frame(seq(|f.columns|, j requires 0 <= j < |f.columns| => RenameColumn(f.columns[j])), f.rows)
  }

  /** The names of `names` that are columns of `columns`, in the order of `names`. */
  function Present(names: seq<string>, columns: seq<string>): (r: seq<string>)
    ensures forall c :: c in r <==> c in names && c in columns
  {
    if |names| == 0 then []
    else Present(names[..|names| - 1], columns) + (if names[|names| - 1] in columns then [names[|names| - 1]] else [])
  }

  /** The loop of lines 78-80 over the first names: each present column converted, a twice-named one raises. */
  function Numeric(f: Frame, names: seq<string>, toNumber: Cell -> Cell): (r: Result<Frame, CleanError>)
    requires WellFormed(f)
    ensures r.Ok? ==> r.value.columns == f.columns && WellFormed(r.value) && |r.value.rows| == |f.rows|
  {
    if |names| == 0 then Ok(f)
    else
      var name := names[|names| - 1];
      match Numeric(f, names[..|names| - 1], toNumber)
      case Err(e) => Err(e)
      case Ok(g) =>
        if name !in g.columns then Ok(g)
        else if Occurrences(g.columns, name) > 1 then Err(DuplicateColumn(name))
        else Ok(MapColumn(g, name, toNumber))
  }

  /** How many `Symbol` columns line 82 leaves: those already there, or the one it appends. */
  function SymbolCount(columns: seq<string>): (n: nat)
    ensures n >= 1
  {
    var k := Occurrences(columns, "Symbol");
    if k == 0 then 1 else k
  }

  /**
   * The cleaned frame's columns for the renamed columns `columns`: line 84's list as
   * `df[...]` expands it over repeated names, so every `Symbol` column, then `Datetime`,
   * then the price columns present.
   */
  function CleanColumns(columns: seq<string>): (r: seq<string>)
    ensures |r| == SymbolCount(columns) + 1 + |Present(NumericCols, columns)|
    ensures forall j :: 0 <= j < SymbolCount(columns) ==> r[j] == "Symbol"
    ensures r[SymbolCount(columns)] == "Datetime" && IndexOf(r, "Datetime") == SymbolCount(columns)
  {
    var symbols := seq(SymbolCount(columns), _ => "Symbol");
    var r := symbols + ["Datetime"] + Present(NumericCols, columns);
    assert r[..|symbols|] == symbols;
    IndexOfFirst(r, "Datetime", |symbols|);
    r
  }

  /**
   * Whether `clean_data` raises on a frame whose renamed columns are `columns`: the
   * conversions of lines 72 and 80 raise on a name that is two columns; line 82 does not.
   */
  function CleanFailure(columns: seq<string>): Option<CleanError> {
    if Occurrences(columns, "Datetime") == 0 then Some(NoDatetime)
    else if Occurrences(columns, "Datetime") > 1 then Some(DuplicateColumn("Datetime"))
    else if exists n :: n in NumericCols && Occurrences(columns, n) > 1 then
      Some(DuplicateColumn(FirstDuplicate(NumericCols, columns)))
    else None
  }

  /** The first name of `names` that names two columns. */
  function FirstDuplicate(names: seq<string>, columns: seq<string>): string
    requires exists n :: n in names && Occurrences(columns, n) > 1
  {
    if Occurrences(columns, names[0]) > 1 then names[0]
    else
      assert exists n :: n in names[1..] && Occurrences(columns, n) > 1 by {
        var n :| n in names && Occurrences(columns, n) > 1;
        assert n != names[0];
      }
      FirstDuplicate(names[1..], columns)
  }

  /** Lines 71-72: the renamed frame with its `Datetime` column converted. */
  function Stamped(d: Raw, toStamp: Cell -> Cell): (r: Frame)
    ensures WellFormed(r) && r.columns == Renamed(ResetIndex(d)).columns && |r.rows| == |d.data.rows|
  {
    MapColumn(Renamed(ResetIndex(d)), "Datetime", toStamp)
  }

  /**
   * Lines 82-84 after the conversions: `Symbol` set on every row of every `Symbol`
   * column, then the projection. All `Symbol` columns then hold the same cell, so
   * picking the first of them for each repeated name gives the projection's cells.
   */
  function Finish(numbers: Frame, symbol: string, columns: seq<string>): (r: Frame)
    requires WellFormed(numbers) && numbers.columns == columns && "Datetime" in columns
    ensures WellFormed(r) && r.columns == CleanColumns(columns) && |r.rows| == |numbers.rows|
  {
    Select(SetColumn(numbers, "Symbol", Text(symbol)), CleanColumns(columns))
  }

  /** `clean_data(data, symbol)`, lines 63-84. */
  function CleanSpec(d: Raw, symbol: string, toStamp: Cell -> Cell, toNumber: Cell -> Cell): (r: Result<Frame, CleanError>)
    ensures r.Ok? ==> WellFormed(r.value)
  {
    if IsEmpty(d.data) then Ok(d.data)
    else
      var columns := Renamed(ResetIndex(d)).columns;
      if Occurrences(columns, "Datetime") == 0 then Err(NoDatetime)
      else if Occurrences(columns, "Datetime") > 1 then Err(DuplicateColumn("Datetime"))
      else match Numeric(Stamped(d, toStamp), NumericCols, toNumber)
        case Err(e) => Err(e)
        case Ok(numbers) => Ok(Finish(numbers, symbol, columns))
  }

  /** Lines 63-84. */
  method CleanData(d: Raw, symbol: string, toStamp: Cell -> Cell, toNumber: Cell -> Cell)
    returns (r: Result<Frame, CleanError>)
    ensures r == CleanSpec(d, symbol, toStamp, toNumber)
  {
    if IsEmpty(d.data) {
      return Ok(d.data);
    }
    var data := Renamed(ResetIndex(d));
    var columns := data.columns;
    if Occurrences(data.columns, "Datetime") == 0 {
      return Err(NoDatetime);
    }
    if Occurrences(data.columns, "Datetime") > 1 {
      return Err(DuplicateColumn("Datetime"));
    }
    data := MapColumn(data, "Datetime", toStamp);
    assert data == Stamped(d, toStamp);
    var numbers := ConvertPrices(data, toNumber);
    if numbers.Err? {
      return Err(numbers.error);
    }
    data := numbers.value;
    data := SetColumn(data, "Symbol", Text(symbol));
    r := Ok(Select(data, CleanColumns(columns)));
  }

  /** Lines 78-80: the price columns converted one at a time. */
  method ConvertPrices(f: Frame, toNumber: Cell -> Cell) returns (r: Result<Frame, CleanError>)
    requires WellFormed(f)
    ensures r == Numeric(f, NumericCols, toNumber)
  {
    var data := f;
    for k := 0 to |NumericCols|
      invariant Numeric(f, NumericCols[..k], toNumber) == Ok(data)
    {
      assert NumericCols[..k + 1][..k] == NumericCols[..k];
      var col := NumericCols[k];
      if col in data.columns {
        if Occurrences(data.columns, col) > 1 {
          assert Numeric(f, NumericCols[..k + 1], toNumber) == Err(DuplicateColumn(col));
          NumericErr(f, NumericCols, toNumber, k + 1);
          return Err(DuplicateColumn(col));
        }
        data := MapColumn(data, col, toNumber);
      }
    }
    assert NumericCols[..|NumericCols|] == NumericCols;
    r := Ok(data);
  }

  /** Once the loop has raised, later names do not change the outcome. */
  lemma {:induction false} NumericErr(f: Frame, names: seq<string>, toNumber: Cell -> Cell, k: nat)
    requires WellFormed(f) && k <= |names| && Numeric(f, names[..k], toNumber).Err?
    ensures Numeric(f, names, toNumber) == Numeric(f, names[..k], toNumber)
    decreases |names| - k
  {
    if k < |names| {
      assert names[..k + 1][..k] == names[..k];
      NumericErr(f, names, toNumber, k + 1);
    } else {
      assert names[..k] == names;
    }
  }

  /** `clean_data` hands an empty frame back untouched. */
  lemma CleanEmpty(d: Raw, symbol: string, toStamp: Cell -> Cell, toNumber: Cell -> Cell)
    requires IsEmpty(d.data)
    ensures CleanSpec(d, symbol, toStamp, toNumber) == Ok(d.data)
  {
  }

  /** One more name raises exactly when it names two columns. */
  lemma NumericStep(f: Frame, names: seq<string>, toNumber: Cell -> Cell)
    requires WellFormed(f) && |names| > 0
    ensures Numeric(f, names, toNumber).Ok? <==>
      Numeric(f, names[..|names| - 1], toNumber).Ok? && Occurrences(f.columns, names[|names| - 1]) <= 1
  {
  }

  /** The loop raises exactly when one of the names it visits is two columns. */
  lemma {:induction false} NumericOk(f: Frame, names: seq<string>, toNumber: Cell -> Cell)
    requires WellFormed(f)
    ensures Numeric(f, names, toNumber).Ok? <==>
      forall n :: n in names ==> Occurrences(f.columns, n) <= 1
  {
    if |names| > 0 {
      var m := |names| - 1;
      NumericOk(f, names[..m], toNumber);
      NumericStep(f, names, toNumber);
      assert forall n :: n in names <==> n in names[..m] || n == names[m] by {
        assert names == names[..m] + [names[m]];
      }
    }
  }

  /** Occurrences of the first name that is unique among the columns. */
  lemma OccurrencesOnce(columns: seq<string>, name: string, j: int)
    requires Occurrences(columns, name) == 1 && 0 <= j < |columns| && columns[j] == name
    ensures IndexOf(columns, name) == j
  {
    var i := IndexOf(columns, name);
    if i != j {
      OccurrencesTwo(columns, name, i, j);
    }
  }

  /** Two positions holding the same name count twice. */
  lemma {:induction false} OccurrencesTwo(columns: seq<string>, name: string, i: int, j: int)
    requires 0 <= i < |columns| && 0 <= j < |columns| && i != j && columns[i] == name && columns[j] == name
    ensures Occurrences(columns, name) >= 2
  {
    var n := |columns| - 1;
    var front := columns[..n];
    if i < n && j < n {
      OccurrencesTwo(front, name, i, j);
    } else {
      var k := if i < n then i else j;
      assert front[k] == name;
    }
  }

  /**
   * `clean_data` raises exactly when, after the rename, `Datetime` is not one column or
   * a price column is two; a repeated `Symbol` does not raise. Otherwise it keeps every
   * row and returns every `Symbol` column (one when there was none), `Datetime` and the
   * price columns present, in that fixed order.
   */
  lemma CleanOutcome(d: Raw, symbol: string, toStamp: Cell -> Cell, toNumber: Cell -> Cell)
    requires !IsEmpty(d.data)
    ensures var columns := Renamed(ResetIndex(d)).columns;
      && (CleanSpec(d, symbol, toStamp, toNumber).Err? <==> CleanFailure(columns).Some?)
      && (CleanSpec(d, symbol, toStamp, toNumber).Ok? ==>
            && CleanSpec(d, symbol, toStamp, toNumber).value.columns == CleanColumns(columns)
            && |CleanSpec(d, symbol, toStamp, toNumber).value.rows| == |d.data.rows|
            && !IsEmpty(CleanSpec(d, symbol, toStamp, toNumber).value))
  {
    var renamed := Renamed(ResetIndex(d));
    if Occurrences(renamed.columns, "Datetime") == 1 {
      NumericOk(Stamped(d, toStamp), NumericCols, toNumber);
    }
  }

  /** The cell of the renamed frame's `Datetime` column in row `i`. */
  function DatetimeCell(d: Raw, i: int): Cell
    requires 0 <= i < |d.data.rows|
  {
    var renamed := Renamed(ResetIndex(d));
    var k := IndexOf(renamed.columns, "Datetime");
    if k < 0 then Null else renamed.rows[i][k]
  }

  /** After `Finish`, every `Symbol` column holds the symbol argument and `Datetime` the converted column's cell. */
  lemma FinishCells(numbers: Frame, symbol: string, columns: seq<string>, i: int)
    requires WellFormed(numbers) && numbers.columns == columns && "Datetime" in columns
    requires 0 <= i < |numbers.rows|
    ensures var r := Finish(numbers, symbol, columns);
      && (forall j :: 0 <= j < |r.columns| && r.columns[j] == "Symbol" ==> r.rows[i][j] == Text(symbol))
      && r.rows[i][IndexOf(r.columns, "Datetime")] == numbers.rows[i][IndexOf(columns, "Datetime")]
  {
    var tagged := SetColumn(numbers, "Symbol", Text(symbol));
    var t := IndexOf(columns, "Datetime");
    if "Symbol" !in numbers.columns {
      IndexOfPrefix(numbers.columns, ["Symbol"], "Datetime");
    }
    assert tagged.rows[i][IndexOf(tagged.columns, "Datetime")] == numbers.rows[i][t];
  }

  /**
   * In a cleaned frame every row's `Symbol` columns hold the symbol argument, and its
   * `Datetime` is the converted timestamp of the same row.
   */
  lemma CleanCells(d: Raw, symbol: string, toStamp: Cell -> Cell, toNumber: Cell -> Cell, i: int)
    requires !IsEmpty(d.data) && CleanSpec(d, symbol, toStamp, toNumber).Ok?
    requires 0 <= i < |d.data.rows|
    ensures var r := CleanSpec(d, symbol, toStamp, toNumber).value;
      && |r.rows| == |d.data.rows|
      && (forall j :: 0 <= j < |r.columns| && r.columns[j] == "Symbol" ==> r.rows[i][j] == Text(symbol))
      && r.rows[i][IndexOf(r.columns, "Datetime")] == toStamp(DatetimeCell(d, i))
  {
    var columns := Renamed(ResetIndex(d)).columns;
    CleanIsFinish(d, symbol, toStamp, toNumber);
    var stamped := Stamped(d, toStamp);
    var numbers := Numeric(stamped, NumericCols, toNumber).value;
    var t := IndexOf(columns, "Datetime");
    StampedDatetime(d, toStamp, i);
    DatetimeNotNumeric();
    NumericDatetime(stamped, NumericCols, toNumber, i, t);
    FinishCells(numbers, symbol, columns, i);
  }

  lemma DatetimeNotNumeric()
    ensures "Datetime" !in NumericCols && "Symbol" != "Datetime"
  {
  }

  /** Line 72 on row `i`: the `Datetime` cell converted. */
  lemma StampedDatetime(d: Raw, toStamp: Cell -> Cell, i: int)
    requires "Datetime" in Renamed(ResetIndex(d)).columns && 0 <= i < |d.data.rows|
    ensures Stamped(d, toStamp).rows[i][IndexOf(Renamed(ResetIndex(d)).columns, "Datetime")] == toStamp(DatetimeCell(d, i))
  {
  }

  /** A successful clean of a non-empty download is `Finish` of the converted frame. */
  lemma CleanIsFinish(d: Raw, symbol: string, toStamp: Cell -> Cell, toNumber: Cell -> Cell)
    requires !IsEmpty(d.data) && CleanSpec(d, symbol, toStamp, toNumber).Ok?
    ensures var columns := Renamed(ResetIndex(d)).columns;
      && Occurrences(columns, "Datetime") == 1
      && Numeric(Stamped(d, toStamp), NumericCols, toNumber).Ok?
      && CleanSpec(d, symbol, toStamp, toNumber)
         == Ok(Finish(Numeric(Stamped(d, toStamp), NumericCols, toNumber).value, symbol, columns))
  {
  }

  /** The price conversions leave the `Datetime` column alone. */
  lemma {:induction false} NumericDatetime(f: Frame, names: seq<string>, toNumber: Cell -> Cell, i: int, t: int)
    requires WellFormed(f) && Numeric(f, names, toNumber).Ok?
    requires 0 <= i < |f.rows| && 0 <= t < |f.columns| && f.columns[t] !in names
    ensures Numeric(f, names, toNumber).value.rows[i][t] == f.rows[i][t]
  {
    if |names| > 0 {
      var m := |names| - 1;
      var name := names[m];
      var g := Numeric(f, names[..m], toNumber).value;
      assert f.columns[t] !in names[..m];
      NumericDatetime(f, names[..m], toNumber, i, t);
      assert g.columns == f.columns;
      if name in g.columns && Occurrences(g.columns, name) <= 1 {
        assert IndexOf(g.columns, name) != t;
        assert Numeric(f, names, toNumber).value == MapColumn(g, name, toNumber);
      }
    }
  }

  // ---------------------------------------------------------------------------------
  // process_all_symbols
  // ---------------------------------------------------------------------------------

  /** The downloads for one symbol: minute data, then daily data, for a ticker. */
  type Downloader = (string, string, string) -> Option<Raw>

  /** The cleaned frame for one download when it is not empty. */
  function Contribution(d: Raw, symbol: string, toStamp: Cell -> Cell, toNumber: Cell -> Cell)
    : (r: Result<seq<Frame>, CleanError>)
    ensures r.Ok? ==> (|r.value| == 0 <==> IsEmpty(d.data)) && |r.value| <= 1
    ensures r.Ok? ==> forall k :: 0 <= k < |r.value| ==> WellFormed(r.value[k]) && !IsEmpty(r.value[k])
  {
    if IsEmpty(d.data) then Ok([])
    else match CleanSpec(d, symbol, toStamp, toNumber)
      case Err(e) => Err(e)
      case Ok(f) =>
        CleanOutcome(d, symbol, toStamp, toNumber);
        Ok([f])
  }

  /** Lines 101-104 for one download. */
  method Contribute(d: Raw, symbol: string, toStamp: Cell -> Cell, toNumber: Cell -> Cell)
    returns (r: Result<seq<Frame>, CleanError>)
    ensures r == Contribution(d, symbol, toStamp, toNumber)
  {
    if IsEmpty(d.data) {
      return Ok([]);
    }
    var cleaned := CleanData(d, symbol, toStamp, toNumber);
    if cleaned.Err? {
      return Err(cleaned.error);
    }
    r := Ok([cleaned.value]);
  }

  /** One pass of the loop body for `entry`: its minute frame, then its daily frame, added when not empty. */
  function Step(lists: (seq<Frame>, seq<Frame>), entry: (string, string), cfg: Fetcher, download: Downloader,
                toStamp: Cell -> Cell, toNumber: Cell -> Cell): (r: Result<(seq<Frame>, seq<Frame>), CleanError>)
    ensures r.Ok? ==> lists.0 <= r.value.0 && lists.1 <= r.value.1
    ensures r.Ok? ==> forall k :: |lists.0| <= k < |r.value.0| ==> WellFormed(r.value.0[k]) && !IsEmpty(r.value.0[k])
    ensures r.Ok? ==> forall k :: |lists.1| <= k < |r.value.1| ==> WellFormed(r.value.1[k]) && !IsEmpty(r.value.1[k])
  {
    var (symbol, ticker) := entry;
    var minute := FetchData(download(ticker, cfg.minutePeriod, cfg.minuteInterval));
    var daily := FetchData(download(ticker, cfg.dailyPeriod, cfg.dailyInterval));
    match Contribution(minute, symbol, toStamp, toNumber)
    case Err(e) => Err(e)
    case Ok(m) =>
      match Contribution(daily, symbol, toStamp, toNumber)
      case Err(e) => Err(e)
      case Ok(dd) => Ok((lists.0 + m, lists.1 + dd))
  }

  /** The loop body of lines 96-104. */
  method AddSymbol(lists: (seq<Frame>, seq<Frame>), entry: (string, string), cfg: Fetcher, download: Downloader,
                   toStamp: Cell -> Cell, toNumber: Cell -> Cell) returns (r: Result<(seq<Frame>, seq<Frame>), CleanError>)
    ensures r == Step(lists, entry, cfg, download, toStamp, toNumber)
  {
    var (symbol, ticker) := entry;
    var minute := FetchData(download(ticker, cfg.minutePeriod, cfg.minuteInterval));
    var daily := FetchData(download(ticker, cfg.dailyPeriod, cfg.dailyInterval));
    var m := Contribute(minute, symbol, toStamp, toNumber);
    if m.Err? {
      return Err(m.error);
    }
    var dd := Contribute(daily, symbol, toStamp, toNumber);
    if dd.Err? {
      return Err(dd.error);
    }
    r := Ok((lists.0 + m.value, lists.1 + dd.value));
  }

  /** The minute and daily lists after the loop of lines 95-104 has seen `entries`. */
  function Accumulated(entries: seq<(string, string)>, cfg: Fetcher, download: Downloader,
                       toStamp: Cell -> Cell, toNumber: Cell -> Cell): (r: Result<(seq<Frame>, seq<Frame>), CleanError>)
    ensures r.Ok? ==> forall k :: 0 <= k < |r.value.0| ==> WellFormed(r.value.0[k]) && !IsEmpty(r.value.0[k])
    ensures r.Ok? ==> forall k :: 0 <= k < |r.value.1| ==> WellFormed(r.value.1[k]) && !IsEmpty(r.value.1[k])
  {
    if |entries| == 0 then Ok(([], []))
    else
      var n := |entries| - 1;
      match Accumulated(entries[..n], cfg, download, toStamp, toNumber)
      case Err(e) => Err(e)
      case Ok(lists) => Step(lists, entries[n], cfg, download, toStamp, toNumber)
  }

  /** A contribution of one frame is the cleaned download. */
  lemma ContributionKept(d: Raw, symbol: string, toStamp: Cell -> Cell, toNumber: Cell -> Cell)
    ensures var c := Contribution(d, symbol, toStamp, toNumber);
      c.Ok? && |c.value| == 1 ==> c.value[0] == CleanSpec(d, symbol, toStamp, toNumber).value
  {
  }

  /** `pd.concat(frames, ignore_index=True) if frames else pd.DataFrame()`. */
  function ConcatOrEmpty(frames: seq<Frame>): Frame
    requires forall k :: 0 <= k < |frames| ==> WellFormed(frames[k])
  {
    if |frames| == 0 then NoFrame else Concat(frames)
  }

  /** `process_all_symbols`: the minute and daily frames, or the error `clean_data` raised. */
  function ProcessSpec(cfg: Fetcher, download: Downloader, toStamp: Cell -> Cell, toNumber: Cell -> Cell)
    : Result<(Frame, Frame), CleanError>
  {
    match Accumulated(cfg.symbolMap, cfg, download, toStamp, toNumber)
    case Err(e) => Err(e)
    case Ok(lists) => Ok((ConcatOrEmpty(lists.0), ConcatOrEmpty(lists.1)))
  }

  /** Lines 93-109. */
  method ProcessAllSymbols(cfg: Fetcher, download: Downloader, toStamp: Cell -> Cell, toNumber: Cell -> Cell)
    returns (r: Result<(Frame, Frame), CleanError>)
    ensures r == ProcessSpec(cfg, download, toStamp, toNumber)
  {
    var entries := cfg.symbolMap;
    var lists: (seq<Frame>, seq<Frame>) := ([], []);
    for k := 0 to |entries|
      invariant Accumulated(entries[..k], cfg, download, toStamp, toNumber) == Ok(lists)
    {
      assert entries[..k + 1][..k] == entries[..k];
      var next := AddSymbol(lists, entries[k], cfg, download, toStamp, toNumber);
      if next.Err? {
        AccumulatedErr(entries, cfg, download, toStamp, toNumber, k + 1);
        return Err(next.error);
      }
      lists := next.value;
    }
    assert entries[..|entries|] == entries;
    r := Ok((ConcatOrEmpty(lists.0), ConcatOrEmpty(lists.1)));
  }

  /** A symbol whose cleaning raised ends the whole run with that error. */
  lemma {:induction false} AccumulatedErr(entries: seq<(string, string)>, cfg: Fetcher, download: Downloader,
                                          toStamp: Cell -> Cell, toNumber: Cell -> Cell, k: nat)
    requires k <= |entries| && Accumulated(entries[..k], cfg, download, toStamp, toNumber).Err?
    ensures Accumulated(entries, cfg, download, toStamp, toNumber) == Accumulated(entries[..k], cfg, download, toStamp, toNumber)
    decreases |entries| - k
  {
    if k < |entries| {
      assert entries[..k + 1][..k] == entries[..k];
      AccumulatedErr(entries, cfg, download, toStamp, toNumber, k + 1);
    } else {
      assert entries[..k] == entries;
    }
  }

  /** The minute download of entry `e`. */
  function MinuteOf(e: (string, string), cfg: Fetcher, download: Downloader): Raw {
    FetchData(download(e.1, cfg.minutePeriod, cfg.minuteInterval))
  }

  /** `f` is the cleaned minute frame of entry `i`, whose minute download was not empty. */
  predicate MinuteSource(entries: seq<(string, string)>, cfg: Fetcher, download: Downloader,
                         toStamp: Cell -> Cell, toNumber: Cell -> Cell, f: Frame, i: int) {
    && 0 <= i < |entries|
    && !IsEmpty(MinuteOf(entries[i], cfg, download).data)
    && Ok(f) == CleanSpec(MinuteOf(entries[i], cfg, download), entries[i].0, toStamp, toNumber)
  }

  /** The last entry adds its minute contribution to the minute list of the entries before it. */
  lemma MinuteStep(entries: seq<(string, string)>, cfg: Fetcher, download: Downloader,
                   toStamp: Cell -> Cell, toNumber: Cell -> Cell)
    requires |entries| > 0 && Accumulated(entries, cfg, download, toStamp, toNumber).Ok?
    ensures var n := |entries| - 1;
      var c := Contribution(MinuteOf(entries[n], cfg, download), entries[n].0, toStamp, toNumber);
      && Accumulated(entries[..n], cfg, download, toStamp, toNumber).Ok?
      && c.Ok?
      && Accumulated(entries, cfg, download, toStamp, toNumber).value.0
         == Accumulated(entries[..n], cfg, download, toStamp, toNumber).value.0 + c.value
  {
  }

  /** No symbol of `entries` got minute data. */
  predicate NoMinuteData(entries: seq<(string, string)>, cfg: Fetcher, download: Downloader) {
    forall i :: 0 <= i < |entries| ==> IsEmpty(MinuteOf(entries[i], cfg, download).data)
  }

  /** The minute list is empty exactly when every minute download was. */
  lemma {:induction false} AccumulatedMinuteEmpty(entries: seq<(string, string)>, cfg: Fetcher, download: Downloader,
                                                  toStamp: Cell -> Cell, toNumber: Cell -> Cell)
    requires Accumulated(entries, cfg, download, toStamp, toNumber).Ok?
    ensures |Accumulated(entries, cfg, download, toStamp, toNumber).value.0| == 0 <==> NoMinuteData(entries, cfg, download)
  {
    if |entries| > 0 {
      var n := |entries| - 1;
      var front := entries[..n];
      MinuteStep(entries, cfg, download, toStamp, toNumber);
      AccumulatedMinuteEmpty(front, cfg, download, toStamp, toNumber);
      var last := IsEmpty(MinuteOf(entries[n], cfg, download).data);
      var c := Contribution(MinuteOf(entries[n], cfg, download), entries[n].0, toStamp, toNumber);
      assert |c.value| == 0 <==> last;
      assert NoMinuteData(entries, cfg, download) <==> NoMinuteData(front, cfg, download) && last by {
        if NoMinuteData(front, cfg, download) && last {
          forall i | 0 <= i < |entries| ensures IsEmpty(MinuteOf(entries[i], cfg, download).data) {
            if i < n {
              assert front[i] == entries[i];
              assert IsEmpty(MinuteOf(front[i], cfg, download).data);
            } else {
              assert i == n;
            }
          }
        }
        if NoMinuteData(entries, cfg, download) {
          forall i | 0 <= i < n ensures IsEmpty(MinuteOf(front[i], cfg, download).data) {
            assert front[i] == entries[i];
          }
        }
      }
    }
  }

  /**
   * Without an error, each frame of the minute list is, in map order, the cleaned minute
   * frame of a symbol whose minute download was not empty.
   */
  lemma {:induction false} AccumulatedMinute(entries: seq<(string, string)>, cfg: Fetcher, download: Downloader,
                                             toStamp: Cell -> Cell, toNumber: Cell -> Cell, k: int)
    requires Accumulated(entries, cfg, download, toStamp, toNumber).Ok?
    requires 0 <= k < |Accumulated(entries, cfg, download, toStamp, toNumber).value.0|
    ensures exists i :: MinuteSource(entries, cfg, download, toStamp, toNumber,
                                     Accumulated(entries, cfg, download, toStamp, toNumber).value.0[k], i)
  {
    var n := |entries| - 1;
    var front := entries[..n];
    MinuteStep(entries, cfg, download, toStamp, toNumber);
    var before := Accumulated(front, cfg, download, toStamp, toNumber).value.0;
    var ms := Accumulated(entries, cfg, download, toStamp, toNumber).value.0;
    if k < |before| {
      AccumulatedMinute(front, cfg, download, toStamp, toNumber, k);
      var i :| MinuteSource(front, cfg, download, toStamp, toNumber, before[k], i);
      assert front[i] == entries[i];
      assert MinuteSource(entries, cfg, download, toStamp, toNumber, ms[k], i);
    } else {
      var minute := MinuteOf(entries[n], cfg, download);
      ContributionKept(minute, entries[n].0, toStamp, toNumber);
      assert MinuteSource(entries, cfg, download, toStamp, toNumber, ms[k], n);
    }
  }

  /**
   * The run's minute frame is empty exactly when no symbol had minute data; then it is
   * `pd.DataFrame()` itself, and the entry point inserts nothing into the minute table.
   */
  lemma ProcessMinuteEmpty(cfg: Fetcher, download: Downloader, toStamp: Cell -> Cell, toNumber: Cell -> Cell)
    requires ProcessSpec(cfg, download, toStamp, toNumber).Ok?
    ensures var minute := ProcessSpec(cfg, download, toStamp, toNumber).value.0;
      && (IsEmpty(minute) <==> NoMinuteData(cfg.symbolMap, cfg, download))
      && (minute == NoFrame <==> NoMinuteData(cfg.symbolMap, cfg, download))
  {
    AccumulatedMinuteEmpty(cfg.symbolMap, cfg, download, toStamp, toNumber);
    var lists := Accumulated(cfg.symbolMap, cfg, download, toStamp, toNumber).value.0;
    if |lists| > 0 {
      ConcatNotEmpty(lists);
    }
  }

  // ---------------------------------------------------------------------------------
  // The entry point: two capped tables
  // ---------------------------------------------------------------------------------

  /** `primary_keys=["Symbol", "Datetime"]` for both tables. */
  const PriceKeys: M.KeyArg := M.KeyList(["Symbol", "Datetime"])
  const SortColumn: string := "Datetime"
  /** `24*60` minutes and `365*10` days per symbol. */
  const MinuteCap: int := 24 * 60
  const DailyCap: int := 365 * 10

  /** A stored table, when it exists, satisfies the engine's invariant, whatever its own key. */
  predicate Stored(db: Option<SqlTable.Table>) {
    db.Some? ==> SqlTable.ValidTable(db.value)
  }

  /**
   * Lines 116-135: a connector per table, each frame inserted only when it is not empty.
   * `connected` says whether each connection opened; `render` is the driver's number rendering.
   */
  method StorePrices(minuteFrame: Frame, dailyFrame: Frame, minuteDb: Option<SqlTable.Table>, dailyDb: Option<SqlTable.Table>,
                     minuteConnected: bool, dailyConnected: bool, render: real -> string)
    returns (minute: Option<SqlTable.Table>, daily: Option<SqlTable.Table>)
    requires Stored(minuteDb) && Stored(dailyDb)
    ensures minute == if minuteConnected && !IsEmpty(minuteFrame)
      then M.AfterInsertOrUpdate(minuteDb, M.NormalizeKeys(PriceKeys), MinuteCap, SortColumn, render, minuteFrame)
      else minuteDb
    ensures daily == if dailyConnected && !IsEmpty(dailyFrame)
      then M.AfterInsertOrUpdate(dailyDb, M.NormalizeKeys(PriceKeys), DailyCap, SortColumn, render, dailyFrame)
      else dailyDb
    ensures Stored(minute) && Stored(daily)
  {
    var connectorMinute := new M.Connector("yfinance_minutes", PriceKeys, MinuteCap, SortColumn, minuteConnected, render, minuteDb);
    var connectorDaily := new M.Connector("yfinance_daily", PriceKeys, DailyCap, SortColumn, dailyConnected, render, dailyDb);
    if !IsEmpty(minuteFrame) {
      connectorMinute.InsertOrUpdate(minuteFrame);
    }
    if !IsEmpty(dailyFrame) {
      connectorDaily.InsertOrUpdate(dailyFrame);
    }
    minute, daily := connectorMinute.table, connectorDaily.table;
  }

  /**
   * After an insert into a price table whose `Symbol` and `Datetime` columns exist, the
   * trim keeps only rows of the table as inserted, and no symbol keeps more than
   * min(n, cap) of its n rows besides those a NULL `Symbol` or `Datetime` strands past
   * the cap. When the table's primary key includes both columns, neither holds NULL and
   * no symbol keeps more than min(n, cap); when the key is exactly those two (as for a
   * table these connectors create) each symbol keeps exactly its min(n, cap) latest
   * `Datetime` values.
   */
  lemma StoredCapped(db: Option<SqlTable.Table>, cap: int, render: real -> string, f: Frame)
    requires Stored(db) && cap > 0 && !IsEmpty(f)
    ensures var keys := M.NormalizeKeys(PriceKeys);
      var inserted := M.AfterInsert(M.AfterCreate(db, f.columns, keys), keys, f, render);
      var d := M.AfterInsertOrUpdate(db, keys, cap, SortColumn, render, f);
      inserted.Some? ==>
        && Stored(inserted) && d.Some? && Stored(d) && d.value.keys == inserted.value.keys
        && (R.PartitionColumn in inserted.value.columns && SortColumn in inserted.value.columns ==>
              && (forall x :: x in d.value.rows ==> x in inserted.value.rows)
              && (forall v :: R.Count(d.value.rows, v) <=
                    R.Min(R.Count(inserted.value.rows, v), cap) + |R.Stranded(inserted.value.rows, M.KeyColumns(keys), SortColumn, cap, v)|)
              && (R.PartitionColumn in inserted.value.keys && SortColumn in inserted.value.keys ==>
                    forall v :: R.Count(d.value.rows, v) <= R.Min(R.Count(inserted.value.rows, v), cap))
              && (R.PartitionColumn in inserted.value.keys && SortColumn in inserted.value.keys
                  && (forall k :: k in inserted.value.keys ==> k == R.PartitionColumn || k == SortColumn) ==>
                    R.RetainsTopPerPartition(inserted.value.rows, d.value.rows, SortColumn, cap)))
  {
    var keys := M.NormalizeKeys(PriceKeys);
    var created := M.AfterCreate(db, f.columns, keys);
    M.CreateEffect(db, f.columns, keys);
    var inserted := M.AfterInsert(created, keys, f, render);
    if created.Some? {
      SqlTable.ExecInsertValid(created.value, M.InsertFor(f.columns, keys), M.BatchValues(f, render));
    }
    assert M.RetentionRuns(cap, SortColumn);
    if inserted.Some? {
      PriceTrim(inserted.value, cap);
    }
  }

  /** The price tables' trim, joined on `Symbol` and `Datetime`, on a valid table with any key. */
  lemma PriceTrim(t: SqlTable.Table, cap: int)
    requires SqlTable.ValidTable(t) && cap > 0
    ensures var keys := M.NormalizeKeys(PriceKeys);
      var join := M.KeyColumns(keys);
      var d := M.AfterTrim(Some(t), keys, SortColumn, cap);
      && d.Some? && Stored(d) && d.value.keys == t.keys
      && (R.PartitionColumn in t.columns && SortColumn in t.columns ==>
            && (forall x :: x in d.value.rows ==> x in t.rows)
            && (forall v :: R.Count(d.value.rows, v) <= R.Min(R.Count(t.rows, v), cap) + |R.Stranded(t.rows, join, SortColumn, cap, v)|)
            && (R.PartitionColumn in t.keys && SortColumn in t.keys ==>
                  forall v :: R.Count(d.value.rows, v) <= R.Min(R.Count(t.rows, v), cap))
            && (R.PartitionColumn in t.keys && SortColumn in t.keys
                && (forall k :: k in t.keys ==> k == R.PartitionColumn || k == SortColumn) ==>
                  R.RetainsTopPerPartition(t.rows, d.value.rows, SortColumn, cap)))
  {
    var keys := M.NormalizeKeys(PriceKeys);
    var join := M.KeyColumns(keys);
    assert join == [R.PartitionColumn, SortColumn];
    M.TrimApplied(t, keys, SortColumn, cap);
    M.JoinedTrimFacts(t, join, SortColumn, cap);
    assert R.Max(cap, 0) == cap;
    if R.PartitionColumn in t.columns && SortColumn in t.columns {
      assert forall k :: k in join ==> k in t.columns;
      if R.PartitionColumn in t.keys && SortColumn in t.keys {
        SqlTable.KeyColumnsNotNull(t, join);
        assert |t.keys| > 0;
        if forall k :: k in t.keys ==> k == R.PartitionColumn || k == SortColumn {
          assert forall k :: k in t.keys ==> k in join;
        }
      }
    }
  }

  /**
   * The entry point stores at most 1440 minute rows and 3650 daily rows per symbol in a
   * table keyed on `Symbol` and `Datetime`, as every table it creates is.
   */
  lemma StoreCaps(minuteFrame: Frame, dailyFrame: Frame, minuteDb: Option<SqlTable.Table>, dailyDb: Option<SqlTable.Table>,
                  render: real -> string)
    requires Stored(minuteDb) && Stored(dailyDb) && !IsEmpty(minuteFrame) && !IsEmpty(dailyFrame)
    ensures var keys := M.NormalizeKeys(PriceKeys);
      var m := M.AfterInsertOrUpdate(minuteDb, keys, MinuteCap, SortColumn, render, minuteFrame);
      var d := M.AfterInsertOrUpdate(dailyDb, keys, DailyCap, SortColumn, render, dailyFrame);
      && (m.Some? && R.PartitionColumn in m.value.keys && SortColumn in m.value.keys ==>
            forall v :: R.Count(m.value.rows, v) <= 1440)
      && (d.Some? && R.PartitionColumn in d.value.keys && SortColumn in d.value.keys ==>
            forall v :: R.Count(d.value.rows, v) <= 3650)
  {
    StoredBound(minuteDb, MinuteCap, render, minuteFrame);
    StoredBound(dailyDb, DailyCap, render, dailyFrame);
  }

  /** One price table after the insert: keyed on `Symbol` and `Datetime`, no symbol exceeds the cap. */
  lemma StoredBound(db: Option<SqlTable.Table>, cap: int, render: real -> string, f: Frame)
    requires Stored(db) && cap > 0 && !IsEmpty(f)
    ensures var d := M.AfterInsertOrUpdate(db, M.NormalizeKeys(PriceKeys), cap, SortColumn, render, f);
      d.Some? && R.PartitionColumn in d.value.keys && SortColumn in d.value.keys ==>
        forall v :: R.Count(d.value.rows, v) <= cap
  {
    var keys := M.NormalizeKeys(PriceKeys);
    var inserted := M.AfterInsert(M.AfterCreate(db, f.columns, keys), keys, f, render);
    var d := M.AfterInsertOrUpdate(db, keys, cap, SortColumn, render, f);
    StoredCapped(db, cap, render, f);
    if d.Some? && R.PartitionColumn in d.value.keys && SortColumn in d.value.keys {
      InsertedUnderTrim(db, cap, render, f);
      var t := inserted.value;
      assert R.PartitionColumn in t.columns && SortColumn in t.columns;
      forall v ensures R.Count(d.value.rows, v) <= cap {
        assert R.Count(d.value.rows, v) <= R.Min(R.Count(t.rows, v), cap);
      }
    }
  }

  /** The trim runs on the inserted table, so a table after it means a table before it. */
  lemma InsertedUnderTrim(db: Option<SqlTable.Table>, cap: int, render: real -> string, f: Frame)
    requires cap > 0 && !IsEmpty(f)
    ensures var keys := M.NormalizeKeys(PriceKeys);
      M.AfterInsertOrUpdate(db, keys, cap, SortColumn, render, f).Some? ==>
        M.AfterInsert(M.AfterCreate(db, f.columns, keys), keys, f, render).Some?
  {
    assert M.RetentionRuns(cap, SortColumn);
  }


}
