/**
 * The news digest of `NewsProcessor`: one summary per symbol of the `yfinance_news`
 * sheet, recomputed only when the symbol has news newer than the saved summary, then
 * one sentiment label per summary, uploaded to `news_summary_sentiment_analysis`.
 * The summarising model and the sentiment classifier are parameters.
 */
module NewsDigest {
  import opened Wrappers
  import opened Frames
  import Text

  /** A row of the `yfinance_news` sheet, as far as the digest reads it. */
  datatype NewsRow = NewsRow(symbol: string, published: string, summary: Option<string>)

  /** A row of the summary sheet saved by the previous run. */
  datatype SheetRow = SheetRow(symbol: string, lastUpdated: string)

  /** A row of the frame `summarize_news` returns. */
  datatype DigestRow = DigestRow(symbol: string, summary: string, lastUpdated: string)

  /** A row of the frame `analyze_sentiment` fills in. */
  datatype ScoredRow = ScoredRow(symbol: string, summary: Option<string>, lastUpdated: string,
                                 sentiment: Cell, confidence: Cell)

  /** What the script writes to the CSV file and uploads to the sheet of the same name. */
  datatype Upload = Upload(file: string, sheet: string, rows: seq<ScoredRow>)

  /** The summarising model: the response text, or `None` when the call raised. */
  type Generator = string -> Option<string>

  /** The sentiment classifier: a label and its score. */
  type Classifier = string -> (string, real)

  const SummarySheet := "news_summary_sentiment_analysis"
  const SummaryCsv := "news_summary_sentiment_analysis.csv"
  const Prompt := "Generate a concise 1-paragraph summary of the following news articles:\n"
  const NoSummary := "No summary available"

  function Symbols(news: seq<NewsRow>): seq<string> {
    seq(|news|, i requires 0 <= i < |news| => news[i].symbol)
  }

  /** `Series.unique()`: every value once, in order of first appearance. */
  function Unique(xs: seq<string>): (u: seq<string>)
    ensures Distinct(u)
    ensures forall x :: x in u <==> x in xs
  {
    if |xs| == 0 then []
    else
      var front := xs[..|xs| - 1];
      var u := Unique(front);
      assert xs == front + [xs[|xs| - 1]];
      if xs[|xs| - 1] in u then u else u + [xs[|xs| - 1]]
  }

  /** Unique values come out in the order of their first appearance. */
  lemma {:induction false} UniqueFirstAppearance(xs: seq<string>, i: int, j: int)
    requires 0 <= i < j < |Unique(xs)|
    ensures IndexOf(xs, Unique(xs)[i]) < IndexOf(xs, Unique(xs)[j])
  {
    var n := |xs| - 1;
    var front := xs[..n];
    var u := Unique(front);
    assert xs == front + [xs[n]];
    assert Unique(xs)[i] == u[i];
    IndexOfPrefix(front, [xs[n]], u[i]);
    if j < |u| {
      assert Unique(xs)[j] == u[j];
      IndexOfPrefix(front, [xs[n]], u[j]);
      UniqueFirstAppearance(front, i, j);
    } else {
      assert Unique(xs)[j] == xs[n] && xs[n] !in front;
      assert xs[..n] == front;
    }
  }

  /** The `Published` values of the symbol's news rows. */
  function PublishedOf(news: seq<NewsRow>, symbol: string): seq<string> {
    if |news| == 0 then []
    else (if news[0].symbol == symbol then [news[0].published] else []) + PublishedOf(news[1..], symbol)
  }

  lemma {:induction false} PublishedOfMembers(news: seq<NewsRow>, symbol: string, p: string)
    ensures p in PublishedOf(news, symbol) <==>
            exists i :: 0 <= i < |news| && news[i].symbol == symbol && news[i].published == p
  {
    if |news| > 0 {
      PublishedOfMembers(news[1..], symbol, p);
      if exists i :: 0 <= i < |news| && news[i].symbol == symbol && news[i].published == p {
        var i :| 0 <= i < |news| && news[i].symbol == symbol && news[i].published == p;
        if i > 0 {
          assert news[1..][i - 1] == news[i];
        }
      }
      if exists i :: 0 <= i < |news| - 1 && news[1..][i].symbol == symbol && news[1..][i].published == p {
        var i :| 0 <= i < |news| - 1 && news[1..][i].symbol == symbol && news[1..][i].published == p;
        assert news[i + 1] == news[1..][i];
      }
    }
  }

  /** `groupby("Symbol")["Published"].max()` for one symbol. */
  function Latest(news: seq<NewsRow>, symbol: string): string {
    var published := PublishedOf(news, symbol);
    if |published| == 0 then "" else Text.MaxText(published)
  }

  /** A symbol's `Last Updated` is the greatest `Published` value among its news rows. */
  lemma LatestIsMax(news: seq<NewsRow>, symbol: string)
    requires symbol in Symbols(news)
    ensures exists i :: 0 <= i < |news| && news[i].symbol == symbol && news[i].published == Latest(news, symbol)
    ensures forall i :: 0 <= i < |news| && news[i].symbol == symbol ==> !Text.Below(Latest(news, symbol), news[i].published)
  {
    var m := Latest(news, symbol);
    var i :| 0 <= i < |news| && Symbols(news)[i] == symbol;
    PublishedOfMembers(news, symbol, news[i].published);
    PublishedOfMembers(news, symbol, m);
    forall i | 0 <= i < |news| && news[i].symbol == symbol
      ensures !Text.Below(m, news[i].published)
    {
      PublishedOfMembers(news, symbol, news[i].published);
    }
  }

  /** The symbol's `Summary` values with the missing ones dropped, in sheet order. */
  function SummariesOf(news: seq<NewsRow>, symbol: string): seq<string> {
    if |news| == 0 then []
    else
      (if news[0].symbol == symbol && news[0].summary.Some? then [news[0].summary.value] else [])
      + SummariesOf(news[1..], symbol)
  }

  lemma {:induction false} SummariesOfMembers(news: seq<NewsRow>, symbol: string, s: string)
    ensures s in SummariesOf(news, symbol) <==>
            exists i :: 0 <= i < |news| && news[i].symbol == symbol && news[i].summary == Some(s)
  {
    if |news| > 0 {
      SummariesOfMembers(news[1..], symbol, s);
      if exists i :: 0 <= i < |news| && news[i].symbol == symbol && news[i].summary == Some(s) {
        var i :| 0 <= i < |news| && news[i].symbol == symbol && news[i].summary == Some(s);
        if i > 0 {
          assert news[1..][i - 1] == news[i];
        }
      }
      if exists i :: 0 <= i < |news| - 1 && news[1..][i].symbol == symbol && news[1..][i].summary == Some(s) {
        var i :| 0 <= i < |news| - 1 && news[1..][i].symbol == symbol && news[1..][i].summary == Some(s);
        assert news[i + 1] == news[1..][i];
      }
    }
  }

  /** The text handed to the model: the summaries joined by newlines, stripped. */
  function Joined(news: seq<NewsRow>, symbol: string): string {
    Text.Strip(Text.Join(SummariesOf(news, symbol), "\n"))
  }

  /** There is nothing to summarise exactly when every present summary is whitespace only. */
  lemma JoinedEmpty(news: seq<NewsRow>, symbol: string)
    ensures Joined(news, symbol) == "" <==>
            forall i :: 0 <= i < |news| && news[i].symbol == symbol && news[i].summary.Some? ==>
              Text.AllSpace(news[i].summary.value)
  {
    var parts := SummariesOf(news, symbol);
    assert Text.IsSpace('\n');
    Text.JoinAllSpace(parts, "\n");
    Text.StripEmpty(Text.Join(parts, "\n"));
    forall p | p in parts ensures exists i :: 0 <= i < |news| && news[i].symbol == symbol && news[i].summary == Some(p) {
      SummariesOfMembers(news, symbol, p);
    }
    forall i | 0 <= i < |news| && news[i].symbol == symbol && news[i].summary.Some?
      ensures news[i].summary.value in parts
    {
      SummariesOfMembers(news, symbol, news[i].summary.value);
    }
  }

  /** The saved sheet, or no rows when it could not be loaded. */
  function Existing(existing: Option<seq<SheetRow>>): seq<SheetRow> {
    existing.GetOr([])
  }

  /** The `Last Updated` of the symbol's first row in the saved sheet, if it has one. */
  function FirstUpdate(rows: seq<SheetRow>, symbol: string): Option<string> {
    if |rows| == 0 then None
    else if rows[0].symbol == symbol then Some(rows[0].lastUpdated)
    else FirstUpdate(rows[1..], symbol)
  }

  /** `FirstUpdate` reads the first row carrying the symbol, and is absent when there is none. */
  lemma {:induction false} FirstUpdateIsFirst(rows: seq<SheetRow>, symbol: string, v: string)
    ensures FirstUpdate(rows, symbol) == Some(v) <==>
            exists i :: 0 <= i < |rows| && rows[i] == SheetRow(symbol, v) &&
                        forall k :: 0 <= k < i ==> rows[k].symbol != symbol
    ensures FirstUpdate(rows, symbol).None? <==> forall i :: 0 <= i < |rows| ==> rows[i].symbol != symbol
  {
    if |rows| > 0 {
      var tail := rows[1..];
      FirstUpdateIsFirst(tail, symbol, v);
      if rows[0].symbol != symbol {
        if exists i :: 0 <= i < |rows| && rows[i] == SheetRow(symbol, v) &&
                       forall k :: 0 <= k < i ==> rows[k].symbol != symbol {
          var i :| 0 <= i < |rows| && rows[i] == SheetRow(symbol, v) &&
                   forall k :: 0 <= k < i ==> rows[k].symbol != symbol;
          assert tail[i - 1] == rows[i];
          assert forall k :: 0 <= k < i - 1 ==> tail[k] == rows[k + 1];
        }
        if exists i :: 0 <= i < |tail| && tail[i] == SheetRow(symbol, v) &&
                       forall k :: 0 <= k < i ==> tail[k].symbol != symbol {
          var i :| 0 <= i < |tail| && tail[i] == SheetRow(symbol, v) &&
                   forall k :: 0 <= k < i ==> tail[k].symbol != symbol;
          assert rows[i + 1] == tail[i];
          forall k | 0 <= k < i + 1 ensures rows[k].symbol != symbol {
            if k > 0 {
              assert rows[k] == tail[k - 1];
            }
          }
        }
        forall i | 0 <= i < |tail| ensures tail[i] == rows[i + 1] { }
      }
    }
  }

  /** The saved summary of the symbol is as recent as its news: the symbol is skipped. */
  predicate UpToDate(rows: seq<SheetRow>, news: seq<NewsRow>, symbol: string)
  {
    FirstUpdate(rows, symbol) == Some(Latest(news, symbol))
  }

  /** The summary kept from the model's response (`None`: the call raised). */
  function SummaryText(response: Option<string>): string {
    match response
    case None => ""
    case Some(t) => if t == "" then NoSummary else Text.Strip(t)
  }

  /** A failed call leaves an empty summary, an empty response the placeholder, and any other the response stripped. */
  lemma SummaryTextCases(response: Option<string>)
    ensures response.None? ==> SummaryText(response) == ""
    ensures response == Some("") ==> SummaryText(response) == NoSummary
    ensures response.Some? && response.value != "" ==>
              SummaryText(response) == Text.Strip(response.value) &&
              (SummaryText(response) == "" <==> Text.AllSpace(response.value))
  {
    if response.Some? {
      Text.StripEmpty(response.value);
    }
  }

  /** The row one symbol contributes to the digest, or `None` when it is skipped. */
  function RowFor(news: seq<NewsRow>, rows: seq<SheetRow>, generate: Generator, symbol: string): Option<DigestRow>
  {
    if UpToDate(rows, news, symbol) then None
    else
      var joined := Joined(news, symbol);
      var summary := if joined == "" then "" else SummaryText(generate(Prompt + joined));
      Some(DigestRow(symbol, summary, Latest(news, symbol)))
  }

  /** A symbol with nothing to summarise gets an empty summary whatever the model would answer. */
  lemma NoTextNoCall(news: seq<NewsRow>, rows: seq<SheetRow>, g1: Generator, g2: Generator, symbol: string)
    requires !UpToDate(rows, news, symbol)
    requires forall i :: 0 <= i < |news| && news[i].symbol == symbol && news[i].summary.Some? ==>
               Text.AllSpace(news[i].summary.value)
    ensures RowFor(news, rows, g1, symbol) == RowFor(news, rows, g2, symbol)
    ensures RowFor(news, rows, g1, symbol) == Some(DigestRow(symbol, "", Latest(news, symbol)))
  {
    JoinedEmpty(news, symbol);
  }

  /** A symbol with text to summarise gets the model's answer to the prompt over that text. */
  lemma ModelCalled(news: seq<NewsRow>, rows: seq<SheetRow>, generate: Generator, symbol: string, i: int)
    requires !UpToDate(rows, news, symbol)
    requires 0 <= i < |news| && news[i].symbol == symbol && news[i].summary.Some?
    requires !Text.AllSpace(news[i].summary.value)
    ensures Joined(news, symbol) != ""
    ensures RowFor(news, rows, generate, symbol).Some?
    ensures RowFor(news, rows, generate, symbol).value.summary ==
            SummaryText(generate(Prompt + Joined(news, symbol)))
  {
    JoinedEmpty(news, symbol);
  }

  /** The row a symbol contributes, by symbol: `RowFor` with the inputs fixed. */
  type RowRule = string -> Option<DigestRow>

  /** A rule that only ever gives a symbol a row under its own name. */
  ghost predicate Keyed(rowFor: RowRule) {
    forall x :: rowFor(x).Some? ==> rowFor(x).value.symbol == x
  }

  /** `RowFor` gives a row exactly to a symbol that is not up to date, under its name and latest date. */
  lemma RowForCases(news: seq<NewsRow>, rows: seq<SheetRow>, generate: Generator, symbol: string)
    ensures RowFor(news, rows, generate, symbol).Some? <==> !UpToDate(rows, news, symbol)
    ensures RowFor(news, rows, generate, symbol).Some? ==>
              RowFor(news, rows, generate, symbol).value.symbol == symbol &&
              RowFor(news, rows, generate, symbol).value.lastUpdated == Latest(news, symbol)
  {
  }

  function Rule(news: seq<NewsRow>, rows: seq<SheetRow>, generate: Generator): (rowFor: RowRule)
    ensures Keyed(rowFor)
  {
    var rowFor := (x: string) => RowFor(news, rows, generate, x);
    assert forall x :: rowFor(x) == RowFor(news, rows, generate, x);
    rowFor
  }

  /** The rows of the digest for the listed symbols, in list order. */
  function Digest(symbols: seq<string>, rowFor: RowRule): seq<DigestRow> {
    if |symbols| == 0 then []
    else
      var n := |symbols| - 1;
      Digest(symbols[..n], rowFor) + (if rowFor(symbols[n]).Some? then [rowFor(symbols[n]).value] else [])
  }

  /** `summarize_news`: the digest over the symbols of the news sheet. */
  function SummarizeSpec(news: seq<NewsRow>, existing: Option<seq<SheetRow>>, generate: Generator): seq<DigestRow> {
    Digest(Unique(Symbols(news)), Rule(news, Existing(existing), generate))
  }

  method SummarizeNews(news: seq<NewsRow>, existing: Option<seq<SheetRow>>, generate: Generator)
    returns (results: seq<DigestRow>)
    ensures results == SummarizeSpec(news, existing, generate)
  {
    var rows := if existing.Some? then existing.value else [];
    var symbols := Unique(Symbols(news));
    ghost var rowFor := Rule(news, rows, generate);
    results := [];
    for k := 0 to |symbols|
      invariant results == Digest(symbols[..k], rowFor)
    {
      var row := SummarizeSymbol(news, rows, generate, symbols[k]);
      assert row == rowFor(symbols[k]);
      if row.Some? {
        results := results + [row.value];
      }
      DigestStep(symbols, rowFor, k);
    }
    assert symbols[..|symbols|] == symbols;
  }

  /** One pass of the loop in `summarize_news`: skip an up-to-date symbol, else summarise its news. */
  method SummarizeSymbol(news: seq<NewsRow>, rows: seq<SheetRow>, generate: Generator, symbol: string)
    returns (row: Option<DigestRow>)
    ensures row == RowFor(news, rows, generate, symbol)
  {
    var latest := Latest(news, symbol);
    var skip := false;
    if |rows| > 0 {
      var saved := FirstUpdate(rows, symbol);
      if saved.Some? && saved.value == latest {
        skip := true;
      }
    }
    row := None;
    if !skip {
      var joined := Text.Strip(Text.Join(SummariesOf(news, symbol), "\n"));
      var summary := "";
      if joined != "" {
        var response := generate(Prompt + joined);
        summary := SummaryText(response);
      }
      row := Some(DigestRow(symbol, summary, latest));
    }
  }

  /** The digest of one more symbol adds that symbol's row, if it has one. */
  lemma DigestStep(symbols: seq<string>, rowFor: RowRule, k: int)
    requires 0 <= k < |symbols|
    ensures Digest(symbols[..k + 1], rowFor) ==
      Digest(symbols[..k], rowFor) + (if rowFor(symbols[k]).Some? then [rowFor(symbols[k]).value] else [])
  {
    assert symbols[..k + 1][..k] == symbols[..k];
  }

  /**
   * Every row of the digest is the rule's row for a listed symbol, and a listed symbol
   * has a row exactly when the rule gives it one.
   */
  lemma {:induction false} DigestRows(symbols: seq<string>, rowFor: RowRule, s: string)
    requires Keyed(rowFor)
    ensures |Digest(symbols, rowFor)| <= |symbols|
    ensures forall r :: r in Digest(symbols, rowFor) ==> r.symbol in symbols && rowFor(r.symbol) == Some(r)
    ensures (exists r :: r in Digest(symbols, rowFor) && r.symbol == s) <==> s in symbols && rowFor(s).Some?
  {
    if |symbols| > 0 {
      var n := |symbols| - 1;
      var front := symbols[..n];
      assert symbols == front + [symbols[n]];
      DigestRows(front, rowFor, s);
    }
  }

  /** Distinct symbols give a digest with at most one row per symbol, in the symbols' order. */
  lemma {:induction false} DigestOrder(symbols: seq<string>, rowFor: RowRule, i: int, j: int)
    requires Keyed(rowFor) && Distinct(symbols)
    requires 0 <= i < j < |Digest(symbols, rowFor)|
    ensures IndexOf(symbols, Digest(symbols, rowFor)[i].symbol) < IndexOf(symbols, Digest(symbols, rowFor)[j].symbol)
  {
    var n := |symbols| - 1;
    var front := symbols[..n];
    var d := Digest(front, rowFor);
    assert symbols == front + [symbols[n]];
    DigestRows(front, rowFor, symbols[n]);
    assert d[i] in d;
    IndexOfPrefix(front, [symbols[n]], d[i].symbol);
    if j < |d| {
      assert d[j] in d;
      IndexOfPrefix(front, [symbols[n]], d[j].symbol);
      DigestOrder(front, rowFor, i, j);
    } else {
      assert Digest(symbols, rowFor)[j].symbol == symbols[n];
      IndexOfDistinct(symbols, n);
    }
  }

  /** When every listed symbol gets a row, the digest is exactly those rows, in list order. */
  lemma {:induction false} DigestAll(symbols: seq<string>, rowFor: RowRule)
    requires forall x :: x in symbols ==> rowFor(x).Some?
    ensures |Digest(symbols, rowFor)| == |symbols|
    ensures forall i :: 0 <= i < |symbols| ==> Digest(symbols, rowFor)[i] == rowFor(symbols[i]).value
  {
    if |symbols| > 0 {
      var n := |symbols| - 1;
      assert symbols[n] in symbols;
      assert forall x :: x in symbols[..n] ==> x in symbols;
      DigestAll(symbols[..n], rowFor);
    }
  }

  /**
   * A symbol of the news sheet gets a row exactly when the saved sheet does not already
   * hold its latest date; the row carries that date, and rows come at most one per symbol
   * in order of first appearance.
   */
  lemma Summarized(news: seq<NewsRow>, existing: Option<seq<SheetRow>>, generate: Generator, s: string)
    ensures (exists r :: r in SummarizeSpec(news, existing, generate) && r.symbol == s) <==>
              s in Symbols(news) && !UpToDate(Existing(existing), news, s)
    ensures forall r :: r in SummarizeSpec(news, existing, generate) ==>
              r.symbol in Symbols(news) && r.lastUpdated == Latest(news, r.symbol)
  {
    var rows := Existing(existing);
    var rowFor := Rule(news, rows, generate);
    DigestRows(Unique(Symbols(news)), rowFor, s);
    RowForCases(news, rows, generate, s);
    forall r | r in SummarizeSpec(news, existing, generate)
      ensures r.lastUpdated == Latest(news, r.symbol)
    {
      RowForCases(news, rows, generate, r.symbol);
    }
  }

  lemma SummarizedOrder(news: seq<NewsRow>, existing: Option<seq<SheetRow>>, generate: Generator, i: int, j: int)
    requires 0 <= i < j < |SummarizeSpec(news, existing, generate)|
    ensures var d := SummarizeSpec(news, existing, generate);
            IndexOf(Symbols(news), d[i].symbol) < IndexOf(Symbols(news), d[j].symbol)
  {
    var symbols := Unique(Symbols(news));
    var rowFor := Rule(news, Existing(existing), generate);
    var d := SummarizeSpec(news, existing, generate);
    DigestOrder(symbols, rowFor, i, j);
    DigestRows(symbols, rowFor, d[i].symbol);
    assert d[i] in d && d[j] in d;
    UniqueFirstAppearance(Symbols(news), IndexOf(symbols, d[i].symbol), IndexOf(symbols, d[j].symbol));
  }

  /** An unreadable saved sheet counts as an empty one: every symbol is summarised afresh. */
  lemma MissingSheet(news: seq<NewsRow>, generate: Generator)
    ensures SummarizeSpec(news, None, generate) == SummarizeSpec(news, Some([]), generate)
    ensures |SummarizeSpec(news, None, generate)| == |Unique(Symbols(news))|
    ensures forall i :: 0 <= i < |Unique(Symbols(news))| ==>
              SummarizeSpec(news, None, generate)[i].symbol == Unique(Symbols(news))[i]
  {
    var rowFor := Rule(news, [], generate);
    forall x ensures rowFor(x).Some? {
      RowForCases(news, [], generate, x);
    }
    DigestAll(Unique(Symbols(news)), rowFor);
  }

  /** The row before `analyze_sentiment`: no sentiment columns yet. */
  function Unscored(r: DigestRow): ScoredRow {
    ScoredRow(r.symbol, Some(r.summary), r.lastUpdated, Null, Null)
  }

  /** The row after `analyze_sentiment`: classified when its summary is present, blank otherwise. */
  function Analyzed(r: ScoredRow, classify: Classifier): ScoredRow {
    if r.summary.Some? then
      var verdict := classify(r.summary.value);
      r.(sentiment := Text(verdict.0), confidence := Num(verdict.1))
    else
      r.(sentiment := Text(""), confidence := Text(""))
  }

  method AnalyzeSentiment(df: array<ScoredRow>, classify: Classifier)
    modifies df
    ensures forall i :: 0 <= i < df.Length ==> df[i] == Analyzed(old(df[i]), classify)
  {
    for i := 0 to df.Length
      invariant forall k :: 0 <= k < i ==> df[k] == old(df[k]).(sentiment := Text(""), confidence := Text(""))
      invariant forall k :: i <= k < df.Length ==> df[k] == old(df[k])
    {
      df[i] := df[i].(sentiment := Text(""), confidence := Text(""));
    }
    for i := 0 to df.Length
      invariant forall k :: 0 <= k < i ==> df[k] == Analyzed(old(df[k]), classify)
      invariant forall k :: i <= k < df.Length ==> df[k] == old(df[k]).(sentiment := Text(""), confidence := Text(""))
    {
      if df[i].summary.Some? {
        var verdict := classify(df[i].summary.value);
        df[i] := df[i].(sentiment := Text(verdict.0), confidence := Num(verdict.1));
      }
    }
  }

  /**
   * Sentiment analysis touches only the two new columns; it classifies exactly the rows
   * with a summary, the empty summary included, and running it again changes nothing.
   */
  lemma AnalyzedCases(r: ScoredRow, classify: Classifier)
    ensures var a := Analyzed(r, classify);
            a.symbol == r.symbol && a.summary == r.summary && a.lastUpdated == r.lastUpdated
    ensures r.summary.Some? <==> Analyzed(r, classify).confidence.Num?
    ensures r.summary == Some("") ==> Analyzed(r, classify).sentiment == Text(classify("").0)
    ensures Analyzed(Analyzed(r, classify), classify) == Analyzed(r, classify)
  {
  }

  /** The digest as `analyze_sentiment` leaves it. */
  function Scored(d: seq<DigestRow>, classify: Classifier): (rows: seq<ScoredRow>)
    ensures |rows| == |d|
  {
    seq(|d|, i requires 0 <= i < |d| => Analyzed(Unscored(d[i]), classify))
  }

  /** The whole run: nothing is written when no symbol needs a new summary. */
  function RunSpec(news: seq<NewsRow>, existing: Option<seq<SheetRow>>, generate: Generator, classify: Classifier): Option<Upload> {
    var d := SummarizeSpec(news, existing, generate);
    if |d| == 0 then None else Some(Upload(SummaryCsv, SummarySheet, Scored(d, classify)))
  }

  method Run(news: seq<NewsRow>, existing: Option<seq<SheetRow>>, generate: Generator, classify: Classifier)
    returns (out: Option<Upload>)
    ensures out == RunSpec(news, existing, generate, classify)
  {
    var digest := SummarizeNews(news, existing, generate);
    if |digest| == 0 {
      return None;
    }
    var df := new ScoredRow[|digest|](i requires 0 <= i < |digest| => Unscored(digest[i]));
    ghost var before := df[..];
    AnalyzeSentiment(df, classify);
    ScoredFrom(digest, before, df[..], classify);
    out := Some(Upload(SummaryCsv, SummarySheet, df[..]));
  }

  /** Classifying the unscored digest row by row gives the scored digest. */
  lemma ScoredFrom(d: seq<DigestRow>, before: seq<ScoredRow>, after: seq<ScoredRow>, classify: Classifier)
    requires |before| == |after| == |d|
    requires forall i :: 0 <= i < |d| ==> before[i] == Unscored(d[i])
    requires forall i :: 0 <= i < |d| ==> after[i] == Analyzed(before[i], classify)
    ensures after == Scored(d, classify)
  {
    var expected := Scored(d, classify);
    assert forall i :: 0 <= i < |d| ==> after[i] == expected[i];
  }

  /**
   * The upload happens exactly when some symbol was summarised; it holds one classified
   * row per digest row, with the digest's symbol, summary and date.
   */
  lemma RunUploads(news: seq<NewsRow>, existing: Option<seq<SheetRow>>, generate: Generator, classify: Classifier)
    ensures var out := RunSpec(news, existing, generate, classify);
            out.None? <==> |SummarizeSpec(news, existing, generate)| == 0
    ensures var out := RunSpec(news, existing, generate, classify);
            var d := SummarizeSpec(news, existing, generate);
            out.Some? ==>
              out.value.file == SummaryCsv && out.value.sheet == SummarySheet && |out.value.rows| == |d| &&
              forall i :: 0 <= i < |d| ==>
                out.value.rows[i].symbol == d[i].symbol &&
                out.value.rows[i].summary == Some(d[i].summary) &&
                out.value.rows[i].lastUpdated == d[i].lastUpdated &&
                out.value.rows[i].sentiment == Text(classify(d[i].summary).0) &&
                out.value.rows[i].confidence == Num(classify(d[i].summary).1)
  {
    var d := SummarizeSpec(news, existing, generate);
    ScoredRows(d, classify);
  }

  /** Each scored row carries its digest row and the classifier's verdict on its summary. */
  lemma ScoredRows(d: seq<DigestRow>, classify: Classifier)
    ensures forall i :: 0 <= i < |d| ==>
      var r := Scored(d, classify)[i];
      r.symbol == d[i].symbol && r.summary == Some(d[i].summary) && r.lastUpdated == d[i].lastUpdated &&
      r.sentiment == Text(classify(d[i].summary).0) && r.confidence == Num(classify(d[i].summary).1)
  {
  }
}
