# Market dashboard data pipeline — a verified model

This project models the data-handling core of a market dashboard that scrapes index
component tables from TradingView, index prices from Investing.com, price history from
Yahoo Finance and news from a Google sheet. It cleans each of them into tables,
stores them in MySQL or uploads them, and summarises and scores the news.

Everything outside that core is a parameter of the model:
- the browser, which gives the page's cell texts;
- the downloads;
- the clock, which gives a timestamp string;
- the summarising model and the sentiment classifier, which are functions;
- the database, which is a value held by the connector.

The modules, one per file, are:

- `Wrappers`: `Option` and `Result`.
- `Text`: Python string operations used by the pipeline:
  - `strip`, `replace`, `split(c, 1)` and `join`;
  - filtering a regex character class;
  - code-point string order and `max`.
- `Decimal`: `float(s)` on decimal literals, exactly, into `real`.
- `Frames`: the pandas DataFrame operations the scripts use, over frames whose cells are a missing value, a text or a number:
  - `insert`, scalar column assignment, `reindex` and projection;
  - row masks and `concat`.
- `SqlTable`: the MySQL engine as far as the connector drives it:
  - `CREATE TABLE IF NOT EXISTS` with a primary key;
  - the multi-row `INSERT … ON DUPLICATE KEY UPDATE`, which is atomic per statement;
  - the key tuple of a row and the table invariant (unique key tuples, no NULL in a key column).
- `Retention`: the ranked `DELETE` of `_enforce_max_rows`:
  - `ROW_NUMBER() OVER (PARTITION BY Symbol ORDER BY sort_col DESC)`;
  - the join on the connector's key columns, which need not be the table's own key, and whose `=` never matches NULL;
  - the per-symbol cap.
- `MySqlConnector`: `MySQLDataConnector`, a class whose database table is a field. Its methods build the statements of `mysql_api.py` and apply them.
- `ComponentTable`: shaping one symbol's scraped grid under the 14 standard headers. This is shared by both TradingView scrapers.
- `TradingViewComponents`: `scrape_symbol_component` and `scrape_all` of `scraping.py`.
- `TradingViewOverview`: `scrape_tradingview_overview`:
  - the collection loop;
  - the dash, number, sign and unit cleaning;
  - the symbol/description split and the column order.
- `InvestingTable`: `scrape_investing_price` (byte for byte the same code as `scrape_investing_technical`) and its script.
- `YahooPrices`: `clean_data`, `process_all_symbols`, and the script that stores minute and daily bars under per-symbol caps of 1440 and 3650 rows.
- `NewsDigest`: `summarize_news`, `analyze_sentiment` and the script that uploads the scored digest.

Code that works step by step is imperative here:
- the connector class;
- the loops that collect rows, frames and summaries;
- the in-place sentiment pass over an array.

Each such method is proved equal to a specification function, and the properties are lemmas about those functions.

## Model

| member | source | states |
|---|---|---|
| MySqlConnector.NormalizeKeys | mysql_api.py:21 | a non-list key argument becomes a one-element list (`None` gives `[None]`); a list stays as given; only the empty list gives no keys |
| MySqlConnector.KeyColumns | mysql_api.py:47 | one key column name per key, in key order |
| MySqlConnector.VarcharDefs | mysql_api.py:44 | one VARCHAR(255) definition per frame column, in column order |
| MySqlConnector.ColumnDefinitions | mysql_api.py:44-48 | the column definitions, plus a PRIMARY KEY clause exactly when the key list is non-empty |
| MySqlConnector.DeclaredVarchars | mysql_api.py:44 | the VARCHAR definitions declare exactly the frame's columns and no key |
| MySqlConnector.DefinitionsRoundTrip | mysql_api.py:44-53 | the generated definitions declare exactly the frame's columns and the key list |
| MySqlConnector.CreateEffect | mysql_api.py:44-61 | an existing table is left alone; a missing one is created empty with the frame's columns and key list when the engine accepts the definitions |
| MySqlConnector.CreateIdempotent | mysql_api.py:50-58 | a second creation with any frame changes nothing |
| MySqlConnector.UpdateColumns | mysql_api.py:79 | a column is in the update list exactly when it is a frame column not in the key list |
| MySqlConnector.UpdateColumnsEmpty | mysql_api.py:79 | the update list is empty exactly when every frame column is a key |
| MySqlConnector.InsertFor | mysql_api.py:75-89 | a keyed statement carries `ON DUPLICATE KEY UPDATE` over the non-key columns; an unkeyed one is a plain INSERT |
| MySqlConnector.ToSql | mysql_api.py:93 | exactly a missing cell is sent as NULL, and a text as itself |
| MySqlConnector.BatchValues | mysql_api.py:93 | one parameter tuple per frame row, in row order, one value per column |
| MySqlConnector.Applied | mysql_api.py:91-96 | the table after a statement: its result on success, unchanged on error |
| MySqlConnector.AllKeyBatchRejected | mysql_api.py:78-96 | when every column is a key the update clause is empty, the engine rejects the statement and the table is unchanged |
| MySqlConnector.InsertLastWriteWins | mysql_api.py:78-94 | after a successful insert with keys, whatever key the table has (or none), for each key tuple of the table's key the table holds a row whose update columns carry the last batch row with that key |
| MySqlConnector.TrimEffect | mysql_api.py:102-136 | the DELETE joins on the connector's key columns whatever key the table has: with keys, with `Symbol`, the sort column and the key columns present, and with key columns that are distinct and not `row_num`, only rows the table had remain; each symbol keeps at most min(n, cap) rows besides those a NULL join value strands past the cap; without NULL in the join columns at most min(n, cap), and exactly its top min(n, cap) when the join's key tuples are also unique (as when the table's key is among the join columns); otherwise the table is unchanged; the table stays valid |
| MySqlConnector.TrimApplied | mysql_api.py:108-136 | on an existing table the trim is the DELETE's rows when keys, a sort column and every named column exist and the key columns neither repeat nor name `row_num`, and the table unchanged otherwise |
| MySqlConnector.RepeatedJoinKeepsAll | mysql_api.py:112-136 | a key list that names a column twice or names `row_num` makes the derived table repeat a column; the DELETE fails, the error is caught, and no row is deleted |
| MySqlConnector.JoinedTrimFacts | mysql_api.py:117-128 | joined on any column list, the DELETE leaves a valid table of rows it had; each symbol keeps at most min(n, cap) rows besides NULL-stranded ones, at most min(n, cap) without NULL in the join columns, and exactly its top min(n, cap) when the join's tuples are also unique |
| MySqlConnector.JoinedTrimCounts | mysql_api.py:117-128 | each symbol keeps at most min(n, cap) rows besides those a NULL join value strands, and at most min(n, cap) without NULL in the join columns |
| MySqlConnector.SymbolKeyEmptiesPartition | mysql_api.py:117-128 | a connector keyed on `Symbol` alone deletes every row of a symbol that has more rows than the cap, and keeps every row whose `Symbol` is NULL |
| MySqlConnector.TrimSparesSmall | mysql_api.py:117-128 | when the join's key tuples are unique, a symbol already within the cap keeps all its rows, in order |
| MySqlConnector.InsertOrUpdateValid | mysql_api.py:63-100 | a whole `insert_or_update` keeps the table invariant; an existing table keeps its own key list, a table it creates gets the connector's |
| MySqlConnector.ToCell | mysql_api.py:151 | a stored NULL reads back as a missing value and a string as text |
| MySqlConnector.TableFrame | mysql_api.py:148-152 | `SELECT *` gives the table's columns and one row per stored row, in storage order |
| MySqlConnector.CellRoundTrip | mysql_api.py:93-151 | text and missing cells survive the write and the read back unchanged |
| MySqlConnector.ApplyBatch | mysql_api.py:93 | the loop applying each batch row as an upsert equals the whole-batch upsert |
| MySqlConnector.RowNumber | mysql_api.py:123 | the scan counting rows of the same symbol ranked ahead gives the row's `ROW_NUMBER() - 1` |
| MySqlConnector.AheadBelowStep | mysql_api.py:123 | the count of rows ahead grows by one exactly when the next row is ahead |
| MySqlConnector.TrimRows | mysql_api.py:117-128 | collecting the subquery's tuples and then keeping the unmatched rows equals the DELETE |
| MySqlConnector.CollectDoomed | mysql_api.py:119-126 | numbering every row by a scan collects exactly the NULL-free key tuples of the rows past the cap |
| MySqlConnector.KeepRows | mysql_api.py:118-128 | the scan keeps exactly the rows whose key tuple the subquery does not hold, in storage order |
| MySqlConnector.Connector.constructor | mysql_api.py:10-24 | the key argument is normalised; cap, sort column and connection state are kept; any existing table satisfying the engine's invariant is accepted, whatever its key |
| MySqlConnector.Connector.CreateTableIfNotExists | mysql_api.py:38-61 | without a connection nothing changes; otherwise the table is the creation's effect; validity is kept |
| MySqlConnector.Connector.InsertOrUpdate | mysql_api.py:63-100 | without a connection or for an empty frame nothing changes; otherwise create, insert the batch, then trim when cap and sort column are set |
| MySqlConnector.Connector.EnforceMaxRows | mysql_api.py:102-136 | without a connection, keys or sort column nothing changes; otherwise the table is the result of the DELETE joined on the connector's keys, where `=` never matches NULL, or unchanged when the engine rejects that DELETE (a missing column, or key columns that repeat or name `row_num`); validity is kept |
| MySqlConnector.Connector.ReadTable | mysql_api.py:138-155 | the empty frame without a connection; a missing table raises (pandas' `DatabaseError` escapes `except Error`); otherwise the table as a frame |
| SqlTable.Key | mysql_api.py:47 | the key tuple has one value per key column, in key order |
| SqlTable.CreateTable | mysql_api.py:50-53 | an existing table is returned unchanged; a missing one is created empty with the given columns and key exactly when the columns are non-empty and distinct and the keys distinct columns |
| SqlTable.FindKey | mysql_api.py:83 | the position of the row with the given key tuple, or -1 when no row has it |
| SqlTable.FindKeyUnique | mysql_api.py:83 | with unique key tuples, the row found is the only one with that key |
| SqlTable.Assign | mysql_api.py:79 | the update columns take the new values and every other column keeps its value |
| SqlTable.AssignKeepsKey | mysql_api.py:79-83 | an update from a row with the same key tuple keeps the key tuple |
| SqlTable.UpsertShape | mysql_api.py:80-83 | one upsert keeps positions and key tuples, leaves other keys untouched, appends a new key and keeps key tuples unique |
| SqlTable.KeySetSame | mysql_api.py:83 | rows with the same key tuples position by position have the same key set |
| SqlTable.KeySetAppend | mysql_api.py:80-83 | appending a row adds its key tuple to the key set |
| SqlTable.UpsertIdempotent | mysql_api.py:80-83 | upserting the same row twice leaves the table as upserting it once |
| SqlTable.AssignSame | mysql_api.py:79 | assigning values a row already holds changes nothing |
| SqlTable.UpsertAllShape | mysql_api.py:80-93 | a batch keeps every old row's position and key and its non-update columns; untouched keys stay as they were; the key set is the old keys plus the batch keys |
| SqlTable.UpsertLands | mysql_api.py:80-83 | the row just upserted is at one position, under its own key, with its update values |
| SqlTable.UpsertKeepsOthers | mysql_api.py:80-83 | an upsert leaves every row with another key where it was |
| SqlTable.HoldsAfterOtherKey | mysql_api.py:80-83 | a row keeps its values when a row with another key is upserted |
| SqlTable.UpsertAllLastWriteWins | mysql_api.py:80-93 | for every key in the batch the table holds the update values of the last batch row with that key |
| SqlTable.BuildRow | mysql_api.py:81-82 | the stored row fits the table's columns and holds the given value in each listed column |
| SqlTable.InsertCheck | mysql_api.py:80-93 | the engine accepts only a statement with a non-empty update clause, distinct known columns, every key column given and full-width tuples |
| SqlTable.BatchRows | mysql_api.py:93 | one stored row per parameter tuple, in batch order |
| SqlTable.ExecInsert | mysql_api.py:93 | a missing table is an error, and an empty update clause a syntax error |
| SqlTable.BatchRowsFit | mysql_api.py:93 | rows built for a valid table have its width and no NULL key |
| SqlTable.UpsertAllFits | mysql_api.py:93 | upserting rows that fit keeps every row fitting |
| SqlTable.KeysUniqueWider | mysql_api.py:113-115 | key tuples unique on some columns stay unique on any column list that includes them |
| SqlTable.KeyColumnsNotNull | mysql_api.py:46-48 | a valid table holds no NULL in columns drawn from its PRIMARY KEY |
| SqlTable.ExecInsertValid | mysql_api.py:91-94 | a successful insert keeps the table invariant |
| Retention.SortsBeforeIrreflexive | mysql_api.py:123 | no value sorts before itself under `ORDER BY … DESC` |
| Retention.SortsBeforeTransitive | mysql_api.py:123 | the descending order is transitive |
| Retention.SortsBeforeTotal | mysql_api.py:123 | any two distinct values are ordered one way or the other |
| Retention.AheadIrreflexive | mysql_api.py:123 | no row is ranked ahead of itself |
| Retention.AheadTransitive | mysql_api.py:123 | being ranked ahead is transitive |
| Retention.AheadTotal | mysql_api.py:123 | of two distinct rows of one symbol, one is ranked ahead of the other |
| Retention.RankIncreases | mysql_api.py:123 | a row ranked ahead of another has a strictly smaller row number |
| Retention.RankBelowSize | mysql_api.py:123 | a row number is below the size of the row's partition |
| Retention.RankInjective | mysql_api.py:123 | distinct rows of one symbol have distinct row numbers |
| Retention.RankImageCard | mysql_api.py:123 | numbering the rows of one symbol keeps their count |
| Retention.RanksFillRange | mysql_api.py:123 | the row numbers of a symbol with n rows are exactly 0 … n-1 |
| Retention.SurvivorCount | mysql_api.py:123-126 | exactly min(n, cap) rows of a symbol are numbered within the cap |
| Retention.KeepUnmatched | mysql_api.py:118-128 | the kept rows are exactly the rows whose key tuple is not among the matched tuples, in storage order; `Doomed` holds only NULL-free tuples, so a row with a NULL join value is never matched |
| Retention.DoomedIffRanked | mysql_api.py:119-128 | with unique keys, a row is matched by the join exactly when it is numbered past the cap and its join tuple holds no NULL |
| Retention.NullJoinKept | mysql_api.py:113-115 | a row holding NULL in a join column is never matched by `t.pk = sub.pk`, so the DELETE keeps it |
| Retention.StrandedNone | mysql_api.py:113-115 | without NULL in the join columns no row past the cap escapes the join |
| Retention.TrimCount | mysql_api.py:117-128 | with unique join tuples each symbol keeps exactly min(n, cap) rows plus the rows past the cap that a NULL join value strands |
| Retention.TrimDominates | mysql_api.py:117-128 | no kept row whose join tuple holds no NULL sorts after a removed row of the same symbol |
| Retention.TrimSparesSmallPartitions | mysql_api.py:117-128 | a symbol with at most cap rows keeps them all, in order |
| Retention.TrimRetainsTop | mysql_api.py:117-128 | with unique join tuples free of NULL, the kept rows are exactly the top min(n, cap) rows of each symbol by the sort column |
| Retention.ExecDelete | mysql_api.py:117-136 | an error exactly when the table is missing, there is no key, a `Symbol`, sort or key column is missing, or the derived table would repeat a column name (a key named twice, or named `row_num`); otherwise the rows become the trimmed rows, NULL-joined rows included |
| Retention.TrimValid | mysql_api.py:117-128 | the DELETE keeps the table invariant, whatever key columns it joins on |
| Retention.KeepUniqueSub | mysql_api.py:117-128 | keeping the rows a join on any key list does not match keeps the table's own key tuples unique |
| Retention.TrimCountBound | mysql_api.py:117-128 | whatever the join keys, each symbol keeps at most min(n, cap) of its n rows besides the rows a NULL join value strands past the cap |
| Retention.PartitionJoinEmpties | mysql_api.py:117-128 | joined on `Symbol` alone, a non-NULL symbol with more rows than the cap loses all of them, and the NULL symbol keeps all of them |
| Text.MaxText | news_summarizer_sentiment_analyzer.py:60 | the maximum is one of the strings and none is greater |
| Text.BelowTotal | news_summarizer_sentiment_analyzer.py:60 | any two distinct strings are ordered one way or the other |
| Text.BelowTransitive | news_summarizer_sentiment_analyzer.py:60 | string order is transitive |
| Text.BelowIrreflexive | news_summarizer_sentiment_analyzer.py:60 | no string is below itself |
| Text.BelowAsymmetric | news_summarizer_sentiment_analyzer.py:60 | no two strings are each below the other |
| Text.JoinAllSpace | news_summarizer_sentiment_analyzer.py:79 | a join with a newline is whitespace only exactly when every part is |
| Text.Strip | scraping.py:85 | no leading or trailing whitespace remains, and the result is the text with only whitespace cut from each end |
| Text.StripTrimmed | scraping.py:85 | text without surrounding whitespace is its own strip |
| Text.StripEmpty | news_summarizer_sentiment_analyzer.py:79-81 | the strip is empty exactly when the text is whitespace only |
| Text.RemoveChar | scraping_tradingview_overview.py:115 | the character no longer occurs and every other character occurs exactly when it did |
| Text.KeepChars | scraping_tradingview_overview.py:112 | a character remains exactly when it occurred and is in the class |
| Text.RemoveCharAppend | scraping_tradingview_overview.py:115 | removing a character from joined text removes it from each part |
| Text.RemoveCharAbsent | scraping_tradingview_overview.py:115 | text without the character is unchanged |
| Text.KeepCharsAppend | scraping_tradingview_overview.py:112 | filtering joined text filters each part |
| Text.KeepCharsAll | scraping_tradingview_overview.py:112 | text whose characters are all kept is unchanged |
| Text.RemoveCharSpace | scraping_tradingview_overview.py:119 | whitespace stays whitespace when a character is removed |
| Text.SplitFirst | scraping_tradingview_overview.py:131 | the part before the first separator, and the rest after it when there is one |
| Decimal.NatText | scraping_tradingview_overview.py:121-126 | `str(n)` is a non-empty digit string |
| Decimal.NatTextValue | scraping_tradingview_overview.py:121-126 | reading back `str(n)` gives n |
| Decimal.ParseDecimal | scraping_tradingview_overview.py:121-126 | `float(s)` gives a number only for text that is not blank once stripped |
| Decimal.BlankRejected | scraping_tradingview_overview.py:126 | blank text, the empty text included, is not a number |
| Decimal.ParseNat | scraping_tradingview_overview.py:126 | `float(str(n))` is n |
| Decimal.ParseFraction | scraping_tradingview_overview.py:126 | `float(str(a) + "." + ds)` is a plus ds read as a fraction |
| Decimal.ParseNegative | scraping_tradingview_overview.py:126 | `float("-" + str(n))` is -n |
| Frames.IndexOf | scraping.py:116 | the first position of the name, or -1 exactly when it is absent |
| Frames.IndexOfDistinct | scraping.py:102 | in distinct names each name is found at its own position |
| Frames.InsertFirst | scraping.py:96 | a new first column holds the value in every row; the other cells move one place right |
| Frames.CellOr | scraping.py:102 | the row's cell under the name, or the fill when the frame lacks it |
| Frames.Reindex | scraping.py:102 | exactly the target columns, in order, each holding the old cell or the fill |
| Frames.Select | scraping_investing_price.py:83 | exactly the named columns, in order, with their cells |
| Frames.MapColumn | scraping_tradingview_overview.py:112 | the named column holds the function of its old cells; other columns are unchanged |
| Frames.SetColumn | scraping.py:99 | every column of that name is overwritten in every row, otherwise the column is appended last |
| Frames.SetColumnKeeps | scraping.py:99 | setting a column leaves every other column and its cells in place |
| Frames.FilterRows | scraping_tradingview_overview.py:107 | a row is kept exactly when it is a row meeting the condition, and no rows are added |
| Frames.Where | scraping.py:116 | a row mask keeps the columns and its rows are the filtered rows |
| Frames.UnionColumns | scraping.py:115 | the names seen so far followed by the new ones: a name is listed exactly when some frame has it, and distinct names stay distinct |
| Frames.ConcatUniform | scraping.py:115 | frames sharing distinct columns concatenate to those columns over all their rows, unchanged |
| Frames.ReindexSame | scraping.py:102 | reindexing onto a frame's own distinct columns changes nothing |
| Frames.FlattenRows | scraping.py:115 | the row count is the sum of the blocks' row counts and every row comes from one block |
| Frames.ConcatNotEmpty | yfinance_data_fetcher.py:107-108 | concatenating frames whose first frame is not empty gives a frame that is not empty |
| Frames.InFlatFrame | scraping.py:115 | a concatenated row sits at some position of some frame |
| ComponentTable.HeadersDistinct | scraping.py:48-49 | the 14 headers are distinct, starting with `Pair`, `Symbol` and ending with `Last Updated` |
| ComponentTable.TradingViewId | scraping.py:61 | the mapped identifier for a known symbol, the symbol itself otherwise |
| ComponentTable.SymbolsMapped | scraping.py:40-45 | each of the ten visited symbols has its own TradingView identifier |
| ComponentTable.StripCells | scraping.py:84-85 | one stripped text per page cell, row by row |
| ComponentTable.MaxCols | scraping.py:91 | at least every row's length and, for rows, the length of one of them |
| ComponentTable.Pad | scraping.py:95 | the row's texts followed by missing cells up to the width |
| ComponentTable.GridFrame | scraping.py:95 | the named columns, one padded row per grid row |
| ComponentTable.PairFrame | scraping.py:91-96 | data columns named by the headers after `Pair`, then `Pair` inserted first |
| ComponentTable.ShapeGrid | scraping.py:87-102 | no frame for an empty grid or a too-wide row; otherwise exactly the headers and one row per grid row |
| ComponentTable.PairColumns | scraping.py:92-96 | the `Pair` frame's columns are the first headers |
| ComponentTable.StampedColumnList | scraping.py:99 | before the reindex the columns are all headers or the first ones followed by `Last Updated` |
| ComponentTable.StampedDropped | scraping.py:92-99 | a data header past the widest row is not a column before the reindex |
| ComponentTable.StampedDistinct | scraping.py:99 | the columns before the reindex are distinct |
| ComponentTable.ShapeGridCells | scraping.py:91-102 | each cell: the symbol under `Pair`, the time under `Last Updated`, the row's texts, missing cells, or the fill past the widest row |
| ComponentTable.StampedCell | scraping.py:96-99 | the cell before the reindex under each header it holds |
| ComponentTable.StampedLast | scraping.py:99 | `Last Updated` is a column and every row holds the time |
| ComponentTable.StampedFront | scraping.py:96-99 | a leading cell holds the symbol or the padded row |
| ComponentTable.PairCell | scraping.py:95-96 | a `Pair`-frame cell holds the symbol or the padded row |
| TradingViewComponents.ScrapeSymbolComponent | scraping.py:55-108 | no frame exactly when `driver.get` raised, which is outside the `try`; otherwise the frame, empty or not, has exactly the headers |
| TradingViewComponents.ScrapeSymbolRows | scraping.py:87-104 | for a reached page, rows exist exactly when the page loaded and the grid can be shaped, one per table row |
| TradingViewComponents.WideRowRejected | scraping.py:91-108 | a row with more than 13 cells yields the empty frame |
| TradingViewComponents.ScrapeSymbolCells | scraping.py:91-102 | `Pair` is the symbol, `Last Updated` the time, data headers the stripped texts, then missing cells, then `N/A` |
| TradingViewComponents.SymbolPresent | scraping.py:95-116 | a shaped row has a `Symbol` exactly when its table row had a cell |
| TradingViewComponents.ScrapeAll | scraping.py:61-121 | nothing is written and no name returned exactly when some page cannot be navigated to; otherwise the CSV is written to `tradingview_indices_components.csv` |
| TradingViewComponents.UnreachableAborts | scraping.py:61-121 | one page whose navigation raises aborts `scrape_all`, whatever the other pages hold |
| TradingViewComponents.ScrapeAllShape | scraping.py:114-117 | the saved table has the headers and the rows of the symbol frames, in order, that have a `Symbol` |
| TradingViewComponents.FilterSame | scraping.py:116 | two conditions agreeing on every row keep the same rows |
| TradingViewComponents.SavedOnlyShaped | scraping.py:112-116 | a saved row is a shaped row, with a cell, of some symbol |
| TradingViewComponents.SavedInFlat | scraping.py:115-116 | a saved row is a concatenated row with a `Symbol` |
| TradingViewComponents.FrameRowSaved | scraping.py:112-116 | a symbol-frame row with a `Symbol` is a shaped row with a cell |
| TradingViewComponents.SavedAllShaped | scraping.py:112-116 | every shaped row with a cell, of every symbol, is saved |
| TradingViewComponents.ScrapeAllKeeps | scraping.py:112-117 | with every page reached, a row is saved exactly when it is a shaped row whose table row had a cell |
| TradingViewComponents.ScraperConfigured | scraping.py:40-49 | the scraper's headers and symbols meet the lemmas' requirements |
| TradingViewOverview.Contribution | scraping_tradingview_overview.py:76-103 | a contributed frame has exactly the headers and is well formed |
| TradingViewOverview.ContributionShape | scraping_tradingview_overview.py:87-99 | a symbol contributes exactly when its page loaded and its grid can be shaped, one row per table row |
| TradingViewOverview.SomesMembers | scraping_tradingview_overview.py:99 | kept values are present ones, and none is kept exactly when none is present |
| TradingViewOverview.Collected | scraping_tradingview_overview.py:68-103 | at most one frame per symbol, each under the headers |
| TradingViewOverview.CollectFrames | scraping_tradingview_overview.py:68-103 | the collection loop raises exactly when some page cannot be navigated to (`driver.get` precedes the `try`), and otherwise equals `Collected` |
| TradingViewOverview.CollectedEmpty | scraping_tradingview_overview.py:90-105 | nothing is collected exactly when no symbol contributes |
| TradingViewOverview.CollectedHasSymbol | scraping_tradingview_overview.py:90-99 | every collected frame has a row with a `Symbol` |
| TradingViewOverview.ContributionHasSymbol | scraping_tradingview_overview.py:90-98 | a contributed frame has a row with a `Symbol` |
| TradingViewOverview.KeepNumber | scraping_tradingview_overview.py:110-112 | a text keeps exactly its digit, point, whitespace and K/M/B characters; other cells stay non-text |
| TradingViewOverview.DropPlus | scraping_tradingview_overview.py:114-115 | a text loses its `+` characters and keeps every other character; other cells stay non-text |
| TradingViewOverview.FirstTag | scraping_tradingview_overview.py:131 | the tag found follows a newline at the end of the text |
| TradingViewOverview.EndTag | scraping_tradingview_overview.py:131 | the tag the alternation matches at the end, if any |
| TradingViewOverview.SplitSymbol | scraping_tradingview_overview.py:131 | a text symbol has no newline, and a description exists only where a newline survived the tag removal |
| TradingViewOverview.MapCells | scraping_tradingview_overview.py:108 | every cell equal to the value is replaced, every other cell kept |
| TradingViewOverview.MapColumnsCells | scraping_tradingview_overview.py:110-115 | each named column holds the transform of its old cells and every other column is unchanged |
| TradingViewOverview.CleanColumns | scraping_tradingview_overview.py:110-115 | the column loop equals `MapColumns` |
| TradingViewOverview.ConvertColumn | scraping_tradingview_overview.py:117-130 | the column is converted in every row exactly when every cell converts; other columns are unchanged |
| TradingViewOverview.SplitColumn | scraping_tradingview_overview.py:131 | `Symbol` becomes its first part and `Description` is appended; it fails exactly when no row has a description |
| TradingViewOverview.CleanOverview | scraping_tradingview_overview.py:106-133 | the cleaning steps in order equal `CleanSpec` |
| TradingViewOverview.ScrapeOverview | scraping_tradingview_overview.py:68-139 | the whole run equals the specification: raise on an unreachable page, else collect, clean, save |
| TradingViewOverview.OverviewNothingSaved | scraping_tradingview_overview.py:105-139 | the name is returned without a CSV exactly when every page was reached and no symbol contributes |
| TradingViewOverview.UnreachableRaises | scraping_tradingview_overview.py:70-76 | a page whose navigation raises makes the whole run raise |
| TradingViewOverview.WithoutPlain | scraping_tradingview_overview.py:132 | dropping absent names leaves the list unchanged |
| TradingViewOverview.WithoutAppend | scraping_tradingview_overview.py:132 | a trailing dropped name adds nothing |
| TradingViewOverview.WithoutOrder | scraping_tradingview_overview.py:131-133 | after the split the order is `Symbol`, `Description`, the first header and the rest |
| TradingViewOverview.OverviewOrder | scraping_tradingview_overview.py:131-133 | the saved columns are `Symbol`, `Description`, `Pair`, then the headers after `Symbol` |
| TradingViewOverview.CleanRows | scraping_tradingview_overview.py:107 | one cleaned row per concatenated row with a `Symbol` |
| TradingViewOverview.OverviewShape | scraping_tradingview_overview.py:105-136 | a saved overview has the ordered columns, one row per concatenated row with a `Symbol`, and is never empty |
| TradingViewOverview.BlankVolumeRaises | scraping_tradingview_overview.py:108-129 | a kept row whose `Volume` is a dash or blank makes the whole run raise |
| TradingViewOverview.FilteredBlankRaises | scraping_tradingview_overview.py:126-129 | a blank `Volume` after the dash replacement makes the conversion raise |
| TradingViewOverview.FilteredVolume | scraping_tradingview_overview.py:107-115 | before conversion, a kept row's `Volume` has only had the dash replaced |
| TradingViewOverview.ConvertBlank | scraping_tradingview_overview.py:126 | blank text is not a number: the conversion raises |
| TradingViewOverview.ConvertPlain | scraping_tradingview_overview.py:126 | a whole number without a unit converts to itself |
| TradingViewOverview.UnitMultipliers | scraping_tradingview_overview.py:121-125 | K, M and B multiply by 10^3, 10^6 and 10^9 |
| TradingViewOverview.ConvertUnit | scraping_tradingview_overview.py:117-125 | a whole number with a K, M or B suffix converts to the number times its unit |
| TradingViewOverview.UnitDispatch | scraping_tradingview_overview.py:120-125 | the first unit letter in K, M, B order decides the multiplier |
| TradingViewOverview.TrillionDropped | scraping_tradingview_overview.py:112 | a `T` suffix is dropped by the number filter and the digits stay |
| TradingViewOverview.PlusDropped | scraping_tradingview_overview.py:115 | every `+` goes and the rest is kept |
| TradingViewOverview.SplitSymbolTagged | scraping_tradingview_overview.py:131 | name, newline, one-line description and tag split into the name and the description, and likewise without the tag |
| TradingViewOverview.SplitSymbolPlain | scraping_tradingview_overview.py:131 | a symbol without a newline is itself, with no description |
| TradingViewOverview.NoNewlineNoTag | scraping_tradingview_overview.py:131 | text without a newline has no tag |
| TradingViewOverview.TagRemoved | scraping_tradingview_overview.py:131 | a trailing newline and tag are removed |
| TradingViewOverview.NoTag | scraping_tradingview_overview.py:131 | a one-line description that is not a tag is kept |
| TradingViewOverview.SplitAtNewline | scraping_tradingview_overview.py:131 | a newline-free name and its description split at the newline |
| TradingViewOverview.SplitUnique | scraping_tradingview_overview.py:131 | text splits at its first newline in one way only |
| InvestingTable.PriceHeadersLayout | scraping_investing_price.py:39 | eight headers, the first unnamed, then `Name` … `Time` |
| InvestingTable.CollectRows | scraping_investing_price.py:67-71 | the loop with its conditional append equals `Kept` |
| InvestingTable.KeptWidth | scraping_investing_price.py:70-71 | every kept row has exactly one cell per header |
| InvestingTable.KeptMembers | scraping_investing_price.py:68-71 | a row is kept exactly when it truncates a page row with enough cells |
| InvestingTable.KeptAppend | scraping_investing_price.py:68-71 | kept rows keep the page order |
| InvestingTable.KeptAll | scraping_investing_price.py:68-71 | when every row is wide enough each is kept in place |
| InvestingTable.KeptEmpty | scraping_investing_price.py:74-76 | nothing is kept exactly when no row has enough cells |
| InvestingTable.PriceFrame | scraping_investing_price.py:78-83 | the saved frame has the headers after the first and one row per kept row |
| InvestingTable.PriceFrameCells | scraping_investing_price.py:78-83 | each saved cell is the kept cell one place to the right |
| InvestingTable.ScrapeInvestingPrice | scraping_investing_price.py:60-92 | the scrape equals its specification for any page |
| InvestingTable.ScrapeNothing | scraping_investing_price.py:74-92 | nothing is saved exactly when the page failed or no row is wide enough |
| InvestingTable.ScrapeSaved | scraping_investing_price.py:78-88 | the saved CSV has the headers after the first and the kept rows in order, each cell shifted by one |
| InvestingTable.KeptCell | scraping_investing_price.py:71 | a kept cell is the stripped page cell in the same place |
| InvestingTable.RunUploads | scraping_investing_price.py:97-105 | the upload happens exactly when a CSV was written, always the same file to the same sheet |
| YahooPrices.ConfigDefaults | yfinance_data_fetcher.py:25-29 | missing settings default to 7d/1m and 10y/1d; present ones win |
| YahooPrices.FetchData | yfinance_data_fetcher.py:43-50 | a failed download gives the empty frame |
| YahooPrices.Occurrences | yfinance_data_fetcher.py:71 | zero exactly when no column has the name |
| YahooPrices.ResetIndex | yfinance_data_fetcher.py:66 | the index name becomes the first column, one row per download row |
| YahooPrices.Renamed | yfinance_data_fetcher.py:71 | every `Date` and `datetime` column is called `Datetime`, others unchanged |
| YahooPrices.Present | yfinance_data_fetcher.py:84 | a name is listed exactly when it is a price name and a column |
| YahooPrices.CleanColumns | yfinance_data_fetcher.py:82-84 | the projection as pandas expands it over repeated names: every `Symbol` column first, then `Datetime` at the position after them, then the present prices |
| YahooPrices.Finish | yfinance_data_fetcher.py:82-84 | the columns are every `Symbol` column (one when there was none), `Datetime` and the present price columns, one row per row |
| YahooPrices.CleanData | yfinance_data_fetcher.py:63-84 | the steps in order equal `CleanSpec` |
| YahooPrices.ConvertPrices | yfinance_data_fetcher.py:77-80 | the price loop equals `Numeric` |
| YahooPrices.NumericErr | yfinance_data_fetcher.py:78-80 | once the loop has raised later names do not change it |
| YahooPrices.CleanEmpty | yfinance_data_fetcher.py:63-64 | an empty download is returned untouched |
| YahooPrices.NumericStep | yfinance_data_fetcher.py:78-80 | one more name raises exactly when it names two columns |
| YahooPrices.NumericOk | yfinance_data_fetcher.py:77-80 | the loop raises exactly when a visited name names two columns |
| YahooPrices.OccurrencesOnce | yfinance_data_fetcher.py:71 | a unique name occurs once |
| YahooPrices.OccurrencesTwo | yfinance_data_fetcher.py:71 | two positions with one name count at least twice |
| YahooPrices.CleanOutcome | yfinance_data_fetcher.py:63-84 | raises exactly on a missing or repeated `Datetime` or a repeated price column, never on a repeated `Symbol`; otherwise keeps every row under every `Symbol` column, `Datetime` and the price columns present |
| YahooPrices.FinishCells | yfinance_data_fetcher.py:82-84 | every `Symbol` column holds the argument and `Datetime` the converted cell |
| YahooPrices.CleanCells | yfinance_data_fetcher.py:72-84 | every `Symbol` column of a cleaned row holds the symbol, and its `Datetime` its own converted timestamp |
| YahooPrices.DatetimeNotNumeric | yfinance_data_fetcher.py:77 | `Datetime` is not a price column |
| YahooPrices.StampedDatetime | yfinance_data_fetcher.py:72-75 | row i's `Datetime` is its converted cell |
| YahooPrices.CleanIsFinish | yfinance_data_fetcher.py:63-84 | a successful clean is the projection of the converted frame |
| YahooPrices.NumericDatetime | yfinance_data_fetcher.py:78-80 | the price conversions leave `Datetime` alone |
| YahooPrices.Contribution | yfinance_data_fetcher.py:101-104 | on success nothing exactly for an empty download, otherwise one non-empty frame |
| YahooPrices.Contribute | yfinance_data_fetcher.py:101-104 | the method equals `Contribution` |
| YahooPrices.Step | yfinance_data_fetcher.py:96-104 | on success both lists only grow, by non-empty frames |
| YahooPrices.AddSymbol | yfinance_data_fetcher.py:96-104 | the loop body equals `Step` |
| YahooPrices.Accumulated | yfinance_data_fetcher.py:93-104 | on success every frame of both lists is well formed and non-empty |
| YahooPrices.ContributionKept | yfinance_data_fetcher.py:101-104 | a one-frame contribution is the cleaned download |
| YahooPrices.ProcessAllSymbols | yfinance_data_fetcher.py:93-109 | the method equals the specification |
| YahooPrices.AccumulatedErr | yfinance_data_fetcher.py:95-104 | a symbol whose cleaning raises ends the run with that error |
| YahooPrices.MinuteStep | yfinance_data_fetcher.py:101-102 | the last entry adds its minute contribution |
| YahooPrices.AccumulatedMinuteEmpty | yfinance_data_fetcher.py:101-102 | the minute list is empty exactly when every minute download was |
| YahooPrices.AccumulatedMinute | yfinance_data_fetcher.py:95-102 | each minute frame is, in map order, the cleaned minute frame of a symbol with minute data |
| YahooPrices.ProcessMinuteEmpty | yfinance_data_fetcher.py:106-133 | the minute frame is empty, and is then `pd.DataFrame()`, exactly when no symbol had minute data; `StorePrices` inserts it only otherwise |
| YahooPrices.StorePrices | yfinance_data_fetcher.py:116-135 | each table is the insert's effect exactly when connected and the frame is non-empty; an existing table is accepted whatever its key, and tables stay valid |
| YahooPrices.StoredCapped | yfinance_data_fetcher.py:116-135 | the trim keeps only rows of the inserted table; each symbol keeps at most min(n, cap) rows besides those a NULL `Symbol` or `Datetime` strands; at most min(n, cap) when the table's key includes `Symbol` and `Datetime`, and exactly each symbol's min(n, cap) latest `Datetime` rows when the key is those two |
| YahooPrices.PriceTrim | yfinance_data_fetcher.py:116-128 | on a valid table with any key, the trim joined on `Symbol` and `Datetime` keeps the table valid with its key and only its rows; each symbol keeps at most min(n, cap) rows besides those a NULL strands, at most min(n, cap) when the key includes both columns, and exactly its latest min(n, cap) when the key is those two |
| YahooPrices.StoreCaps | yfinance_data_fetcher.py:120-128 | at most 1440 minute rows and 3650 daily rows per symbol in a table keyed on `Symbol` and `Datetime`, as every table the script creates is |
| YahooPrices.StoredBound | yfinance_data_fetcher.py:116-135 | after one insert a price table keyed on `Symbol` and `Datetime` holds at most `cap` rows per symbol |
| NewsDigest.Unique | news_summarizer_sentiment_analyzer.py:69 | every symbol once, only symbols of the sheet |
| NewsDigest.UniqueFirstAppearance | news_summarizer_sentiment_analyzer.py:69 | unique symbols come in order of first appearance |
| NewsDigest.PublishedOfMembers | news_summarizer_sentiment_analyzer.py:60 | a date is listed exactly when a row of the symbol has it |
| NewsDigest.LatestIsMax | news_summarizer_sentiment_analyzer.py:60-70 | a symbol's `Last Updated` is one of its `Published` values and none is greater |
| NewsDigest.SummariesOfMembers | news_summarizer_sentiment_analyzer.py:78-79 | a summary is joined exactly when a row of the symbol carries it |
| NewsDigest.JoinedEmpty | news_summarizer_sentiment_analyzer.py:79-81 | nothing to summarise exactly when every present summary is whitespace only |
| NewsDigest.FirstUpdateIsFirst | news_summarizer_sentiment_analyzer.py:72-73 | the saved date is read from the first row carrying the symbol |
| NewsDigest.SummaryTextCases | news_summarizer_sentiment_analyzer.py:86-95 | a failed call gives an empty summary, an empty response the placeholder, otherwise the stripped response |
| NewsDigest.NoTextNoCall | news_summarizer_sentiment_analyzer.py:81-84 | a symbol with nothing to summarise gets an empty summary whatever the model answers |
| NewsDigest.ModelCalled | news_summarizer_sentiment_analyzer.py:86-91 | a symbol with text gets the model's answer to the prompt over that text |
| NewsDigest.RowForCases | news_summarizer_sentiment_analyzer.py:72-95 | a row exactly for a symbol that is not up to date, under its name and latest date |
| NewsDigest.SummarizeNews | news_summarizer_sentiment_analyzer.py:54-97 | the loop over unique symbols equals the digest |
| NewsDigest.DigestStep | news_summarizer_sentiment_analyzer.py:69-95 | one more symbol adds its row, if it has one |
| NewsDigest.DigestRows | news_summarizer_sentiment_analyzer.py:68-97 | every digest row is a listed symbol's row, and a symbol has a row exactly when the rule gives one |
| NewsDigest.DigestOrder | news_summarizer_sentiment_analyzer.py:69 | at most one row per symbol, in symbol order |
| NewsDigest.DigestAll | news_summarizer_sentiment_analyzer.py:68-97 | when every symbol gets a row the digest is those rows in order |
| NewsDigest.Summarized | news_summarizer_sentiment_analyzer.py:59-97 | a symbol gets a row exactly when the saved sheet lacks its latest date; the row carries that date |
| NewsDigest.SummarizedOrder | news_summarizer_sentiment_analyzer.py:69 | digest rows come in order of the symbols' first appearance |
| NewsDigest.MissingSheet | news_summarizer_sentiment_analyzer.py:62-66 | an unreadable saved sheet acts as an empty one: every symbol is summarised |
| NewsDigest.AnalyzeSentiment | news_summarizer_sentiment_analyzer.py:99-114 | every row gets the classifier's label and score when it has a summary, empty cells otherwise |
| NewsDigest.AnalyzedCases | news_summarizer_sentiment_analyzer.py:104-112 | only the two new columns change; exactly the rows with a summary are classified; a second pass changes nothing |
| NewsDigest.Run | news_summarizer_sentiment_analyzer.py:124-133 | the run equals its specification |
| NewsDigest.RunUploads | news_summarizer_sentiment_analyzer.py:124-133 | the upload happens exactly when some symbol was summarised, one classified row per digest row |
| NewsDigest.ScoredRows | news_summarizer_sentiment_analyzer.py:104-112 | each scored row keeps its digest row and carries the verdict on its summary |

## Left out

- The browser (Selenium) is left out: page loading, the "load more" clicking loop and waits. A page is an input: its cell texts, a failure inside the `try`, or, for the TradingView scrapers, a failed navigation that ends the run.
- The clock is left out. The `Last Updated` timestamp is a parameter string.
- The MySQL driver and network are left out: credentials loading, connecting, commits and closing. Whether the connection opened is a flag of the connector.
- Table tie-breaking is left out. `ROW_NUMBER()` ranks rows with equal sort values in storage order, whereas MySQL leaves that order unspecified.
- VARCHAR comparison is code-point order. MySQL's default case-insensitive collations, and key uniqueness under them, are not modelled.
- VARCHAR(255) truncation is not modelled.
- The driver's text rendering of numbers is a parameter (`render`).
- Google Sheets access is left out. Uploads are values. `google_sheet_api.py` defines no `get_sheet_as_dataframe`, so the news sheet and the saved summary sheet are inputs; an unreadable saved sheet is `None`.
- The news summary's empty-news-sheet case is left out. It raises on the missing `Symbol` column in the source; the model's news sheet is a list of rows with a symbol each.
- The Gemini model and FinBERT are left out. They are functions given as parameters: the response text or a failure, and a label with a score. Truncation to 512 tokens is inside the classifier.
- Floating point is left out. Numbers are exact `real`s, and `float(s)` accepts decimal literals with optional sign and surrounding whitespace, but no exponent, `inf`, `nan` or underscores.
- Date parsing and formatting are left out. `pd.to_datetime(…, errors="coerce")` and `strftime` are one parameter function; `pd.to_numeric(…, errors="coerce")` is another.
- Yahoo Finance downloads are a parameter function. `MultiIndex` flattening is part of the download's given columns.
- YAML loading is left out. The configuration is a value with optional symbol map and settings.
- `max_row_key = None` and `max_row_key = 0` are both 0 in the model: both switch the trim off. `sort_col = None` is the empty string.
- Printing and logging are left out.
- Retention.TrimRetainsTop: stated for join columns free of NULL. A row past the cap with a NULL join value stays (Retention.NullJoinKept), so such a symbol keeps more than min(n, cap) rows; Retention.TrimCount counts them.
- Retention.ExecDelete: column names are compared as exact strings. MySQL column names are case-insensitive, so a key list naming `Symbol` and `symbol`, or `ROW_NUM`, is rejected by the engine but trimmed by the model; CreateTable's duplicate-column check has the same gap.
- InvestingTable.ScrapeInvestingPrice: a failed `driver.get` (scraping_investing_price.py:57, scraping_investing_technical.py:57) runs before the `try` and raises out of the run; the model's page input covers only failures inside the `try`.
- SqlTable.CreateTable: the engine's size and naming limits are not modelled, so MySqlConnector.CreateEffect also creates tables MySQL rejects. With utf8mb4 each VARCHAR(255) key column takes 1020 bytes, so four or more key columns exceed the 3072-byte key limit, 65 or more columns exceed the 65535-byte row size, and an empty column name or one longer than 64 characters is refused; the source catches each error and no table exists.
- Retention.TrimDominates: stated for kept rows whose join tuple holds no NULL. A NULL-joined row past the cap stays whatever it sorts as.
- Retention.Rank: ties between equal sort values are broken by storage order, a choice the SQL leaves unspecified. TrimRetainsTop states only what any tie-break guarantees.
- TradingViewOverview.KeepNumber: keeps the ASCII digits 0-9 only. The regex `\d` on a Python str also matches other Unicode decimal digits, which `float` accepts too; text holding such digits is cleaned differently.
- Frames.Concat: a frame that repeats a column name is concatenated under one column of that name, holding the first such column's cells. pandas keeps the repeated columns when every frame has the same columns and raises otherwise. A Yahoo download that carries its own `Symbol` column is the one way the pipeline reaches this.
