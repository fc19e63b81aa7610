/**
 * The retention DELETE of the connector: rows are numbered per `Symbol` partition by
 * `ROW_NUMBER() OVER (PARTITION BY Symbol ORDER BY sort_col DESC)`, and every table
 * row whose primary-key tuple equals that of a row numbered past the cap is deleted.
 * The engine breaks ties in an unspecified order; the model breaks them by storage
 * order (the earlier row first), and `RetainsTopPerPartition` states what holds for
 * any tie-break.
 */
module Retention {
  import opened Wrappers
  import Text
  import opened SqlTable

  /** The partition column, fixed in the statement text. */
  const PartitionColumn: string := "Symbol"

  /** `x` comes strictly before `y` under `ORDER BY ... DESC`: greater text first, NULL last. */
  predicate SortsBefore(x: SqlValue, y: SqlValue) {
    match (x, y)
    case (Str(a), Str(b)) => Text.Below(b, a)
    case (Str(_), Null) => true
    case (Null, _) => false
  }

  lemma SortsBeforeIrreflexive(x: SqlValue)
    ensures !SortsBefore(x, x)
  {
    if x.Str? { Text.BelowIrreflexive(x.s); }
  }

  lemma SortsBeforeTransitive(x: SqlValue, y: SqlValue, z: SqlValue)
    requires SortsBefore(x, y) && SortsBefore(y, z)
    ensures SortsBefore(x, z)
  {
    if z.Str? { Text.BelowTransitive(z.s, y.s, x.s); }
  }

  lemma SortsBeforeTotal(x: SqlValue, y: SqlValue)
    ensures x == y || SortsBefore(x, y) || SortsBefore(y, x)
  {
    if x.Str? && y.Str? { Text.BelowTotal(x.s, y.s); }
  }

  function Partition(r: Row): SqlValue {
    Get(r, PartitionColumn)
  }

  /** Row `j` is numbered before row `i`: same partition, and it sorts first or ties and is stored first. */
  predicate Ahead(rows: seq<Row>, sortCol: string, j: int, i: int)
    requires 0 <= j < |rows| && 0 <= i < |rows|
  {
    && Partition(rows[j]) == Partition(rows[i])
    && (|| SortsBefore(Get(rows[j], sortCol), Get(rows[i], sortCol))
        || (Get(rows[j], sortCol) == Get(rows[i], sortCol) && j < i))
  }

  function AheadSet(rows: seq<Row>, sortCol: string, i: int): set<int>
    requires 0 <= i < |rows|
  {
    set j | 0 <= j < |rows| && Ahead(rows, sortCol, j, i)
  }

  /** `ROW_NUMBER() - 1`: how many rows of the partition are numbered before row `i`. */
  function Rank(rows: seq<Row>, sortCol: string, i: int): nat
    requires 0 <= i < |rows|
  {
    |AheadSet(rows, sortCol, i)|
  }

  /** The positions of the rows of partition `v`. */
  function Members(rows: seq<Row>, v: SqlValue): set<int> {
    set i | 0 <= i < |rows| && Partition(rows[i]) == v
  }

  // ---------------------------------------------------------------------------------
  // Ranks within a partition are 0, 1, ..., n - 1, each once
  // ---------------------------------------------------------------------------------

  lemma AheadIrreflexive(rows: seq<Row>, sortCol: string, i: int)
    requires 0 <= i < |rows|
    ensures !Ahead(rows, sortCol, i, i)
  {
    SortsBeforeIrreflexive(Get(rows[i], sortCol));
  }

  lemma AheadTransitive(rows: seq<Row>, sortCol: string, k: int, j: int, i: int)
    requires 0 <= k < |rows| && 0 <= j < |rows| && 0 <= i < |rows|
    requires Ahead(rows, sortCol, k, j) && Ahead(rows, sortCol, j, i)
    ensures Ahead(rows, sortCol, k, i)
  {
    var a, b, c := Get(rows[k], sortCol), Get(rows[j], sortCol), Get(rows[i], sortCol);
    if SortsBefore(a, b) && SortsBefore(b, c) {
      SortsBeforeTransitive(a, b, c);
    }
  }

  lemma AheadTotal(rows: seq<Row>, sortCol: string, j: int, i: int)
    requires 0 <= j < |rows| && 0 <= i < |rows| && i != j
    requires Partition(rows[j]) == Partition(rows[i])
    ensures Ahead(rows, sortCol, j, i) || Ahead(rows, sortCol, i, j)
  {
    SortsBeforeTotal(Get(rows[j], sortCol), Get(rows[i], sortCol));
  }

  lemma SubsetCard(a: set<int>, b: set<int>)
    requires a <= b
    ensures |a| <= |b|
    ensures a < b ==> |a| < |b|
  {
    assert b == a + (b - a);
    assert a * (b - a) == {};
  }

  /** A row numbered before another has a strictly smaller number. */
  lemma RankIncreases(rows: seq<Row>, sortCol: string, j: int, i: int)
    requires 0 <= j < |rows| && 0 <= i < |rows|
    requires Ahead(rows, sortCol, j, i)
    ensures Rank(rows, sortCol, j) < Rank(rows, sortCol, i)
  {
    var aj, ai := AheadSet(rows, sortCol, j), AheadSet(rows, sortCol, i);
    forall k | k in aj ensures k in ai {
      AheadTransitive(rows, sortCol, k, j, i);
    }
    AheadIrreflexive(rows, sortCol, j);
    assert j in ai && j !in aj;
    SubsetCard(aj + {j}, ai);
  }

  /** A row's number is below the size of its partition. */
  lemma RankBelowSize(rows: seq<Row>, sortCol: string, i: int)
    requires 0 <= i < |rows|
    ensures Rank(rows, sortCol, i) < |Members(rows, Partition(rows[i]))|
  {
    var m := Members(rows, Partition(rows[i]));
    AheadIrreflexive(rows, sortCol, i);
    assert AheadSet(rows, sortCol, i) <= m - {i};
    SubsetCard(AheadSet(rows, sortCol, i), m - {i});
  }

  lemma RankInjective(rows: seq<Row>, sortCol: string, i: int, j: int)
    requires 0 <= i < |rows| && 0 <= j < |rows| && i != j
    requires Partition(rows[i]) == Partition(rows[j])
    ensures Rank(rows, sortCol, i) != Rank(rows, sortCol, j)
  {
    AheadTotal(rows, sortCol, j, i);
    if Ahead(rows, sortCol, j, i) {
      RankIncreases(rows, sortCol, j, i);
    } else {
      RankIncreases(rows, sortCol, i, j);
    }
  }

  /** The numbers 0 .. n-1. */
  function Range(n: int): (s: set<int>)
    ensures forall r :: r in s <==> 0 <= r < n
    decreases n
  {
    if n <= 0 then {} else Range(n - 1) + {n - 1}
  }

  /** Adding a new element to a finite set adds one to its size. */
  lemma AddFresh(a: set<int>, x: int)
    requires x !in a
    ensures |a + {x}| == |a| + 1
  {
  }

  lemma {:induction false} RangeCard(n: nat)
    ensures |Range(n)| == n
  {
    if n > 0 {
      RangeCard(n - 1);
      AddFresh(Range(n - 1), n - 1);
    }
  }

  function RankImage(rows: seq<Row>, sortCol: string, s: set<int>): set<int>
    requires forall i :: i in s ==> 0 <= i < |rows|
  {
    set i | i in s :: Rank(rows, sortCol, i)
  }

  /** The elements of `s` below `k`. */
  function Under(s: set<int>, k: int): set<int> {
    set i | i in s && i < k
  }

  lemma {:induction false} RankImageCardUnder(rows: seq<Row>, sortCol: string, s: set<int>, v: SqlValue, k: nat)
    requires forall i :: i in s ==> 0 <= i < |rows| && Partition(rows[i]) == v
    ensures |RankImage(rows, sortCol, Under(s, k))| == |Under(s, k)|
  {
    if k == 0 {
      assert Under(s, k) == {};
    } else {
      var rest := Under(s, k - 1);
      RankImageCardUnder(rows, sortCol, s, v, k - 1);
      if k - 1 in s {
        forall y | y in rest ensures Rank(rows, sortCol, y) != Rank(rows, sortCol, k - 1) {
          RankInjective(rows, sortCol, y, k - 1);
        }
        assert Under(s, k) == rest + {k - 1};
        RankImageStep(rows, sortCol, rest, k - 1);
      } else {
        assert Under(s, k) == rest;
      }
    }
  }

  /** Adding a row whose number no other row has adds one number. */
  lemma RankImageStep(rows: seq<Row>, sortCol: string, rest: set<int>, x: int)
    requires forall i :: i in rest ==> 0 <= i < |rows|
    requires 0 <= x < |rows| && x !in rest
    requires forall y :: y in rest ==> Rank(rows, sortCol, y) != Rank(rows, sortCol, x)
    ensures |RankImage(rows, sortCol, rest + {x})| == |RankImage(rows, sortCol, rest)| + 1
  {
    var before := RankImage(rows, sortCol, rest);
    assert RankImage(rows, sortCol, rest + {x}) == before + {Rank(rows, sortCol, x)};
    assert Rank(rows, sortCol, x) !in before;
  }

  /** Distinct members of one partition have distinct numbers, so numbering keeps the count. */
  lemma RankImageCard(rows: seq<Row>, sortCol: string, s: set<int>, v: SqlValue)
    requires forall i :: i in s ==> 0 <= i < |rows| && Partition(rows[i]) == v
    ensures |RankImage(rows, sortCol, s)| == |s|
  {
    RankImageCardUnder(rows, sortCol, s, v, |rows|);
    assert Under(s, |rows|) == s;
  }

  /** The numbers of a partition of n rows are exactly 0 .. n-1. */
  lemma RanksFillRange(rows: seq<Row>, sortCol: string, v: SqlValue)
    ensures RankImage(rows, sortCol, Members(rows, v)) == Range(|Members(rows, v)|)
  {
    var m := Members(rows, v);
    var img := RankImage(rows, sortCol, m);
    forall r | r in img ensures r in Range(|m|) {
      var i :| i in m && Rank(rows, sortCol, i) == r;
      RankBelowSize(rows, sortCol, i);
    }
    RankImageCard(rows, sortCol, m, v);
    RangeCard(|m|);
    SubsetCard(img, Range(|m|));
  }

  function Min(a: int, b: int): int { if a < b then a else b }
  function Max(a: int, b: int): int { if a < b then b else a }

  /** The members of partition `v` numbered within the cap. */
  function Survivors(rows: seq<Row>, sortCol: string, cap: int, v: SqlValue): set<int> {
    set i | i in Members(rows, v) && Rank(rows, sortCol, i) < cap
  }

  /** Exactly min(n, cap) members of a partition of n rows are numbered within the cap. */
  lemma SurvivorCount(rows: seq<Row>, sortCol: string, cap: int, v: SqlValue)
    ensures |Survivors(rows, sortCol, cap, v)| == Min(|Members(rows, v)|, Max(cap, 0))
  {
    var m := Members(rows, v);
    var s := Survivors(rows, sortCol, cap, v);
    var k := Min(|m|, Max(cap, 0));
    RanksFillRange(rows, sortCol, v);
    assert RankImage(rows, sortCol, s) == Range(k) by {
      forall r | r in Range(k) ensures r in RankImage(rows, sortCol, s) {
        assert r in RankImage(rows, sortCol, m);
        var i :| i in m && Rank(rows, sortCol, i) == r;
      }
    }
    RankImageCard(rows, sortCol, s, v);
    RangeCard(k);
  }

  // ---------------------------------------------------------------------------------
  // The DELETE ... JOIN on all key columns
  // ---------------------------------------------------------------------------------

  /**
   * The key tuples the join can match: those of the rows numbered past the cap
   * (`row_num > cap`) that hold no NULL, since `t.pk = sub.pk` is never true when
   * either side is NULL.
   */
  function Doomed(rows: seq<Row>, keys: seq<string>, sortCol: string, cap: int): set<seq<SqlValue>> {
    set i | 0 <= i < |rows| && Rank(rows, sortCol, i) >= cap && Null !in Key(rows[i], keys) :: Key(rows[i], keys)
  }

  /** The rows whose key tuple is not in `doomed`, in storage order. */
  function KeepUnmatched(rows: seq<Row>, keys: seq<string>, doomed: set<seq<SqlValue>>): (r: seq<Row>)
    ensures forall x :: x in r <==> x in rows && Key(x, keys) !in doomed
    ensures |r| <= |rows|
  {
    if |rows| == 0 then []
    else
      var last := rows[|rows| - 1];
      var init := KeepUnmatched(rows[..|rows| - 1], keys, doomed);
      assert forall x :: x in rows <==> x in rows[..|rows| - 1] || x == last;
      if Key(last, keys) in doomed then init else init + [last]
  }

  /** The table's rows after the retention DELETE. */
  function Trim(rows: seq<Row>, keys: seq<string>, sortCol: string, cap: int): seq<Row> {
    KeepUnmatched(rows, keys, Doomed(rows, keys, sortCol, cap))
  }

  /**
   * With unique key tuples, a row is matched by the join exactly when it is itself
   * numbered past the cap and its join tuple holds no NULL.
   */
  lemma DoomedIffRanked(rows: seq<Row>, keys: seq<string>, sortCol: string, cap: int, i: int)
    requires KeysUnique(rows, keys) && 0 <= i < |rows|
    ensures Key(rows[i], keys) in Doomed(rows, keys, sortCol, cap) <==>
            Rank(rows, sortCol, i) >= cap && Null !in Key(rows[i], keys)
  {
    if Key(rows[i], keys) in Doomed(rows, keys, sortCol, cap) {
      var j :| 0 <= j < |rows| && Rank(rows, sortCol, j) >= cap && Null !in Key(rows[j], keys)
               && Key(rows[j], keys) == Key(rows[i], keys);
      assert j == i;
    }
  }

  /** A row holding NULL in a join column is never matched, so the DELETE keeps it. */
  lemma NullJoinKept(rows: seq<Row>, keys: seq<string>, sortCol: string, cap: int, x: Row)
    requires x in rows && Null in Key(x, keys)
    ensures x in Trim(rows, keys, sortCol, cap)
  {
    var d := Doomed(rows, keys, sortCol, cap);
    forall t | t in d ensures Null !in t {
      var i :| 0 <= i < |rows| && Rank(rows, sortCol, i) >= cap && Null !in Key(rows[i], keys) && Key(rows[i], keys) == t;
    }
  }

  /** The rows of partition `v` numbered past the cap that the join cannot match, a join value being NULL. */
  function Stranded(rows: seq<Row>, keys: seq<string>, sortCol: string, cap: int, v: SqlValue): set<int> {
    set i | 0 <= i < |rows| && Partition(rows[i]) == v && Rank(rows, sortCol, i) >= cap && Null in Key(rows[i], keys)
  }

  /** Without NULL in the join columns no row is stranded. */
  lemma StrandedNone(rows: seq<Row>, keys: seq<string>, sortCol: string, cap: int, v: SqlValue)
    requires NoNullIn(rows, keys)
    ensures Stranded(rows, keys, sortCol, cap, v) == {}
  {
  }

  /** The number of rows of partition `v`. */
  function Count(rows: seq<Row>, v: SqlValue): nat {
    if |rows| == 0 then 0
    else Count(rows[..|rows| - 1], v) + (if Partition(rows[|rows| - 1]) == v then 1 else 0)
  }

  /** The positions below `k` of the rows of partition `v` that the join does not match. */
  function KeptAt(rows: seq<Row>, keys: seq<string>, doomed: set<seq<SqlValue>>, v: SqlValue, k: int): set<int>
    requires k <= |rows|
  {
    set i | 0 <= i < k && Spared(rows[i], keys, doomed, v)
  }

  /** A row of partition `v` that the join does not match. */
  predicate Spared(r: Row, keys: seq<string>, doomed: set<seq<SqlValue>>, v: SqlValue) {
    Partition(r) == v && Key(r, keys) !in doomed
  }

  lemma KeptAtStep(rows: seq<Row>, keys: seq<string>, doomed: set<seq<SqlValue>>, v: SqlValue, k: int)
    requires 0 < k <= |rows|
    ensures |KeptAt(rows, keys, doomed, v, k)| == |KeptAt(rows, keys, doomed, v, k - 1)|
      + (if Spared(rows[k - 1], keys, doomed, v) then 1 else 0)
  {
    var now, before := KeptAt(rows, keys, doomed, v, k), KeptAt(rows, keys, doomed, v, k - 1);
    var last := if Spared(rows[k - 1], keys, doomed, v) then {k - 1} else {};
    assert now == before + last by {
      forall i ensures i in now <==> i in before + last {
        if i == k - 1 {
          assert i !in before;
        }
      }
    }
    assert k - 1 !in before;
  }

  /** Appending a row counts it in its own partition only. */
  lemma CountSnoc(rows: seq<Row>, x: Row, v: SqlValue)
    ensures Count(rows + [x], v) == Count(rows, v) + (if Partition(x) == v then 1 else 0)
  {
    assert (rows + [x])[..|rows|] == rows;
  }

  lemma {:induction false} CountKept(rows: seq<Row>, keys: seq<string>, doomed: set<seq<SqlValue>>,
                                     v: SqlValue, k: nat)
    requires k <= |rows|
    ensures Count(KeepUnmatched(rows[..k], keys, doomed), v) == |KeptAt(rows, keys, doomed, v, k)|
  {
    if k > 0 {
      CountKept(rows, keys, doomed, v, k - 1);
      KeptAtStep(rows, keys, doomed, v, k);
      CountKeptStep(rows, keys, doomed, v, k);
    }
  }

  /** One more row adds one to its partition's kept count exactly when the join spares it. */
  lemma CountKeptStep(rows: seq<Row>, keys: seq<string>, doomed: set<seq<SqlValue>>, v: SqlValue, k: int)
    requires 0 < k <= |rows|
    ensures Count(KeepUnmatched(rows[..k], keys, doomed), v) ==
            Count(KeepUnmatched(rows[..k - 1], keys, doomed), v) + (if Spared(rows[k - 1], keys, doomed, v) then 1 else 0)
  {
    KeepUnmatchedStep(rows, keys, doomed, k);
    var kept := KeepUnmatched(rows[..k - 1], keys, doomed);
    var x := rows[k - 1];
    if Key(x, keys) !in doomed {
      CountSnoc(kept, x, v);
    } else {
      assert kept + [] == kept;
    }
  }

  lemma {:induction false} CountIsMembers(rows: seq<Row>, v: SqlValue)
    ensures Count(rows, v) == |Members(rows, v)|
    decreases |rows|
  {
    if |rows| > 0 {
      var init := rows[..|rows| - 1];
      CountIsMembers(init, v);
      var before := Members(init, v);
      var last := if Partition(rows[|rows| - 1]) == v then {|rows| - 1} else {};
      assert Members(rows, v) == before + last by {
        forall i ensures i in Members(rows, v) <==> i in before + last {
          if 0 <= i < |init| {
            assert init[i] == rows[i];
          }
        }
      }
      assert |rows| - 1 !in before;
    }
  }

  /**
   * With unique join tuples a partition of n rows keeps exactly min(n, cap) rows, plus
   * the rows past the cap that a NULL join value strands.
   */
  lemma TrimCount(rows: seq<Row>, keys: seq<string>, sortCol: string, cap: int, v: SqlValue)
    requires KeysUnique(rows, keys)
    ensures Count(Trim(rows, keys, sortCol, cap), v) ==
            Min(Count(rows, v), Max(cap, 0)) + |Stranded(rows, keys, sortCol, cap, v)|
  {
    var d := Doomed(rows, keys, sortCol, cap);
    CountKept(rows, keys, d, v, |rows|);
    assert rows[..|rows|] == rows;
    KeptSplit(rows, keys, sortCol, cap, v);
    SurvivorsApart(rows, keys, sortCol, cap, v);
    SurvivorCount(rows, sortCol, cap, v);
    CountIsMembers(rows, v);
  }

  /** With unique join tuples, the rows of a partition the join spares are its survivors and its stranded rows. */
  lemma KeptSplit(rows: seq<Row>, keys: seq<string>, sortCol: string, cap: int, v: SqlValue)
    requires KeysUnique(rows, keys)
    ensures KeptAt(rows, keys, Doomed(rows, keys, sortCol, cap), v, |rows|) ==
            Survivors(rows, sortCol, cap, v) + Stranded(rows, keys, sortCol, cap, v)
  {
    var d := Doomed(rows, keys, sortCol, cap);
    forall i | 0 <= i < |rows|
      ensures Key(rows[i], keys) !in d <==> Rank(rows, sortCol, i) < cap || Null in Key(rows[i], keys)
    {
      DoomedIffRanked(rows, keys, sortCol, cap, i);
    }
  }

  /** Survivors are numbered within the cap and stranded rows past it, so the two never overlap. */
  lemma SurvivorsApart(rows: seq<Row>, keys: seq<string>, sortCol: string, cap: int, v: SqlValue)
    ensures var survivors, stranded := Survivors(rows, sortCol, cap, v), Stranded(rows, keys, sortCol, cap, v);
      |survivors + stranded| == |survivors| + |stranded|
  {
    var survivors, stranded := Survivors(rows, sortCol, cap, v), Stranded(rows, keys, sortCol, cap, v);
    assert survivors * stranded == {};
  }

  /** No row the DELETE keeps on its rank (its join tuple holds no NULL) sorts after a row it removes from the same partition. */
  lemma TrimDominates(rows: seq<Row>, keys: seq<string>, sortCol: string, cap: int, x: Row, y: Row)
    requires KeysUnique(rows, keys)
    requires x in Trim(rows, keys, sortCol, cap) && Null !in Key(x, keys)
    requires y in rows && y !in Trim(rows, keys, sortCol, cap)
    requires Partition(x) == Partition(y)
    ensures !SortsBefore(Get(y, sortCol), Get(x, sortCol))
  {
    var i :| 0 <= i < |rows| && rows[i] == x;
    var j :| 0 <= j < |rows| && rows[j] == y;
    DoomedIffRanked(rows, keys, sortCol, cap, i);
    DoomedIffRanked(rows, keys, sortCol, cap, j);
    if SortsBefore(Get(y, sortCol), Get(x, sortCol)) {
      RankIncreases(rows, sortCol, j, i);
    }
  }

  /** The rows of partition `v`, in storage order. */
  function RowsOf(rows: seq<Row>, v: SqlValue): seq<Row> {
    if |rows| == 0 then []
    else RowsOf(rows[..|rows| - 1], v) + (if Partition(rows[|rows| - 1]) == v then [rows[|rows| - 1]] else [])
  }

  lemma RowsOfSnoc(rows: seq<Row>, x: Row, v: SqlValue)
    ensures RowsOf(rows + [x], v) == RowsOf(rows, v) + (if Partition(x) == v then [x] else [])
  {
    assert (rows + [x])[..|rows|] == rows;
  }

  lemma KeepUnmatchedStep(rows: seq<Row>, keys: seq<string>, doomed: set<seq<SqlValue>>, k: int)
    requires 0 < k <= |rows|
    ensures KeepUnmatched(rows[..k], keys, doomed) ==
            KeepUnmatched(rows[..k - 1], keys, doomed) + (if Key(rows[k - 1], keys) in doomed then [] else [rows[k - 1]])
  {
    assert rows[..k][..k - 1] == rows[..k - 1];
  }

  lemma {:induction false} RowsOfKept(rows: seq<Row>, keys: seq<string>, doomed: set<seq<SqlValue>>,
                                      v: SqlValue, k: nat)
    requires k <= |rows|
    requires forall i :: 0 <= i < |rows| && Partition(rows[i]) == v ==> Key(rows[i], keys) !in doomed
    ensures RowsOf(KeepUnmatched(rows[..k], keys, doomed), v) == RowsOf(rows[..k], v)
  {
    if k > 0 {
      var kept := KeepUnmatched(rows[..k - 1], keys, doomed);
      var x := rows[k - 1];
      var tail := if Partition(x) == v then [x] else [];
      assert RowsOf(kept, v) == RowsOf(rows[..k - 1], v) by {
        RowsOfKept(rows, keys, doomed, v, k - 1);
      }
      assert RowsOf(rows[..k], v) == RowsOf(rows[..k - 1], v) + tail by {
        assert rows[..k] == rows[..k - 1] + [x];
        RowsOfSnoc(rows[..k - 1], x, v);
      }
      if Key(x, keys) in doomed {
        assert tail == [] by {
          assert Partition(rows[k - 1]) != v;
        }
        assert KeepUnmatched(rows[..k], keys, doomed) == kept by {
          KeepUnmatchedStep(rows, keys, doomed, k);
        }
      } else {
        assert KeepUnmatched(rows[..k], keys, doomed) == kept + [x] by {
          KeepUnmatchedStep(rows, keys, doomed, k);
        }
        assert RowsOf(kept + [x], v) == RowsOf(kept, v) + tail by {
          RowsOfSnoc(kept, x, v);
        }
      }
    }
  }

  /** A partition no larger than the cap loses nothing: its rows stay as they were, in order. */
  lemma TrimSparesSmallPartitions(rows: seq<Row>, keys: seq<string>, sortCol: string, cap: int, v: SqlValue)
    requires KeysUnique(rows, keys)
    requires Count(rows, v) <= cap
    ensures RowsOf(Trim(rows, keys, sortCol, cap), v) == RowsOf(rows, v)
  {
    var d := Doomed(rows, keys, sortCol, cap);
    CountIsMembers(rows, v);
    forall i | 0 <= i < |rows| && Partition(rows[i]) == v ensures Key(rows[i], keys) !in d {
      RankBelowSize(rows, sortCol, i);
      DoomedIffRanked(rows, keys, sortCol, cap, i);
    }
    RowsOfKept(rows, keys, d, v, |rows|);
    assert rows[..|rows|] == rows;
  }

  /**
   * What the retention DELETE guarantees whatever order the engine gives tied rows:
   * only existing rows remain, each partition keeps min(n, cap) of its n rows, and no
   * kept row sorts after a removed row of its partition.
   */
  ghost predicate RetainsTopPerPartition(before: seq<Row>, after: seq<Row>, sortCol: string, cap: int) {
    && (forall x :: x in after ==> x in before)
    && (forall v :: Count(after, v) == Min(Count(before, v), Max(cap, 0)))
    && (forall x, y :: x in after && y in before && y !in after && Partition(x) == Partition(y)
          ==> !SortsBefore(Get(y, sortCol), Get(x, sortCol)))
  }

  /** With unique join tuples free of NULL, the DELETE keeps exactly the top min(n, cap) rows of each partition. */
  lemma TrimRetainsTop(rows: seq<Row>, keys: seq<string>, sortCol: string, cap: int)
    requires KeysUnique(rows, keys) && NoNullIn(rows, keys)
    ensures RetainsTopPerPartition(rows, Trim(rows, keys, sortCol, cap), sortCol, cap)
  {
    var after := Trim(rows, keys, sortCol, cap);
    forall v ensures Count(after, v) == Min(Count(rows, v), Max(cap, 0)) {
      TrimCount(rows, keys, sortCol, cap, v);
      StrandedNone(rows, keys, sortCol, cap, v);
    }
    forall x, y | x in after && y in rows && y !in after && Partition(x) == Partition(y)
      ensures !SortsBefore(Get(y, sortCol), Get(x, sortCol))
    {
      var i :| 0 <= i < |rows| && rows[i] == x;
      TrimDominates(rows, keys, sortCol, cap, x, y);
    }
  }

  // ---------------------------------------------------------------------------------
  // The statement
  // ---------------------------------------------------------------------------------

  /** `DELETE t FROM table AS t JOIN (... ROW_NUMBER() ... WHERE row_num > cap) AS sub ON keys`. */
  datatype DeleteStatement = DeleteRanked(keys: seq<string>, sortCol: string, cap: int)

  /** The alias the statement gives the row number inside the derived table `ranked`. */
  const RowNumberColumn: string := "row_num"

  /**
   * The engine refuses the DELETE on table `t`: no key to join on, a `Symbol`, sort or
   * key column the table lacks, or a derived table whose column names repeat, since
   * `ranked` selects the key columns followed by `row_num`.
   */
  predicate DeleteRejected(t: Table, stmt: DeleteStatement) {
    || |stmt.keys| == 0 || PartitionColumn !in t.columns || stmt.sortCol !in t.columns
    || (exists k :: k in stmt.keys && k !in t.columns)
    || !Distinct(stmt.keys) || RowNumberColumn in stmt.keys
  }

  function ExecDelete(db: Option<Table>, stmt: DeleteStatement): (r: Result<Table, SqlError>)
    ensures db.None? ==> r == Err(NoSuchTable)
    ensures r.Ok? ==> r.value == db.value.(rows := Trim(db.value.rows, stmt.keys, stmt.sortCol, stmt.cap))
    ensures db.Some? ==> (r.Err? <==> DeleteRejected(db.value, stmt))
    ensures db.Some? && (!Distinct(stmt.keys) || RowNumberColumn in stmt.keys) ==> r.Err?
  {
    if db.None? then Err(NoSuchTable)
    else
      var t := db.value;
      if |stmt.keys| == 0 then Err(SyntaxError)
      else if PartitionColumn !in t.columns || stmt.sortCol !in t.columns then Err(UnknownColumn)
      else if exists k :: k in stmt.keys && k !in t.columns then Err(UnknownColumn)
      else if !Distinct(stmt.keys) || RowNumberColumn in stmt.keys then Err(DuplicateColumn)
      else Ok(t.(rows := Trim(t.rows, stmt.keys, stmt.sortCol, stmt.cap)))
  }

  /**
   * Keeping a subset of a valid table's rows keeps it valid, whatever key list the
   * join used: the table's own key tuples stay unique among the rows that remain.
   */
  lemma TrimValid(t: Table, join: seq<string>, sortCol: string, cap: int)
    requires ValidTable(t)
    ensures ValidTable(t.(rows := Trim(t.rows, join, sortCol, cap)))
  {
    var d := Doomed(t.rows, join, sortCol, cap);
    if |t.keys| > 0 {
      KeepUniqueSub(t.rows, t.keys, join, d);
    }
  }

  lemma {:induction false} KeepUniqueSub(rows: seq<Row>, keys: seq<string>, join: seq<string>,
                                         d: set<seq<SqlValue>>)
    requires KeysUnique(rows, keys)
    ensures KeysUnique(KeepUnmatched(rows, join, d), keys)
    decreases |rows|
  {
    if |rows| > 0 {
      var init := rows[..|rows| - 1];
      KeepUniqueSub(init, keys, join, d);
      var kept := KeepUnmatched(init, join, d);
      var x := rows[|rows| - 1];
      forall y | y in kept ensures Key(y, keys) != Key(x, keys) {
        var j :| 0 <= j < |init| && init[j] == y;
      }
    }
  }

  /**
   * Whatever the join keys, a row the DELETE keeps is numbered within the cap or is
   * stranded by a NULL join value, so a partition of n rows keeps at most min(n, cap)
   * rows besides its stranded ones.
   */
  lemma TrimCountBound(rows: seq<Row>, keys: seq<string>, sortCol: string, cap: int, v: SqlValue)
    ensures Count(Trim(rows, keys, sortCol, cap), v) <=
            Min(Count(rows, v), Max(cap, 0)) + |Stranded(rows, keys, sortCol, cap, v)|
  {
    var d := Doomed(rows, keys, sortCol, cap);
    CountKept(rows, keys, d, v, |rows|);
    assert rows[..|rows|] == rows;
    var kept := KeptAt(rows, keys, d, v, |rows|);
    var survivors, stranded := Survivors(rows, sortCol, cap, v), Stranded(rows, keys, sortCol, cap, v);
    forall i | 0 <= i < |rows| && Rank(rows, sortCol, i) >= cap && Null !in Key(rows[i], keys)
      ensures Key(rows[i], keys) in d
    {
    }
    assert kept <= survivors + stranded;
    SurvivorsApart(rows, keys, sortCol, cap, v);
    SubsetCard(kept, survivors + stranded);
    SurvivorCount(rows, sortCol, cap, v);
    CountIsMembers(rows, v);
  }

  /**
   * A join on `Symbol` alone matches every row of a symbol as soon as one of its rows
   * is numbered past the cap: a partition over the cap loses all its rows, except the
   * NULL partition, which the join never matches and which keeps them all.
   */
  lemma PartitionJoinEmpties(rows: seq<Row>, sortCol: string, cap: int, v: SqlValue)
    requires 0 <= cap < Count(rows, v)
    ensures Count(Trim(rows, [PartitionColumn], sortCol, cap), v) == if v == Null then Count(rows, v) else 0
  {
    var join := [PartitionColumn];
    var d := Doomed(rows, join, sortCol, cap);
    CountKept(rows, join, d, v, |rows|);
    assert rows[..|rows|] == rows;
    CountIsMembers(rows, v);
    if v == Null {
      NullPartitionSpared(rows, sortCol, cap);
    } else {
      OverCapPartitionDoomed(rows, sortCol, cap, v);
    }
  }

  /** The join on `Symbol` never matches a row whose `Symbol` is NULL. */
  lemma NullPartitionSpared(rows: seq<Row>, sortCol: string, cap: int)
    ensures var join := [PartitionColumn];
      KeptAt(rows, join, Doomed(rows, join, sortCol, cap), Null, |rows|) == Members(rows, Null)
  {
    var join := [PartitionColumn];
    var d := Doomed(rows, join, sortCol, cap);
    forall i | 0 <= i < |rows| && Partition(rows[i]) == Null ensures Key(rows[i], join) !in d {
      assert Key(rows[i], join)[0] == Null;
      NullJoinKept(rows, join, sortCol, cap, rows[i]);
    }
  }

  /** The join on `Symbol` matches every row of a non-NULL symbol with a row past the cap. */
  lemma OverCapPartitionDoomed(rows: seq<Row>, sortCol: string, cap: int, v: SqlValue)
    requires v != Null && 0 <= cap < Count(rows, v)
    ensures var join := [PartitionColumn];
      KeptAt(rows, join, Doomed(rows, join, sortCol, cap), v, |rows|) == {}
  {
    var join := [PartitionColumn];
    var d := Doomed(rows, join, sortCol, cap);
    var m := Members(rows, v);
    CountIsMembers(rows, v);
    RanksFillRange(rows, sortCol, v);
    assert cap in Range(|m|);
    var p :| p in m && Rank(rows, sortCol, p) == cap;
    assert Key(rows[p], join) == [v];
    assert Key(rows[p], join) in d;
    forall i | 0 <= i < |rows| && Partition(rows[i]) == v ensures Key(rows[i], join) in d {
      assert Key(rows[i], join) == Key(rows[p], join);
    }
  }
}
