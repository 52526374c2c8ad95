/**
 * Turning the rows of a sheet into the `results` list of a course
 * (scripts/build_json_from_xlsx.py:67 and 117-135): the numeric-rank row
 * filter, the per-row conversion, and the filter / stable sort / truncation
 * applied to the collected list.
 */
module Results {

  import opened Wrappers
  import opened Text
  import opened Cells
  import opened Columns

  /** One entry of a course's `results`; `index` is the race score. */
  datatype Result = Result(
    rank: int,
    runner: Option<string>,
    index: Float,
    gender: Option<string>,
    nationality: Option<string>)

  /** A data row: one cell per column, in header order. */
  type Row = seq<Cell>

  /** The most results a course file keeps. */
  const MaxResults: nat := 300

  /** `r[col]`; a row shorter than the header reads as missing cells, as pandas pads it. */
  function CellAt(row: Row, col: nat): Cell
  {
    if col < |row| then row[col] else Missing
  }

  // ---------------------------------------------------------------- rows

  /** `pd.to_numeric(df[rank_col], errors="coerce").notna()` for one row. */
  predicate RankIsNumeric(row: Row, rankCol: nat, p: Parsers)
  {
    match CellAt(row, rankCol)
    case Missing => false
    case Present(t) => p.numeric(t)
  }

  /** The rows kept by `df = df[...]`, in their original order. */
  function NumericRankRows(rows: seq<Row>, rankCol: nat, p: Parsers): (kept: seq<Row>)
    ensures |kept| <= |rows|
    ensures forall r :: r in kept <==> r in rows && RankIsNumeric(r, rankCol, p)
  {
    if rows == [] then []
    else
      var rest := NumericRankRows(rows[1..], rankCol, p);
      assert forall r :: r in rows <==> r == rows[0] || r in rows[1..];
      if RankIsNumeric(rows[0], rankCol, p) then [rows[0]] + rest else rest
  }

  /** Filtering a concatenation filters each part and keeps the parts in order. */
  lemma {:induction false} NumericRankRowsAppend(a: seq<Row>, b: seq<Row>, rankCol: nat, p: Parsers)
    ensures NumericRankRows(a + b, rankCol, p) == NumericRankRows(a, rankCol, p) + NumericRankRows(b, rankCol, p)
  {
    if a == [] {
      assert a + b == b;
    } else {
      assert (a + b)[0] == a[0] && (a + b)[1..] == a[1..] + b;
      NumericRankRowsAppend(a[1..], b, rankCol, p);
    }
  }

  /** A single row is kept exactly when its rank cell is numeric. */
  lemma NumericRankRowsOne(row: Row, rankCol: nat, p: Parsers)
    ensures NumericRankRows([row], rankCol, p) == if RankIsNumeric(row, rankCol, p) then [row] else []
  {
    assert [row][1..] == [];
  }

  /**
   * `str(r[col]).strip()` when the role is mapped and the cell is present,
   * else `None`.
   */
  function TextField(row: Row, colmap: map<Role, nat>, role: Role): (r: Option<string>)
    ensures r.Some? <==> role in colmap && CellAt(row, colmap[role]).Present?
    ensures r.Some? ==> r.value == Strip(CellAt(row, colmap[role]).text) && Trimmed(r.value)
  {
    if role in colmap then
      match CellAt(row, colmap[role])
      case Missing => None
      case Present(t) => Some(Strip(t))
    else None
  }

  /** The result a row contributes: none unless both the rank and the score parse. */
  function RowResult(row: Row, rankCol: nat, colmap: map<Role, nat>, p: Parsers): (r: Option<Result>)
    requires Score in colmap
    ensures var rank, idx := SafeInt(CellAt(row, rankCol), p), SafeFloat(CellAt(row, colmap[Score]), p);
      && (r.Some? <==> rank.Some? && idx.Some?)
      && (r.Some? ==> r.value.rank == rank.value && r.value.index == idx.value)
  {
    match SafeInt(CellAt(row, rankCol), p)
    case None => None
    case Some(rank) =>
      match SafeFloat(CellAt(row, colmap[Score]), p)
      case None => None
      case Some(x) =>
        Some(Result(rank, TextField(row, colmap, Runner), x,
                    TextField(row, colmap, Gender), TextField(row, colmap, Nationality)))
  }

  /** A row contributes exactly when its rank cell has a finite parse and its score cell parses. */
  lemma RowContributes(row: Row, rankCol: nat, colmap: map<Role, nat>, p: Parsers)
    requires Score in colmap
    ensures var rc, sc := CellAt(row, rankCol), CellAt(row, colmap[Score]);
      && (RowResult(row, rankCol, colmap, p).Some? <==>
            rc.Present? && p.float(rc.text).Some? && p.float(rc.text).value.Finite? &&
            sc.Present? && p.float(NumberText(sc.text)).Some?)
      && (RowResult(row, rankCol, colmap, p).Some? ==>
            var r := RowResult(row, rankCol, colmap, p).value;
            && r.rank == SafeInt(rc, p).value
            && r.index == p.float(NumberText(sc.text)).value
            && r.runner == TextField(row, colmap, Runner)
            && r.gender == TextField(row, colmap, Gender)
            && r.nationality == TextField(row, colmap, Nationality)
            && (r.runner.Some? <==> Runner in colmap && CellAt(row, colmap[Runner]).Present?)
            && (r.gender.Some? <==> Gender in colmap && CellAt(row, colmap[Gender]).Present?)
            && (r.nationality.Some? <==> Nationality in colmap && CellAt(row, colmap[Nationality]).Present?))
  {
  }

  /** The results appended by the loop over the rows, in row order. */
  function Collected(rows: seq<Row>, rankCol: nat, colmap: map<Role, nat>, p: Parsers): seq<Result>
    requires Score in colmap
  {
    if rows == [] then []
    else
      Collected(rows[..|rows| - 1], rankCol, colmap, p) +
      match RowResult(rows[|rows| - 1], rankCol, colmap, p)
      case Some(r) => [r]
      case None => []
  }

  /** Every collected result comes from a row that converts to it, and no row gives two. */
  lemma {:induction false} CollectedFromRows(rows: seq<Row>, rankCol: nat, colmap: map<Role, nat>, p: Parsers)
    requires Score in colmap
    ensures |Collected(rows, rankCol, colmap, p)| <= |rows|
    ensures forall r :: r in Collected(rows, rankCol, colmap, p) ==>
      exists i :: 0 <= i < |rows| && RowResult(rows[i], rankCol, colmap, p) == Some(r)
  {
    if rows != [] {
      var init := rows[..|rows| - 1];
      CollectedFromRows(init, rankCol, colmap, p);
      forall r | r in Collected(init, rankCol, colmap, p)
        ensures exists i :: 0 <= i < |rows| && RowResult(rows[i], rankCol, colmap, p) == Some(r)
      {
        var i :| 0 <= i < |init| && RowResult(init[i], rankCol, colmap, p) == Some(r);
        assert init[i] == rows[i];
      }
    }
  }

  /** The result the last row adds to the collected list, if any. */
  lemma CollectedLast(rows: seq<Row>, rankCol: nat, colmap: map<Role, nat>, p: Parsers)
    requires Score in colmap && rows != []
    ensures Collected(rows, rankCol, colmap, p) == Collected(rows[..|rows| - 1], rankCol, colmap, p) +
      match RowResult(rows[|rows| - 1], rankCol, colmap, p)
      case Some(r) => [r]
      case None => []
  {
  }

  /** The rows' results in row order: the results of a concatenation are the two parts' results, in order. */
  lemma {:induction false} CollectedAppend(a: seq<Row>, b: seq<Row>, rankCol: nat, colmap: map<Role, nat>, p: Parsers)
    requires Score in colmap
    ensures Collected(a + b, rankCol, colmap, p) == Collected(a, rankCol, colmap, p) + Collected(b, rankCol, colmap, p)
  {
    if b == [] {
      assert a + b == a;
    } else {
      var ab := a + b;
      var init := b[..|b| - 1];
      assert ab[..|ab| - 1] == a + init && ab[|ab| - 1] == b[|b| - 1];
      CollectedLast(ab, rankCol, colmap, p);
      CollectedLast(b, rankCol, colmap, p);
      CollectedAppend(a, init, rankCol, colmap, p);
    }
  }

  /** A single row contributes its result when it has one, and nothing otherwise. */
  lemma CollectedOne(row: Row, rankCol: nat, colmap: map<Role, nat>, p: Parsers)
    requires Score in colmap
    ensures Collected([row], rankCol, colmap, p) ==
      match RowResult(row, rankCol, colmap, p)
      case Some(r) => [r]
      case None => []
  {
    assert [row][..0] == [];
  }

  /** Every row that converts contributes its result, after the results of the rows before it. */
  lemma CollectedIncludes(rows: seq<Row>, i: nat, rankCol: nat, colmap: map<Role, nat>, p: Parsers)
    requires Score in colmap && i < |rows| && RowResult(rows[i], rankCol, colmap, p).Some?
    ensures var before := Collected(rows[..i], rankCol, colmap, p);
      var all := Collected(rows, rankCol, colmap, p);
      |before| < |all| && all[..|before|] == before && all[|before|] == RowResult(rows[i], rankCol, colmap, p).value
  {
    var rest := [rows[i]] + rows[i + 1..];
    assert rows == rows[..i] + rest;
    CollectedAppend(rows[..i], rest, rankCol, colmap, p);
    CollectedAppend([rows[i]], rows[i + 1..], rankCol, colmap, p);
    CollectedOne(rows[i], rankCol, colmap, p);
    var before := Collected(rows[..i], rankCol, colmap, p);
    var v := RowResult(rows[i], rankCol, colmap, p).value;
    var after := Collected(rows[i + 1..], rankCol, colmap, p);
    assert Collected(rows, rankCol, colmap, p) == before + ([v] + after);
  }

  /** The `for _, r in df.iterrows()` loop that appends one result per usable row. */
  method CollectResults(rows: seq<Row>, rankCol: nat, colmap: map<Role, nat>, p: Parsers)
    returns (results: seq<Result>)
    requires Score in colmap
    ensures results == Collected(rows, rankCol, colmap, p)
  {
    results := [];
    var i := 0;
    while i < |rows|
      invariant 0 <= i <= |rows|
      invariant results == Collected(rows[..i], rankCol, colmap, p)
    {
      assert rows[..i + 1][..i] == rows[..i];
      assert rows[..i + 1][i] == rows[i];
      var r := rows[i];
      assert Collected(rows[..i + 1], rankCol, colmap, p) ==
        results + match RowResult(r, rankCol, colmap, p) case Some(x) => [x] case None => [];
      ghost var before := results;
      var rank := SafeInt(CellAt(r, rankCol), p);
      if rank.None? {
        assert RowResult(r, rankCol, colmap, p) == None;
        i := i + 1;
        continue;
      }
      var idx := SafeFloat(CellAt(r, colmap[Score]), p);
      if idx.None? {
        assert RowResult(r, rankCol, colmap, p) == None;
        i := i + 1;
        continue;
      }
      var res := Result(rank.value, TextField(r, colmap, Runner), idx.value,
                        TextField(r, colmap, Gender), TextField(r, colmap, Nationality));
      assert RowResult(r, rankCol, colmap, p) == Some(res);
      results := results + [res];
      i := i + 1;
    }
    assert rows[..|rows|] == rows;
  }

  // ---------------------------------------------------------------- ordering

  predicate SortedByRank(s: seq<Result>)
  {
    forall i, j :: 0 <= i < j < |s| ==> s[i].rank <= s[j].rank
  }

  /** The entries of `s` whose rank is `k`, in their order in `s`. */
  function WithRank(s: seq<Result>, k: int): seq<Result>
  {
    if s == [] then []
    else (if s[0].rank == k then [s[0]] else []) + WithRank(s[1..], k)
  }

  lemma {:induction false} WithRankAppend(a: seq<Result>, b: seq<Result>, k: int)
    ensures WithRank(a + b, k) == WithRank(a, k) + WithRank(b, k)
  {
    if a == [] {
      assert a + b == b;
    } else {
      var head := if a[0].rank == k then [a[0]] else [];
      assert (a + b)[0] == a[0];
      assert (a + b)[1..] == a[1..] + b;
      assert WithRank(a + b, k) == head + WithRank(a[1..] + b, k);
      WithRankAppend(a[1..], b, k);
      assert WithRank(a, k) == head + WithRank(a[1..], k);
    }
  }

  lemma {:induction false} WithRankAbsent(s: seq<Result>, k: int)
    requires forall i :: 0 <= i < |s| ==> s[i].rank != k
    ensures WithRank(s, k) == []
  {
    if s != [] {
      WithRankAbsent(s[1..], k);
    }
  }

  /** Inserting `x` in front of the first entry whose rank is not smaller than its own. */
  function InsertByRank(x: Result, s: seq<Result>): seq<Result>
  {
    if s == [] then [x]
    else if x.rank <= s[0].rank then [x] + s
    else [s[0]] + InsertByRank(x, s[1..])
  }

  /** Insertion adds `x` and keeps every other entry. */
  lemma {:induction false} InsertByRankMultiset(x: Result, s: seq<Result>)
    ensures multiset(InsertByRank(x, s)) == multiset(s) + multiset{x}
  {
    if s != [] && x.rank > s[0].rank {
      InsertByRankMultiset(x, s[1..]);
      assert s == [s[0]] + s[1..];
    }
  }

  /** Insertion puts `x` ahead of the entries of its own rank and leaves every rank's order alone. */
  lemma {:induction false} InsertByRankPerRank(x: Result, s: seq<Result>, k: int)
    ensures WithRank(InsertByRank(x, s), k) == (if x.rank == k then [x] else []) + WithRank(s, k)
  {
    var r := InsertByRank(x, s);
    if s == [] {
      assert r == [x];
      assert WithRank(r, k) == (if x.rank == k then [x] else []) + WithRank(r[1..], k);
    } else if x.rank > s[0].rank {
      var rest := InsertByRank(x, s[1..]);
      InsertByRankPerRank(x, s[1..], k);
      assert r[0] == s[0] && r[1..] == rest;
      assert WithRank(r, k) == (if s[0].rank == k then [s[0]] else []) + WithRank(rest, k);
      assert WithRank(s, k) == (if s[0].rank == k then [s[0]] else []) + WithRank(s[1..], k);
    } else {
      assert r[0] == x && r[1..] == s;
      assert WithRank(r, k) == (if x.rank == k then [x] else []) + WithRank(s, k);
    }
  }

  /** Insertion into a rank-sorted list keeps it sorted. */
  lemma {:induction false} InsertByRankSorted(x: Result, s: seq<Result>)
    requires SortedByRank(s)
    ensures SortedByRank(InsertByRank(x, s))
  {
    if s != [] && x.rank > s[0].rank {
      var rest := InsertByRank(x, s[1..]);
      InsertByRankSorted(x, s[1..]);
      InsertByRankMultiset(x, s[1..]);
      forall i | 0 <= i < |rest|
        ensures s[0].rank <= rest[i].rank
      {
        assert rest[i] in multiset(rest);
        if rest[i] != x {
          assert rest[i] in multiset(s[1..]);
          var j :| 0 <= j < |s[1..]| && s[1..][j] == rest[i];
          assert s[j + 1] == rest[i];
        }
      }
    }
  }

  /**
   * `results.sort(key=lambda x: x["rank"])`. Python's sort is stable; it is
   * modelled by a stable insertion sort.
   */
  function SortByRank(s: seq<Result>): (r: seq<Result>)
    ensures |r| == |s| && multiset(r) == multiset(s)
  {
    if s == [] then []
    else
      var t := SortByRank(s[1..]);
      InsertByRankMultiset(s[0], t);
      assert s == [s[0]] + s[1..];
      InsertByRank(s[0], t)
  }

  /**
   * The sort yields a rank-ordered permutation of its input in which the
   * entries of each rank appear in their input order.
   */
  lemma {:induction false} SortByRankCorrect(s: seq<Result>)
    ensures SortedByRank(SortByRank(s))
    ensures multiset(SortByRank(s)) == multiset(s)
    ensures forall k :: WithRank(SortByRank(s), k) == WithRank(s, k)
  {
    if s != [] {
      SortByRankCorrect(s[1..]);
      var t := SortByRank(s[1..]);
      InsertByRankSorted(s[0], t);
      InsertByRankMultiset(s[0], t);
      assert s == [s[0]] + s[1..];
      forall k
        ensures WithRank(SortByRank(s), k) == WithRank(s, k)
      {
        InsertByRankPerRank(s[0], t, k);
      }
    }
  }

  /** `[x for x in results if x["rank"] is not None and x["rank"] >= 1]`. */
  function KeepRanked(s: seq<Result>): (r: seq<Result>)
    ensures forall i :: 0 <= i < |r| ==> r[i].rank >= 1
    ensures forall k :: WithRank(r, k) == if k >= 1 then WithRank(s, k) else []
  {
    if s == [] then []
    else
      var rest := KeepRanked(s[1..]);
      if s[0].rank >= 1 then
        assert ([s[0]] + rest)[1..] == rest;
        [s[0]] + rest
      else rest
  }

  /** `results[:300]`: the first 300 entries, or all of them when there are fewer. */
  function Truncate(s: seq<Result>): (r: seq<Result>)
    ensures |r| == if |s| <= MaxResults then |s| else MaxResults
    ensures r == s[..|r|]
  {
    if |s| <= MaxResults then s else s[..MaxResults]
  }

  /**
   * The `results` list written for a course: positive ranks only, sorted by
   * rank, at most 300; exactly 300 when more entries have a positive rank.
   */
  function FinalResults(collected: seq<Result>): (r: seq<Result>)
    ensures var n := |KeepRanked(collected)|; |r| == if n <= MaxResults then n else MaxResults
  {
    Truncate(SortByRank(KeepRanked(collected)))
  }

  /** Taking a prefix keeps, for every rank, a prefix of the entries of that rank. */
  lemma {:induction false} WithRankPrefix(s: seq<Result>, n: nat, k: int)
    requires n <= |s|
    ensures WithRank(s[..n], k) <= WithRank(s, k)
  {
    assert s == s[..n] + s[n..];
    WithRankAppend(s[..n], s[n..], k);
  }

  /**
   * The shape of the written list: at most 300 entries, every rank at least
   * 1, ranks never decreasing.
   */
  lemma FinalResultsShape(collected: seq<Result>)
    ensures var r := FinalResults(collected);
      && |r| <= MaxResults
      && (forall i :: 0 <= i < |r| ==> r[i].rank >= 1)
      && SortedByRank(r)
  {
    var kept := KeepRanked(collected);
    var t := SortByRank(kept);
    var r := FinalResults(collected);
    SortByRankCorrect(kept);
    forall i | 0 <= i < |r|
      ensures r[i].rank >= 1
    {
      assert r[i] == t[i];
      assert t[i] in multiset(kept);
      var j :| 0 <= j < |kept| && kept[j] == t[i];
    }
  }

  /** In a sorted list, cutting after position `n` loses no entry of a rank below the last one kept. */
  lemma SortedPrefixKeepsLowerRanks(t: seq<Result>, n: nat, k: int)
    requires SortedByRank(t) && 0 < n <= |t| && k < t[n - 1].rank
    ensures WithRank(t[..n], k) == WithRank(t, k)
  {
    assert t == t[..n] + t[n..];
    WithRankAppend(t[..n], t[n..], k);
    assert forall i :: 0 <= i < |t[n..]| ==> t[n..][i] == t[n + i];
    WithRankAbsent(t[n..], k);
  }

  /**
   * Which entries are written, rank by rank: for every rank, the entries kept
   * with that rank are the first ones with that rank in row order (equal ranks
   * keep their row order and truncation drops only from the tail); when at
   * most 300 entries have a positive rank none of them is lost; and every rank
   * below the last one written is written in full.
   */
  lemma FinalResultsPerRank(collected: seq<Result>)
    ensures var r := FinalResults(collected);
      && (forall k :: WithRank(r, k) <= WithRank(collected, k))
      && (|KeepRanked(collected)| <= MaxResults ==>
            forall k :: k >= 1 ==> WithRank(r, k) == WithRank(collected, k))
      && (|KeepRanked(collected)| > MaxResults ==> |r| == MaxResults)
      && (r != [] ==> forall k :: 1 <= k < r[|r| - 1].rank ==> WithRank(r, k) == WithRank(collected, k))
  {
    var kept := KeepRanked(collected);
    var t := SortByRank(kept);
    var r := FinalResults(collected);
    SortByRankCorrect(kept);
    var n := |r|;
    assert r == t[..n];
    forall k
      ensures WithRank(r, k) <= WithRank(collected, k)
    {
      WithRankPrefix(t, n, k);
    }
    if r != [] {
      forall k | 1 <= k < r[n - 1].rank
        ensures WithRank(r, k) == WithRank(collected, k)
      {
        SortedPrefixKeepsLowerRanks(t, n, k);
      }
    }
  }
}
