/**
 * `RosettaEnergyUnitAnalyser`: ranking the decoys of a score table by one
 * score term, lowest (best) first.
 *
 * The table is what the score file parses to: a set of score columns and the
 * rows in file order, each with its decoy name (`description`) and a value
 * for every score column.
 */
module EnergyAnalysis {
  import opened Wrappers

  /** One row of a score table. */
  datatype Row = Row(description: string, scores: map<string, real>)

  /** A score table: its score columns and its rows, in file order. */
  datatype ScoreTable = ScoreTable(columns: set<string>, rows: seq<Row>) {
    /**
     * Every row has a value in every column, as every row of a data frame
     * does; the decoy names are held apart from the score columns.
     */
    predicate WellFormed() {
      && "description" !in columns
      && forall r | r in rows :: r.scores.Keys == columns
    }
  }

  /** `{"score": ..., "decoy": ...}`. */
  datatype Entry = Entry(score: real, decoy: string)

  /** An analyser: the table read from the score file, and the default score term. */
  datatype Analyser = Analyser(table: ScoreTable, scoreTerm: string) {
    /** An analyser construction accepts: a parsed table, whose columns include the default score term. */
    predicate Valid() {
      table.WellFormed() && scoreTerm in table.columns
    }
  }

  /**
   * The check of `__post_init__`: the default score term must be a column
   * of the table.
   */
  function NewAnalyser(table: ScoreTable, scoreTerm: string): (r: Result<Analyser>)
    requires table.WellFormed()
    ensures r.Ok? <==> scoreTerm in table.columns
    ensures r.Ok? ==> r.value.Valid() && r.value.table == table && r.value.scoreTerm == scoreTerm
    ensures r.Err? ==> r.error == ValueError("Score term \"" + scoreTerm + "\" not found in score file.")
  {
    if scoreTerm !in table.columns then Err(ValueError("Score term \"" + scoreTerm + "\" not found in score file."))
    else Ok(Analyser(table, scoreTerm))
  }

  /** The value of a row in a column. */
  function Score(row: Row, term: string): real {
    if term in row.scores then row.scores[term] else 0.0
  }

  predicate SortedBy(rows: seq<Row>, term: string) {
    forall i, j | 0 <= i < j < |rows| :: Score(rows[i], term) <= Score(rows[j], term)
  }

  /** Puts `x` into `s` before the first row that scores higher. */
  function Insert(x: Row, s: seq<Row>, term: string): seq<Row> {
    if s == [] then [x]
    else if Score(x, term) <= Score(s[0], term) then [x] + s
    else [s[0]] + Insert(x, s[1..], term)
  }

  /** Inserting adds exactly `x`. */
  lemma {:induction false} InsertPermutes(x: Row, s: seq<Row>, term: string)
    ensures multiset(Insert(x, s, term)) == multiset(s) + multiset{x}
    ensures |Insert(x, s, term)| == |s| + 1
    decreases |s|
  {
    if s != [] {
      assert s == [s[0]] + s[1..];
      if Score(x, term) > Score(s[0], term) {
        InsertPermutes(x, s[1..], term);
      }
    }
  }

  lemma SortedTail(s: seq<Row>, term: string)
    requires s != [] && SortedBy(s, term)
    ensures SortedBy(s[1..], term)
    ensures forall y | y in s[1..] :: Score(s[0], term) <= Score(y, term)
  {
    forall i, j | 0 <= i < j < |s[1..]| ensures Score(s[1..][i], term) <= Score(s[1..][j], term) {
      assert s[1..][i] == s[i + 1] && s[1..][j] == s[j + 1];
    }
  }

  /** Inserting into a sorted sequence keeps it sorted. */
  lemma {:induction false} InsertSorted(x: Row, s: seq<Row>, term: string)
    requires SortedBy(s, term)
    ensures SortedBy(Insert(x, s, term), term)
    decreases |s|
  {
    if s == [] {
    } else if Score(x, term) <= Score(s[0], term) {
      forall y | y in s ensures Score(x, term) <= Score(y, term) {
        var j :| 0 <= j < |s| && s[j] == y;
      }
      ConsSorted(x, s, term);
    } else {
      var rest := Insert(x, s[1..], term);
      SortedTail(s, term);
      InsertSorted(x, s[1..], term);
      InsertPermutes(x, s[1..], term);
      forall y | y in rest ensures Score(s[0], term) <= Score(y, term) {
        assert y in multiset(rest);
        assert y == x || y in s[1..];
      }
      ConsSorted(s[0], rest, term);
    }
  }

  /** A row that no row of a sorted sequence beats can go in front of it. */
  lemma ConsSorted(a: Row, s: seq<Row>, term: string)
    requires SortedBy(s, term)
    requires forall y | y in s :: Score(a, term) <= Score(y, term)
    ensures SortedBy([a] + s, term)
  {
    var r := [a] + s;
    forall i, j | 0 <= i < j < |r| ensures Score(r[i], term) <= Score(r[j], term) {
      assert r[j] == s[j - 1];
      if i > 0 {
        assert r[i] == s[i - 1];
      }
    }
  }

  /**
   * `sort_values(by=term)`: the rows ordered by their score, ascending. Rows
   * with equal scores may come in any order in the source; this is one of
   * those orders.
   */
  function SortBy(rows: seq<Row>, term: string): (r: seq<Row>)
    ensures multiset(r) == multiset(rows) && |r| == |rows|
    ensures SortedBy(r, term)
    decreases |rows|
  {
    if rows == [] then []
    else
      assert rows == [rows[0]] + rows[1..];
      var sorted := SortBy(rows[1..], term);
      InsertPermutes(rows[0], sorted, term);
      InsertSorted(rows[0], sorted, term);
      Insert(rows[0], sorted, term)
  }

  function Min(a: int, b: int): int {
    if a < b then a else b
  }

  /** `sort_values(by=term).head(rank)`: the first `rank` rows by score. */
  function TopRows(rows: seq<Row>, rank: nat, term: string): seq<Row> {
    SortBy(rows, term)[..Min(rank, |rows|)]
  }

  /**
   * The rows `top` selects are `min(rank, rows)` distinct rows of the table,
   * in non-decreasing score order, and no row left out scores lower than a
   * row selected.
   */
  lemma TopRowsSmallest(rows: seq<Row>, rank: nat, term: string)
    ensures var top := TopRows(rows, rank, term);
      && |top| == Min(rank, |rows|)
      && SortedBy(top, term)
      && multiset(top) <= multiset(rows)
      && (forall x, y | x in top && y in multiset(rows) - multiset(top) :: Score(x, term) <= Score(y, term))
  {
    var s := SortBy(rows, term);
    var k := Min(rank, |rows|);
    var top, rest := s[..k], s[k..];
    assert s == top + rest;
    assert multiset(rows) == multiset(top) + multiset(rest);
    SortedSplit(s, k, term);
    forall x, y | x in top && y in multiset(rows) - multiset(top)
      ensures Score(x, term) <= Score(y, term)
    {
      assert y in rest;
    }
  }

  /** A prefix of a sorted sequence is sorted, and no row after it scores lower than a row in it. */
  lemma SortedSplit(s: seq<Row>, k: nat, term: string)
    requires SortedBy(s, term) && k <= |s|
    ensures SortedBy(s[..k], term)
    ensures forall x, y | x in s[..k] && y in s[k..] :: Score(x, term) <= Score(y, term)
  {
    forall x, y | x in s[..k] && y in s[k..] ensures Score(x, term) <= Score(y, term) {
      var i :| 0 <= i < k && s[..k][i] == x;
      var j :| 0 <= j < |s[k..]| && s[k..][j] == y;
      assert s[i] == x && s[k + j] == y;
    }
    forall i, j | 0 <= i < j < k ensures Score(s[..k][i], term) <= Score(s[..k][j], term) {
      assert s[..k][i] == s[i] && s[..k][j] == s[j];
    }
  }

  /** `df2dict(dfs, k)`: one entry per row, in row order, with the row's score in column `k` and its decoy name. */
  function Df2Dict(rows: seq<Row>, k: string): (r: seq<Entry>)
    ensures |r| == |rows|
    ensures forall i | 0 <= i < |r| :: r[i].score == Score(rows[i], k) && r[i].decoy == rows[i].description
  {
    seq(|rows|, i requires 0 <= i < |rows| => Entry(Score(rows[i], k), rows[i].description))
  }

  /** The score term `top` ranks by: the requested one when it is a column, the default otherwise. */
  function TermUsed(a: Analyser, scoreTerm: Option<string>): string {
    if scoreTerm.Some? && scoreTerm.value in a.table.columns then scoreTerm.value else a.scoreTerm
  }

  /** `top(rank, score_term)`. */
  function Top(a: Analyser, rank: int, scoreTerm: Option<string>): (r: Result<seq<Entry>>)
    ensures r.Err? <==> rank <= 0
    ensures r.Err? ==> r.error == ValueError("Rank must be greater than 0")
    ensures r.Ok? ==> |r.value| == Min(rank, |a.table.rows|)
  {
    if rank <= 0 then Err(ValueError("Rank must be greater than 0"))
    else
      var term := TermUsed(a, scoreTerm);
      TopRowsSmallest(a.table.rows, rank, term);
      Ok(Df2Dict(TopRows(a.table.rows, rank, term), term))
  }

  /**
   * What `top` returns for a positive rank: the ranking is by the requested
   * term when the table has it and by the default term otherwise (a column
   * in either case); the scores are non-decreasing; every entry is the score
   * and name of its own row, and no row left out scores lower.
   */
  lemma TopRanks(a: Analyser, rank: int, scoreTerm: Option<string>)
    requires a.Valid() && rank > 0
    ensures var t := TermUsed(a, scoreTerm);
      && t in a.table.columns
      && (scoreTerm.Some? && scoreTerm.value in a.table.columns ==> t == scoreTerm.value)
      && (scoreTerm.None? || scoreTerm.value !in a.table.columns ==> t == a.scoreTerm)
    ensures var t := TermUsed(a, scoreTerm);
      var entries := Top(a, rank, scoreTerm).value;
      var top := TopRows(a.table.rows, rank, t);
      && (forall i, j | 0 <= i < j < |entries| :: entries[i].score <= entries[j].score)
      && |top| == |entries|
      && (forall i | 0 <= i < |entries| :: entries[i] == Entry(Score(top[i], t), top[i].description))
      && (forall i | 0 <= i < |entries| :: t in top[i].scores && entries[i].score == top[i].scores[t])
      && multiset(top) <= multiset(a.table.rows)
      && (forall x, y | x in top && y in multiset(a.table.rows) - multiset(top) :: Score(x, t) <= Score(y, t))
  {
    var t := TermUsed(a, scoreTerm);
    TopRowsSmallest(a.table.rows, rank, t);
    var top := TopRows(a.table.rows, rank, t);
    forall i | 0 <= i < |top| ensures t in top[i].scores {
      assert top[i] in multiset(a.table.rows);
    }
  }

  /** `best_decoy`: nothing for an empty table, otherwise the first entry of `top(1)`. */
  function BestDecoy(a: Analyser): (r: Option<Entry>)
    ensures r.None? <==> a.table.rows == []
    ensures r.Some? ==> Top(a, 1, None).Ok? && r.value == Top(a, 1, None).value[0]
  {
    if a.table.rows == [] then None else Some(Top(a, 1, None).value[0])
  }

  /** The best decoy is a row of the table whose score in the default term no row beats. */
  lemma BestDecoyIsMinimum(a: Analyser)
    requires a.table.rows != []
    ensures var best := BestDecoy(a).value;
      && (exists row | row in a.table.rows :: best == Entry(Score(row, a.scoreTerm), row.description))
      && (forall row | row in a.table.rows :: best.score <= Score(row, a.scoreTerm))
  {
    var rows := a.table.rows;
    var t := a.scoreTerm;
    var s := SortBy(rows, t);
    var best := s[0];
    assert TopRows(rows, 1, t)[0] == best;
    assert BestDecoy(a).value == Entry(Score(best, t), best.description);
    assert best in multiset(rows);
    forall row | row in rows
      ensures Score(best, t) <= Score(row, t)
    {
      assert row in multiset(s);
      var k :| 0 <= k < |s| && s[k] == row;
    }
  }
}
