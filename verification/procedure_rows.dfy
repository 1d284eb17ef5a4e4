/** The result set a procedure call returns: the JDBC column types it accepts, the page window the
    rows are cut to, and the per-row security-token filter. The conversion of a JDBC row into a
    `Row` is outside the model; the rows arrive converted. */
module ProcedureRows {
  import opened Text
  import opened Domain
  import opened Paging
  import opened RowSecurity

  /** The `java.sql.Types` codes the engine distinguishes. */
  const BIT: int := -7
  const SQL_BOOLEAN: int := 16
  const SQL_DOUBLE: int := 8
  const SQL_TIMESTAMP: int := 93
  const SQL_INTEGER: int := 4
  const SQL_VARCHAR: int := 12
  const SQL_NVARCHAR: int := -9
  const SQL_DECIMAL: int := 3

  const PARSE_RESULT_SET_ERROR := "msg.ParseResultSetError"

  /** A column of a JDBC result set: its label and its `java.sql.Types` code. */
  datatype SqlColumn = SqlColumn(name: string, sqlType: int)

  /** The data type a result-set column of the given JDBC type becomes; `None` for a type the
      engine does not read. */
  function ResultType(sqlType: int): Option<DataType> {
    if sqlType == SQL_BOOLEAN || sqlType == BIT then Some(BOOLEAN)
    else if sqlType == SQL_DOUBLE then Some(DOUBLE)
    else if sqlType == SQL_TIMESTAMP then Some(INSTANT)
    else if sqlType == SQL_INTEGER then Some(INTEGER)
    else if sqlType == SQL_VARCHAR || sqlType == SQL_NVARCHAR then Some(STRING)
    else if sqlType == SQL_DECIMAL then Some(BIGDECIMAL)
    else None
  }

  /** The JDBC type a parameter of the given data type is bound with when its value is `null`, and
      registered with when it is an output parameter. */
  function JdbcType(t: DataType): int {
    match t
    case BOOLEAN => SQL_BOOLEAN
    case DOUBLE => SQL_DOUBLE
    case INSTANT => SQL_TIMESTAMP
    case INTEGER => SQL_INTEGER
    case LONG => SQL_DOUBLE
    case STRING => SQL_NVARCHAR
    case ZONED => SQL_TIMESTAMP
    case BIGDECIMAL => SQL_DECIMAL
  }

  /** Every parameter type is bound with a JDBC type the result-set reader accepts, and reading it
      back gives the same data type for all types except `LONG` (read back as `DOUBLE`) and
      `ZONED` (read back as `INSTANT`). */
  lemma JdbcTypeRoundTrip(t: DataType)
    ensures ResultType(JdbcType(t)).Some?
    ensures ResultType(JdbcType(t)) == Some(t) <==> !(t.LONG? || t.ZONED?)
    ensures t.LONG? ==> ResultType(JdbcType(t)) == Some(DOUBLE)
    ensures t.ZONED? ==> ResultType(JdbcType(t)) == Some(INSTANT)
  {
  }

  /** The columns of a result set: one per JDBC column, in order, named by its label. An
      unsupported JDBC type fails the whole conversion. */
  function ResultColumns(cols: seq<SqlColumn>): (r: Result<seq<Column>>)
    ensures r.Ok? <==> forall k :: 0 <= k < |cols| ==> ResultType(cols[k].sqlType).Some?
    ensures r.Err? ==> r.error == Failure(PARSE_RESULT_SET_ERROR)
    ensures r.Ok? ==> |r.value| == |cols|
    ensures r.Ok? ==> forall k :: 0 <= k < |cols| ==> r.value[k] == Column(cols[k].name, ResultType(cols[k].sqlType).value, INPUT)
  {
    if |cols| == 0 then Ok([])
    else
      var prev :- ResultColumns(cols[..|cols| - 1]);
      var last := cols[|cols| - 1];
      match ResultType(last.sqlType)
      case None => Err(Failure(PARSE_RESULT_SET_ERROR))
      case Some(t) => Ok(prev + [Column(last.name, t, INPUT)])
  }

  /** The window membership of `WindowItems`: an item is kept exactly when some position of it lies
      in the window. */
  lemma {:induction false} WindowItemsMembers<T>(xs: seq<T>, page: int, limit: int, x: T)
    ensures x in WindowItems(xs, page, limit) <==> exists k :: 0 <= k < |xs| && xs[k] == x && InWindow(k + 1, page, limit)
  {
    if |xs| > 0 {
      var init := xs[..|xs| - 1];
      WindowItemsMembers(init, page, limit, x);
      if exists k :: 0 <= k < |init| && init[k] == x && InWindow(k + 1, page, limit) {
        var k :| 0 <= k < |init| && init[k] == x && InWindow(k + 1, page, limit);
        assert xs[k] == x;
      }
      if exists k :: 0 <= k < |xs| && xs[k] == x && InWindow(k + 1, page, limit) {
        var k :| 0 <= k < |xs| && xs[k] == x && InWindow(k + 1, page, limit);
        if k < |init| {
          assert init[k] == x;
        }
      }
    }
  }

  /** The rows that pass the token check, in order; a failing check fails the filter. */
  function Filtered(rows: seq<Row>, tokens: seq<string>, idx: nat): (r: Result<seq<Row>>)
    ensures r.Ok? <==> forall k :: 0 <= k < |rows| ==> CheckRow(tokens, rows[k], idx).Ok?
    ensures r.Ok? ==> forall x :: x in r.value <==> x in rows && CheckRow(tokens, x, idx) == Ok(true)
    ensures r.Ok? ==> |r.value| <= |rows|
  {
    if |rows| == 0 then Ok([])
    else
      var prev :- Filtered(rows[..|rows| - 1], tokens, idx);
      var last := rows[|rows| - 1];
      assert forall k :: 0 <= k < |rows| - 1 ==> rows[..|rows| - 1][k] == rows[k];
      assert rows == rows[..|rows| - 1] + [last];
      var keep :- CheckRow(tokens, last, idx);
      Ok(prev + if keep then [last] else [])
  }

  /** Without tokens to check the filter keeps every row. */
  lemma {:induction false} FilteredWithoutTokens(rows: seq<Row>, idx: nat)
    ensures Filtered(rows, [], idx) == Ok(rows)
  {
    if |rows| > 0 {
      FilteredWithoutTokens(rows[..|rows| - 1], idx);
      LastSplit(rows);
    }
  }

  /** The rows a procedure's result set contributes: with a positive limit only the rows on the
      requested page are considered, and of those only the ones that pass the token check. */
  function StreamRows(rows: seq<Row>, page: int, limit: int, tokens: seq<string>, idx: nat): (r: Result<seq<Row>>)
    ensures r.Ok? ==> |r.value| <= |rows|
    ensures r.Ok? ==> forall x :: x in r.value ==> x in rows && CheckRow(tokens, x, idx) == Ok(true)
  {
    Filtered(if limit > 0 then WindowItems(rows, page, limit) else rows, tokens, idx)
  }

  /** Position `k` (0-based) is considered: there is no limit, or it lies on the requested page. */
  predicate OnPage(k: nat, page: int, limit: int) {
    limit <= 0 || InWindow(k + 1, page, limit)
  }

  /** The row at position `k` is returned: it is considered and passes the token check. */
  predicate Selected(x: Row, k: nat, page: int, limit: int, tokens: seq<string>, idx: nat) {
    OnPage(k, page, limit) && CheckRow(tokens, x, idx) == Ok(true)
  }

  predicate Increasing(pos: seq<nat>) {
    forall i, j :: 0 <= i < j < |pos| ==> pos[i] < pos[j]
  }

  /** The positions of the selected rows: each selected position exactly once, in increasing
      order. */
  function SelectedPositions(rows: seq<Row>, page: int, limit: int, tokens: seq<string>, idx: nat): (pos: seq<nat>)
    ensures Increasing(pos)
    ensures forall j :: 0 <= j < |pos| ==> pos[j] < |rows|
    ensures forall k {:trigger Selected(rows[k], k, page, limit, tokens, idx)} ::
      0 <= k < |rows| ==> (k in pos <==> Selected(rows[k], k, page, limit, tokens, idx))
  {
    if |rows| == 0 then []
    else
      var init := rows[..|rows| - 1];
      var prev := SelectedPositions(init, page, limit, tokens, idx);
      assert forall k :: 0 <= k < |init| ==> init[k] == rows[k];
      prev + if Selected(rows[|rows| - 1], |rows| - 1, page, limit, tokens, idx) then [|rows| - 1] else []
  }

  /** Appending a row to the result set: an off-page row changes nothing; a considered row is
      checked after the rows before it and kept when it passes. */
  lemma StreamRowsSnoc(rows: seq<Row>, x: Row, page: int, limit: int, tokens: seq<string>, idx: nat)
    ensures var prev := StreamRows(rows, page, limit, tokens, idx);
      StreamRows(rows + [x], page, limit, tokens, idx) ==
        if prev.Err? || !OnPage(|rows|, page, limit) then prev
        else match CheckRow(tokens, x, idx)
          case Err(e) => Err(e)
          case Ok(keep) => Ok(prev.value + if keep then [x] else [])
  {
    var all := rows + [x];
    assert all[..|all| - 1] == rows;
    var w := if limit > 0 then WindowItems(rows, page, limit) else rows;
    var w' := if limit > 0 then WindowItems(all, page, limit) else all;
    if OnPage(|rows|, page, limit) {
      assert w' == w + [x];
      assert (w + [x])[..|w|] == w;
    } else {
      assert w' == w;
    }
  }

  /** `r` lists rows of `rows` at the positions `pos`, one for one. */
  predicate PicksAt(rows: seq<Row>, r: seq<Row>, pos: seq<nat>) {
    |r| == |pos| && forall j :: 0 <= j < |r| ==> pos[j] < |rows| && r[j] == rows[pos[j]]
  }

  lemma PicksAtSnoc(rows: seq<Row>, r: seq<Row>, pos: seq<nat>, x: Row, keep: bool)
    requires PicksAt(rows, r, pos)
    ensures PicksAt(rows + [x], r + (if keep then [x] else []), pos + (if keep then [|rows|] else []))
  {
  }

  /** The returned rows are the selected rows in result-set order: the `j`-th returned row is the
      row at the `j`-th selected position, so order and repetitions are those of the result set. */
  lemma {:induction false} StreamRowsSubsequence(rows: seq<Row>, page: int, limit: int, tokens: seq<string>, idx: nat)
    requires StreamRows(rows, page, limit, tokens, idx).Ok?
    ensures PicksAt(rows, StreamRows(rows, page, limit, tokens, idx).value, SelectedPositions(rows, page, limit, tokens, idx))
    decreases |rows|, 1
  {
    if |rows| > 0 {
      LastSplit(rows);
      SubsequenceSnoc(rows[..|rows| - 1], rows[|rows| - 1], page, limit, tokens, idx);
    }
  }

  lemma LastSplit(rows: seq<Row>)
    requires |rows| > 0
    ensures rows == rows[..|rows| - 1] + [rows[|rows| - 1]]
  {
  }

  lemma {:induction false} SubsequenceSnoc(init: seq<Row>, x: Row, page: int, limit: int, tokens: seq<string>, idx: nat)
    requires StreamRows(init + [x], page, limit, tokens, idx).Ok?
    ensures PicksAt(init + [x], StreamRows(init + [x], page, limit, tokens, idx).value, SelectedPositions(init + [x], page, limit, tokens, idx))
    decreases |init| + 1, 0
  {
    StreamRowsSnoc(init, x, page, limit, tokens, idx);
    StreamRowsSubsequence(init, page, limit, tokens, idx);
    SubsequenceStep(init, x, page, limit, tokens, idx);
  }

  lemma SubsequenceStep(init: seq<Row>, x: Row, page: int, limit: int, tokens: seq<string>, idx: nat)
    requires StreamRows(init + [x], page, limit, tokens, idx).Ok?
    requires StreamRows(init, page, limit, tokens, idx).Ok?
    requires PicksAt(init, StreamRows(init, page, limit, tokens, idx).value, SelectedPositions(init, page, limit, tokens, idx))
    ensures PicksAt(init + [x], StreamRows(init + [x], page, limit, tokens, idx).value, SelectedPositions(init + [x], page, limit, tokens, idx))
  {
    var rows := init + [x];
    assert rows[..|rows| - 1] == init;
    StreamRowsSnoc(init, x, page, limit, tokens, idx);
    var r0 := StreamRows(init, page, limit, tokens, idx).value;
    var p0 := SelectedPositions(init, page, limit, tokens, idx);
    var keep := Selected(x, |init|, page, limit, tokens, idx);
    assert StreamRows(rows, page, limit, tokens, idx).value == r0 + (if keep then [x] else []);
    assert SelectedPositions(rows, page, limit, tokens, idx) == p0 + (if keep then [|init|] else []);
    PicksAtSnoc(init, r0, p0, x, keep);
  }

  /** Whether the result set fails: exactly when a considered row's token check fails. */
  lemma {:induction false} StreamRowsOk(rows: seq<Row>, page: int, limit: int, tokens: seq<string>, idx: nat)
    ensures StreamRows(rows, page, limit, tokens, idx).Ok? <==>
      forall k :: 0 <= k < |rows| && OnPage(k, page, limit) ==> CheckRow(tokens, rows[k], idx).Ok?
  {
    if |rows| > 0 {
      var init := rows[..|rows| - 1];
      var x := rows[|rows| - 1];
      assert rows == init + [x];
      StreamRowsSnoc(init, x, page, limit, tokens, idx);
      StreamRowsOk(init, page, limit, tokens, idx);
      assert forall k :: 0 <= k < |init| ==> init[k] == rows[k];
    }
  }

  /** The filter alone keeps the rows that pass the token check, in order. */
  lemma FilteredSubsequence(rows: seq<Row>, tokens: seq<string>, idx: nat)
    requires Filtered(rows, tokens, idx).Ok?
    ensures PicksAt(rows, Filtered(rows, tokens, idx).value, SelectedPositions(rows, 1, 0, tokens, idx))
  {
    StreamRowsSubsequence(rows, 1, 0, tokens, idx);
  }

  /** A row is returned exactly when it sits at a position on the requested page (any position
      without a limit) and passes the token check. */
  lemma StreamRowsMembers(rows: seq<Row>, page: int, limit: int, tokens: seq<string>, idx: nat, x: Row)
    requires StreamRows(rows, page, limit, tokens, idx).Ok?
    ensures x in StreamRows(rows, page, limit, tokens, idx).value <==>
      (exists k :: 0 <= k < |rows| && rows[k] == x && (limit <= 0 || InWindow(k + 1, page, limit))) &&
      CheckRow(tokens, x, idx) == Ok(true)
  {
    if limit > 0 {
      WindowItemsMembers(rows, page, limit, x);
    } else if x in rows {
      var k :| 0 <= k < |rows| && rows[k] == x;
    }
  }

  /** The row the loop hands to the token check at 1-based position `pos`: the converted row, or
      `None` (a Java `null`) when a positive limit puts the position off the page. */
  function Candidate(row: Row, pos: int, page: int, limit: int): Option<Row> {
    if limit > 0 && !InWindow(pos, page, limit) then None else Some(row)
  }

  /** The token check on a possibly missing row: with no tokens it passes without looking; with
      tokens, reading the missing row's values fails. */
  function CheckCandidate(tokens: seq<string>, cand: Option<Row>, idx: nat): Result<bool> {
    match cand
    case None => if |tokens| == 0 then Ok(true) else Err(NullReference)
    case Some(row) => CheckRow(tokens, row, idx)
  }

  /** The result-set loop as the procedure controller writes it: every position's candidate,
      `null` included, goes through the token check and is added when it passes. */
  function StreamRowsAsWritten(rows: seq<Row>, page: int, limit: int, tokens: seq<string>, idx: nat): (r: Result<seq<Option<Row>>>)
    ensures r.Ok? ==> |r.value| <= |rows|
    ensures r.Ok? && |tokens| > 0 ==> None !in r.value
  {
    if |rows| == 0 then Ok([])
    else
      var prev :- StreamRowsAsWritten(rows[..|rows| - 1], page, limit, tokens, idx);
      var cand := Candidate(rows[|rows| - 1], |rows|, page, limit);
      var keep :- CheckCandidate(tokens, cand, idx);
      Ok(prev + if keep then [cand] else [])
  }

  function Present(rows: seq<Row>): (r: seq<Option<Row>>)
    ensures |r| == |rows| && forall k :: 0 <= k < |rows| ==> r[k] == Some(rows[k])
  {
    if |rows| == 0 then [] else Present(rows[..|rows| - 1]) + [Some(rows[|rows| - 1])]
  }

  /** Without a limit the loop as written and the windowed filter agree. */
  lemma {:induction false} AsWrittenWithoutLimit(rows: seq<Row>, page: int, tokens: seq<string>, idx: nat)
    ensures var w := StreamRowsAsWritten(rows, page, 0, tokens, idx);
      var c := StreamRows(rows, page, 0, tokens, idx);
      w.Ok? == c.Ok? && (w.Ok? ==> w.value == Present(c.value))
  {
    if |rows| > 0 {
      var init := rows[..|rows| - 1];
      AsWrittenWithoutLimit(init, page, tokens, idx);
      var last := rows[|rows| - 1];
      var c := Filtered(init, tokens, idx);
      if c.Ok? && CheckRow(tokens, last, idx) == Ok(true) {
        PresentAppend(c.value, last);
      }
    }
  }

  lemma PresentAppend(rows: seq<Row>, x: Row)
    ensures Present(rows + [x]) == Present(rows) + [Some(x)]
  {
    assert (rows + [x])[..|rows|] == rows;
  }

  /** With a positive limit and no tokens to check, the loop as written returns one entry per
      result row: the row itself on the page and a `null` everywhere else, so the rows counted
      include every off-page position. */
  lemma {:induction false} AsWrittenPadsWithNulls(rows: seq<Row>, page: int, limit: int, idx: nat)
    requires limit > 0
    ensures var w := StreamRowsAsWritten(rows, page, limit, [], idx);
      w.Ok? && |w.value| == |rows| &&
      forall k :: 0 <= k < |rows| ==> w.value[k] == Candidate(rows[k], k + 1, page, limit)
  {
    if |rows| > 0 {
      var init := rows[..|rows| - 1];
      AsWrittenPadsWithNulls(init, page, limit, idx);
      assert forall k :: 0 <= k < |init| ==> init[k] == rows[k];
    }
  }

  /** With a positive limit and tokens to check, any result row off the page makes the loop as
      written fail. */
  lemma {:induction false} AsWrittenFailsOffPage(rows: seq<Row>, page: int, limit: int, tokens: seq<string>, idx: nat, k: nat)
    requires limit > 0 && |tokens| > 0 && k < |rows| && !InWindow(k + 1, page, limit)
    ensures StreamRowsAsWritten(rows, page, limit, tokens, idx).Err?
  {
    var init := rows[..|rows| - 1];
    if k < |init| {
      assert init[k] == rows[k];
      AsWrittenFailsOffPage(init, page, limit, tokens, idx, k);
    }
  }

  function SampleRow(token: string): Row {
    Row([Some(Value(StringData(token), None))])
  }

  /** Two result rows, page 1 of size 1, no tokens to check: the loop as written returns the first
      row and a `null` for the second, two rows counted, where the page holds one row. With one
      token to check, the same request fails on the second row. */
  lemma OffPageExample()
    ensures StreamRowsAsWritten([SampleRow("a"), SampleRow("b")], 1, 1, [], 0) == Ok([Some(SampleRow("a")), None])
    ensures StreamRows([SampleRow("a"), SampleRow("b")], 1, 1, [], 0) == Ok([SampleRow("a")])
    ensures StreamRowsAsWritten([SampleRow("a"), SampleRow("b")], 1, 1, ["a"], 0) == Err(NullReference)
  {
    var rows := [SampleRow("a"), SampleRow("b")];
    assert rows[..1] == [SampleRow("a")];
    assert [SampleRow("a")][..0] == [];
    assert ToLower("a") == "a";
    AsWrittenPadsWithNulls(rows, 1, 1, 0);
    assert Candidate(rows[0], 1, 1, 1) == Some(SampleRow("a"));
    assert Candidate(rows[1], 2, 1, 1) == None;
    var w := StreamRowsAsWritten(rows, 1, 1, [], 0).value;
    assert w[0] == Some(SampleRow("a")) && w[1] == None;
    assert w == [Some(SampleRow("a")), None];
    FilteredWithoutTokens([SampleRow("a")], 0);
  }
}
