/** `calculateSqlProcedureResult` without the JDBC driver: every input row is one call of the
    procedure. The database's answer to the call for row `j` is a parameter; what the engine
    decides is modelled: the page and limit, the call string, the parameter bindings, the rows the
    caller may see, the output row with its redaction, and the merged result with its aggregate
    return code. */
module ProcedureExecution {
  import opened Text
  import opened Domain
  import opened Paging
  import opened RowSecurity
  import opened ProcedureCall
  import opened ProcedureRows

  /** Parameter 1 is the return code; the column `k` is parameter `k + 2`. */
  const PARAMETER_OFFSET: int := 2

  /** A parameter of the call as the binder sets it: its position, the value bound (`None` binds a
      typed `null`), the JDBC type of that `null`, and the type it is registered with as an output
      parameter, if it is one. */
  datatype ParameterBinding = ParameterBinding(position: int, value: Option<Value>, nullType: Option<int>, outType: Option<int>)

  function ParseError(k: int): string {
    "msg.ParseError %" + IntToString(k)
  }

  function BindingOf(col: Column, cell: Option<Value>, k: nat): ParameterBinding {
    ParameterBinding(k + PARAMETER_OFFSET, cell,
      if cell.None? then Some(JdbcType(col.dataType)) else None,
      if col.outputType == OUTPUT then Some(JdbcType(col.dataType)) else None)
  }

  /** `fillCallableSqlProcedureStatement` for one input row: the column `k` is bound at position
      `k + 2`; a row shorter than the column list fails at its first missing position. */
  function CallBindings(cols: seq<Column>, row: Row): (r: Result<seq<ParameterBinding>>)
    ensures r.Ok? <==> |cols| <= |row.values|
    ensures r.Err? ==> r.error == Failure(ParseError(|row.values|))
    ensures r.Ok? ==> |r.value| == |cols|
    ensures r.Ok? ==> forall k :: 0 <= k < |cols| ==> r.value[k] == BindingOf(cols[k], row.values[k], k)
  {
    if |cols| == 0 then Ok([])
    else
      var prev :- CallBindings(cols[..|cols| - 1], row);
      var k := |cols| - 1;
      if k >= |row.values| then Err(Failure(ParseError(k)))
      else Ok(prev + [BindingOf(cols[k], row.values[k], k)])
  }

  /** The bindings fill the call string exactly: its first placeholder is the return code and the
      others are bound one per column, each at its own position, and a `null` or an output
      parameter carries the JDBC type of its column. */
  lemma BindingsFillCall(t: Table, row: Row)
    requires Trim(t.name) != "" && '?' !in t.name && |t.columns| <= |row.values|
    ensures var call := PrepareProcedureString(t, true);
      var b := CallBindings(t.columns, row);
      call.Ok? && b.Ok? && CountChar(call.value, '?') == |b.value| + 1 &&
      (forall k :: 0 <= k < |b.value| ==> b.value[k].position == k + 2) &&
      (forall k :: 0 <= k < |b.value| ==> (b.value[k].nullType.Some? <==> row.values[k].None?)) &&
      (forall k :: 0 <= k < |b.value| ==> (b.value[k].outType.Some? <==> t.columns[k].outputType == OUTPUT))
  {
    CallPlaceholders(t, true);
  }

  /** Some column is an output parameter. */
  predicate HasOutput(cols: seq<Column>) {
    exists k :: 0 <= k < |cols| && cols[k].outputType == OUTPUT
  }

  /** The output row before the token check: an output column takes the value the call left in its
      parameter; every other column echoes the FIRST input row, whichever row was called. */
  function OutputValues(cols: seq<Column>, first: Row, outParameter: int -> Option<Value>): (r: Result<seq<Option<Value>>>)
    ensures r.Ok? <==> forall k :: 0 <= k < |cols| && cols[k].outputType != OUTPUT ==> k < |first.values|
    ensures r.Err? ==> r.error == IndexOutOfBounds
    ensures r.Ok? ==> |r.value| == |cols|
    ensures r.Ok? ==> forall k :: 0 <= k < |cols| ==>
      r.value[k] == if cols[k].outputType == OUTPUT then outParameter(k + PARAMETER_OFFSET) else first.values[k]
  {
    if |cols| == 0 then Ok([])
    else
      var prev :- OutputValues(cols[..|cols| - 1], first, outParameter);
      var k := |cols| - 1;
      if cols[k].outputType == OUTPUT then Ok(prev + [outParameter(k + PARAMETER_OFFSET)])
      else if k >= |first.values| then Err(IndexOutOfBounds)
      else Ok(prev + [first.values[k]])
  }

  /** `n` Java `null`s. */
  function Nulls(n: nat): (r: seq<Option<Value>>)
    ensures |r| == n && forall k :: 0 <= k < n ==> r[k].None?
  {
    if n == 0 then [] else Nulls(n - 1) + [None]
  }

  /** The output-parameter row of one call: none when no column is an output parameter; otherwise
      the output values, or as many `null`s when the caller's tokens do not cover the row's
      security token (read from the input table's token column). */
  function OutputRow(cols: seq<Column>, first: Row, outParameter: int -> Option<Value>, tokens: seq<string>): (r: Result<Option<Row>>)
    ensures r.Ok? && r.value.Some? ==> |r.value.value.values| == |cols|
    ensures r.Ok? ==> (r.value.Some? <==> HasOutput(cols))
  {
    if !HasOutput(cols) then Ok(None)
    else
      var values :- OutputValues(cols, first, outParameter);
      var pass :- CheckRow(tokens, Row(values), SecurityTokenColumn(cols));
      Ok(Some(if pass then Row(values) else Row(Nulls(|values|))))
  }

  /** The output row is redacted exactly when the token check rejects it; then every value is
      `null`, otherwise it is the output values unchanged. Without tokens to check nothing is
      redacted. */
  lemma OutputRowRedaction(cols: seq<Column>, first: Row, outParameter: int -> Option<Value>, tokens: seq<string>)
    requires HasOutput(cols) && OutputValues(cols, first, outParameter).Ok?
    ensures var values := OutputValues(cols, first, outParameter).value;
      var check := CheckRow(tokens, Row(values), SecurityTokenColumn(cols));
      var r := OutputRow(cols, first, outParameter, tokens);
      (r.Ok? <==> check.Ok?) &&
      (check == Ok(true) ==> r == Ok(Some(Row(values)))) &&
      (check == Ok(false) ==> r.Ok? && r.value.Some? && forall k :: 0 <= k < |cols| ==> r.value.value.values[k].None?) &&
      (|tokens| == 0 ==> r == Ok(Some(Row(values))))
  {
  }

  /** A non-output column of the output row echoes the first input row, not the row just called. */
  lemma OutputEchoesFirstRow(cols: seq<Column>, first: Row, outParameter: int -> Option<Value>, k: nat)
    requires k < |cols| && cols[k].outputType == INPUT
    requires OutputRow(cols, first, outParameter, []).Ok? && OutputRow(cols, first, outParameter, []).value.Some?
    ensures k < |first.values| && OutputRow(cols, first, outParameter, []).value.value.values[k] == first.values[k]
  {
  }

  /** A code of the next call moves the aggregate to 1 when it differs from every earlier code. */
  function CodeStep(codes: seq<int>, current: int, code: int): int {
    if |codes| > 0 && code !in codes && current != 1 then 1 else current
  }

  /** The aggregate return code after the given per-call codes, starting from 0. */
  function AggregateCode(codes: seq<int>): int {
    if |codes| == 0 then 0
    else CodeStep(codes[..|codes| - 1], AggregateCode(codes[..|codes| - 1]), codes[|codes| - 1])
  }

  /** Two of the codes differ. */
  predicate Disagree(codes: seq<int>) {
    exists i, j :: 0 <= i < |codes| && 0 <= j < |codes| && codes[i] != codes[j]
  }

  /** The aggregate is 1 when two codes differ and 0 otherwise, even when all codes agree on a
      non-zero value. */
  lemma {:induction false} AggregateCodeMeaning(codes: seq<int>)
    ensures AggregateCode(codes) == if Disagree(codes) then 1 else 0
  {
    if |codes| > 0 {
      var init := codes[..|codes| - 1];
      var c := codes[|codes| - 1];
      AggregateCodeMeaning(init);
      if Disagree(init) {
        var i, j :| 0 <= i < |init| && 0 <= j < |init| && init[i] != init[j];
        assert codes[i] != codes[j];
      } else if |init| > 0 {
        if c in init {
          forall i, j | 0 <= i < |codes| && 0 <= j < |codes|
            ensures codes[i] == codes[j]
          {
            var m :| 0 <= m < |init| && init[m] == c;
            if i < |init| {
              assert init[i] == init[m];
            }
            if j < |init| {
              assert init[j] == init[m];
            }
          }
        } else {
          assert init[0] != c;
          assert codes[0] != codes[|codes| - 1];
        }
      } else {
        assert |codes| == 1;
      }
    }
  }

  /** Two calls answering 5 aggregate to 0; calls answering 0 and then 5 aggregate to 1. */
  lemma AggregateCodeExamples()
    ensures AggregateCode([5, 5]) == 0
    ensures AggregateCode([0, 5]) == 1
  {
    assert [5, 5][..1] == [5];
    assert [0, 5][..1] == [0];
    assert [5][..0] == [];
    assert [0][..0] == [];
  }

  /** The rows a call's result set yields, under the columns it was read with. */
  datatype ResultSet = ResultSet(columns: seq<Column>, rows: seq<Row>)

  /** What the database answered to the call of one input row: its result set if it produced one,
      the values of its parameters after the call (by position), and its return code if not `null`. */
  datatype Execution = Execution(resultSet: Option<ResultSetData>, outParameter: int -> Option<Value>, returnCode: Option<int>)

  datatype ResultSetData = ResultSetData(columns: seq<SqlColumn>, rows: seq<Row>)

  /** The part one call contributes to the result. */
  datatype RowOutcome = RowOutcome(resultSet: Option<ResultSet>, output: Option<Row>, returnCode: Option<int>)

  /** `SqlProcedureResult`: the merged result set, the output rows, every non-null return code in
      call order and the aggregate return code. */
  datatype ProcedureResult = ProcedureResult(resultSet: Option<ResultSet>, outputParameters: Option<seq<Row>>, returnCodes: seq<int>, returnCode: int)

  /** The result set of one call: its columns, and its rows cut to the page and filtered by the
      token column of those columns. */
  function ReadResultSet(data: ResultSetData, request: PageRequest, tokens: seq<string>): (r: Result<ResultSet>)
    ensures r.Ok? ==> ResultColumns(data.columns) == Ok(r.value.columns)
    ensures r.Ok? ==> StreamRows(data.rows, request.page, request.limit, tokens, SecurityTokenColumn(r.value.columns)) == Ok(r.value.rows)
    ensures r.Err? <==> (ResultColumns(data.columns).Err? ||
      StreamRows(data.rows, request.page, request.limit, tokens, SecurityTokenColumn(ResultColumns(data.columns).value)).Err?)
  {
    var cols :- ResultColumns(data.columns);
    var rows :- StreamRows(data.rows, request.page, request.limit, tokens, SecurityTokenColumn(cols));
    Ok(ResultSet(cols, rows))
  }

  function Outcome(input: Table, request: PageRequest, tokens: seq<string>, e: Execution): Result<RowOutcome>
    requires |input.rows| > 0
  {
    var rs :- match e.resultSet
      case None => Ok(None)
      case Some(data) => (var s :- ReadResultSet(data, request, tokens); Ok(Some(s)));
    var output :- OutputRow(input.columns, input.rows[0], e.outParameter, tokens);
    Ok(RowOutcome(rs, output, e.returnCode))
  }

  /** The first result set is kept with its columns; the rows of later ones are appended to it. */
  function ExtendResultSet(acc: Option<ResultSet>, more: Option<ResultSet>): Option<ResultSet> {
    match more
    case None => acc
    case Some(m) => if acc.None? then more else Some(ResultSet(acc.value.columns, acc.value.rows + m.rows))
  }

  function ExtendOutput(acc: Option<seq<Row>>, more: Option<Row>): Option<seq<Row>> {
    match more
    case None => acc
    case Some(row) => if acc.None? then Some([row]) else Some(acc.value + [row])
  }

  function Merge(acc: ProcedureResult, o: RowOutcome): ProcedureResult {
    ProcedureResult(
      ExtendResultSet(acc.resultSet, o.resultSet),
      ExtendOutput(acc.outputParameters, o.output),
      if o.returnCode.Some? then acc.returnCodes + [o.returnCode.value] else acc.returnCodes,
      if o.returnCode.Some? then CodeStep(acc.returnCodes, acc.returnCode, o.returnCode.value) else acc.returnCode)
  }

  /** The calls of the first `n` input rows, one after the other: bind, call, read, merge. */
  function RunRows(input: Table, request: PageRequest, tokens: seq<string>, execute: nat -> Execution, n: nat): Result<ProcedureResult>
    requires n <= |input.rows|
  {
    if n == 0 then Ok(ProcedureResult(None, None, [], 0))
    else
      var acc :- RunRows(input, request, tokens, execute, n - 1);
      var _ :- CallBindings(input.columns, input.rows[n - 1]);
      var o :- Outcome(input, request, tokens, execute(n - 1));
      Ok(Merge(acc, o))
  }

  /** `calculateSqlProcedureResult`: the page and limit are read first, then the call string is
      built (with a return slot), then every input row is called in order. */
  function CalculateProcedureResult(input: Table, tokens: seq<string>, execute: nat -> Execution): (r: Result<ProcedureResult>)
    ensures r.Ok? ==> PageAndLimit(input.metaData, SERVICE_MESSAGES).Ok? && Trim(input.name) != ""
    ensures PageAndLimit(input.metaData, SERVICE_MESSAGES).Err? ==> r == Err(PageAndLimit(input.metaData, SERVICE_MESSAGES).error)
  {
    var request :- PageAndLimit(input.metaData, SERVICE_MESSAGES);
    var _ :- PrepareProcedureString(input, true);
    RunRows(input, request, tokens, execute, |input.rows|)
  }

  /** A bad page or limit is rejected before anything is called, then a blank procedure name. */
  lemma CalculateRejects(input: Table, tokens: seq<string>, execute: nat -> Execution, other: nat -> Execution)
    ensures PageAndLimit(input.metaData, SERVICE_MESSAGES).Err? ==>
      CalculateProcedureResult(input, tokens, execute) == Err(PageAndLimit(input.metaData, SERVICE_MESSAGES).error)
    ensures input.metaData.Some? && input.metaData.value.page.Some? && input.metaData.value.page.value <= 0 ==>
      CalculateProcedureResult(input, tokens, execute) == Err(IllegalArgument("msg.PageError"))
    ensures PageAndLimit(input.metaData, SERVICE_MESSAGES).Ok? && Trim(input.name) == "" ==>
      CalculateProcedureResult(input, tokens, execute) == Err(IllegalArgument(PROCEDURE_NULL_NAME))
  {
  }

  /** The non-null return codes of the first `n` calls, in call order. */
  function Codes(execute: nat -> Execution, n: nat): seq<int> {
    if n == 0 then []
    else Codes(execute, n - 1) + (if execute(n - 1).returnCode.Some? then [execute(n - 1).returnCode.value] else [])
  }

  predicate CodesTracked(input: Table, request: PageRequest, tokens: seq<string>, execute: nat -> Execution, n: nat)
    requires n <= |input.rows|
  {
    var r := RunRows(input, request, tokens, execute, n);
    r.Ok? ==> r.value.returnCodes == Codes(execute, n) && r.value.returnCode == AggregateCode(Codes(execute, n))
  }

  lemma {:induction false} RunCodes(input: Table, request: PageRequest, tokens: seq<string>, execute: nat -> Execution, n: nat)
    requires n <= |input.rows|
    ensures CodesTracked(input, request, tokens, execute, n)
    decreases n
  {
    if n > 0 {
      RunCodes(input, request, tokens, execute, n - 1);
      RunCodesStep(input, request, tokens, execute, n);
    }
  }

  lemma RunCodesStep(input: Table, request: PageRequest, tokens: seq<string>, execute: nat -> Execution, n: nat)
    requires 0 < n <= |input.rows| && CodesTracked(input, request, tokens, execute, n - 1)
    ensures CodesTracked(input, request, tokens, execute, n)
  {
    var prev := Codes(execute, n - 1);
    var c := execute(n - 1).returnCode;
    if c.Some? {
      assert (prev + [c.value])[..|prev|] == prev;
    }
  }

  /** The result lists every non-null return code in call order, and its return code is 1 exactly
      when two of them differ, else 0. */
  lemma CalculateReturnCodes(input: Table, tokens: seq<string>, execute: nat -> Execution)
    requires CalculateProcedureResult(input, tokens, execute).Ok?
    ensures var r := CalculateProcedureResult(input, tokens, execute).value;
      r.returnCodes == Codes(execute, |input.rows|) &&
      r.returnCode == if Disagree(Codes(execute, |input.rows|)) then 1 else 0
  {
    var request := PageAndLimit(input.metaData, SERVICE_MESSAGES).value;
    RunCodes(input, request, tokens, execute, |input.rows|);
    AggregateCodeMeaning(Codes(execute, |input.rows|));
  }

  predicate OutputsTracked(input: Table, request: PageRequest, tokens: seq<string>, execute: nat -> Execution, n: nat)
    requires n <= |input.rows|
  {
    var r := RunRows(input, request, tokens, execute, n);
    r.Ok? ==>
      (r.value.outputParameters.Some? <==> n > 0 && HasOutput(input.columns)) &&
      (r.value.outputParameters.Some? ==>
        |r.value.outputParameters.value| == n &&
        forall k :: 0 <= k < n ==> |r.value.outputParameters.value[k].values| == |input.columns|)
  }

  lemma {:induction false} RunOutputs(input: Table, request: PageRequest, tokens: seq<string>, execute: nat -> Execution, n: nat)
    requires n <= |input.rows|
    ensures OutputsTracked(input, request, tokens, execute, n)
    decreases n
  {
    if n > 0 {
      RunOutputs(input, request, tokens, execute, n - 1);
      RunOutputsStep(input, request, tokens, execute, n);
    }
  }

  lemma RunOutputsStep(input: Table, request: PageRequest, tokens: seq<string>, execute: nat -> Execution, n: nat)
    requires 0 < n <= |input.rows| && OutputsTracked(input, request, tokens, execute, n - 1)
    ensures OutputsTracked(input, request, tokens, execute, n)
  {
  }

  /** With an output column, every call contributes exactly one output row of one value per
      column; without one there are no output parameters at all. */
  lemma CalculateOutputRows(input: Table, tokens: seq<string>, execute: nat -> Execution)
    requires CalculateProcedureResult(input, tokens, execute).Ok?
    ensures var r := CalculateProcedureResult(input, tokens, execute).value;
      (r.outputParameters.Some? <==> |input.rows| > 0 && HasOutput(input.columns)) &&
      (r.outputParameters.Some? ==> (|r.outputParameters.value| == |input.rows| &&
        forall k :: 0 <= k < |input.rows| ==> |r.outputParameters.value[k].values| == |input.columns|))
  {
    var request := PageAndLimit(input.metaData, SERVICE_MESSAGES).value;
    RunOutputs(input, request, tokens, execute, |input.rows|);
  }

  /** The rows the result sets of the first `n` calls contribute, call after call: the reference
      for the merged result set. */
  function CallRows(request: PageRequest, tokens: seq<string>, execute: nat -> Execution, n: nat): seq<Row> {
    if n == 0 then []
    else
      var more := match execute(n - 1).resultSet
        case None => []
        case Some(data) => (match ReadResultSet(data, request, tokens) case Ok(s) => s.rows case Err(_) => []);
      CallRows(request, tokens, execute, n - 1) + more
  }

  /** Some call among the first `n` produced a result set. */
  predicate AnyResultSet(execute: nat -> Execution, n: nat) {
    exists j :: 0 <= j < n && execute(j).resultSet.Some?
  }

  predicate RowsTracked(input: Table, request: PageRequest, tokens: seq<string>, execute: nat -> Execution, n: nat)
    requires n <= |input.rows|
  {
    var r := RunRows(input, request, tokens, execute, n);
    r.Ok? ==>
      (r.value.resultSet.Some? <==> AnyResultSet(execute, n)) &&
      (r.value.resultSet.Some? ==> r.value.resultSet.value.rows == CallRows(request, tokens, execute, n))
  }

  lemma {:induction false} RunResultRows(input: Table, request: PageRequest, tokens: seq<string>, execute: nat -> Execution, n: nat)
    requires n <= |input.rows|
    ensures RowsTracked(input, request, tokens, execute, n)
    decreases n
  {
    if n > 0 {
      RunResultRows(input, request, tokens, execute, n - 1);
      RunResultRowsStep(input, request, tokens, execute, n);
    }
  }

  lemma RunResultRowsStep(input: Table, request: PageRequest, tokens: seq<string>, execute: nat -> Execution, n: nat)
    requires 0 < n <= |input.rows| && RowsTracked(input, request, tokens, execute, n - 1)
    ensures RowsTracked(input, request, tokens, execute, n)
  {
    var r := RunRows(input, request, tokens, execute, n);
    if r.Ok? {
      RunRowsResultSet(input, request, tokens, execute, n);
      AnyResultSetStep(execute, n);
      if !AnyResultSet(execute, n - 1) {
        NoResultSetNoRows(request, tokens, execute, n - 1);
      }
      var more := match execute(n - 1).resultSet
        case None => None
        case Some(data) => Some(ReadResultSet(data, request, tokens).value);
      ExtendTracks(RunRows(input, request, tokens, execute, n - 1).value.resultSet, more,
                   CallRows(request, tokens, execute, n - 1), AnyResultSet(execute, n - 1));
    }
  }

  /** The merged result set before and after one more call, against the reference rows. */
  lemma ExtendTracks(acc: Option<ResultSet>, more: Option<ResultSet>, before: seq<Row>, any: bool)
    requires (acc.Some? <==> any) && (acc.Some? ==> acc.value.rows == before) && (!any ==> before == [])
    ensures var next := ExtendResultSet(acc, more);
      (next.Some? <==> any || more.Some?) &&
      (next.Some? ==> next.value.rows == before + (if more.Some? then more.value.rows else []))
  {
    if more.Some? && acc.None? {
      assert before + more.value.rows == more.value.rows;
    }
    if more.None? {
      assert before + [] == before;
    }
  }

  lemma AnyResultSetStep(execute: nat -> Execution, n: nat)
    requires 0 < n
    ensures AnyResultSet(execute, n) <==> AnyResultSet(execute, n - 1) || execute(n - 1).resultSet.Some?
  {
    if AnyResultSet(execute, n) && execute(n - 1).resultSet.None? {
      var j :| 0 <= j < n && execute(j).resultSet.Some?;
      assert AnyResultSet(execute, n - 1);
    }
  }

  /** One call's effect on the merged result set: a call without a result set leaves it alone, a
      call with one extends it by that result set's rows. */
  lemma RunRowsResultSet(input: Table, request: PageRequest, tokens: seq<string>, execute: nat -> Execution, n: nat)
    requires 0 < n <= |input.rows| && RunRows(input, request, tokens, execute, n).Ok?
    ensures RunRows(input, request, tokens, execute, n - 1).Ok?
    ensures execute(n - 1).resultSet.None? ==>
      RunRows(input, request, tokens, execute, n).value.resultSet == RunRows(input, request, tokens, execute, n - 1).value.resultSet
    ensures execute(n - 1).resultSet.Some? ==>
      ReadResultSet(execute(n - 1).resultSet.value, request, tokens).Ok? &&
      RunRows(input, request, tokens, execute, n).value.resultSet ==
        ExtendResultSet(RunRows(input, request, tokens, execute, n - 1).value.resultSet,
                        Some(ReadResultSet(execute(n - 1).resultSet.value, request, tokens).value))
  {
  }

  lemma {:induction false} NoResultSetNoRows(request: PageRequest, tokens: seq<string>, execute: nat -> Execution, n: nat)
    requires !AnyResultSet(execute, n)
    ensures CallRows(request, tokens, execute, n) == []
    decreases n
  {
    if n > 0 {
      assert execute(n - 1).resultSet.None?;
      NoResultSetNoRows(request, tokens, execute, n - 1);
    }
  }

  /** The result has a result set exactly when some call produced one; its rows are those of every
      call's result set, each cut to the page and filtered by the caller's tokens, in call order. */
  lemma CalculateResultRows(input: Table, tokens: seq<string>, execute: nat -> Execution)
    requires CalculateProcedureResult(input, tokens, execute).Ok?
    ensures var r := CalculateProcedureResult(input, tokens, execute).value;
      var request := PageAndLimit(input.metaData, SERVICE_MESSAGES).value;
      (r.resultSet.Some? <==> AnyResultSet(execute, |input.rows|)) &&
      (r.resultSet.Some? ==> r.resultSet.value.rows == CallRows(request, tokens, execute, |input.rows|))
  {
    var request := PageAndLimit(input.metaData, SERVICE_MESSAGES).value;
    RunResultRows(input, request, tokens, execute, |input.rows|);
  }
}
