/** The parameter-binding walk of the view statement (`fillPreparedViewString`): the
    search values are visited row by row, the AND marker column skipped, and each value
    binds zero, one or several strings to consecutive `?` placeholders. The walk keeps
    its position with a running offset that is lowered for every value that binds
    nothing. The main result is that it binds exactly as many parameters as the WHERE
    builder emitted placeholders. */
module Binding {
  import opened Text
  import opened Domain
  import opened WhereClause

  /** One `setString` call: the 1-based parameter index and the text bound there. */
  datatype Binding = Binding(index: int, text: string)

  /** The cells the binder visits among the first `k` of a row: every cell except those under
      a column whose name equals the AND marker exactly. */
  function RowInputsUpTo(cols: seq<Column>, values: seq<Option<Value>>, k: nat): seq<Option<Value>>
    requires k <= |values| <= |cols|
  {
    if k == 0 then []
    else RowInputsUpTo(cols, values, k - 1) + (if cols[k - 1].name == AND_FIELD_NAME then [] else [values[k - 1]])
  }

  function RowInputs(cols: seq<Column>, row: Row): seq<Option<Value>>
    requires |row.values| <= |cols|
  {
    RowInputsUpTo(cols, row.values, |row.values|)
  }

  /** The cells visited for the first `k` rows, row-major. */
  function InputsUpTo(t: Table, k: nat): seq<Option<Value>>
    requires RowsFit(t) && k <= |t.rows|
  {
    if k == 0 then [] else InputsUpTo(t, k - 1) + RowInputs(t.columns, t.rows[k - 1])
  }

  function InputValues(t: Table): seq<Option<Value>>
    requires RowsFit(t)
  {
    InputsUpTo(t, |t.rows|)
  }

  /** The cell carries an `in` rule. */
  predicate InRule(cell: Option<Value>) {
    cell.Some? && cell.value.rule.Some? && Contains(cell.value.rule.value, "in")
  }

  /** The cell carries a `between` rule and no `in` rule. */
  predicate BetweenRule(cell: Option<Value>) {
    cell.Some? && cell.value.rule.Some? && !InRule(cell) && Contains(cell.value.rule.value, "between")
  }

  /** The texts one cell binds: nothing for null; the untrimmed text of a non-blank value
      without an in/between rule; every comma element for `in`; the first and the last comma
      element for `between`. Reading the string of a non-string value yields `null`, so
      splitting it fails, as does taking an element of an empty split. */
  function ValueBindings(cell: Option<Value>): Result<seq<string>> {
    match cell
    case None => Ok([])
    case Some(v) =>
      var text := ValueText(v.data);
      if v.rule.Some? && Contains(v.rule.value, "in") then
        match StringValueOf(v)
        case None => Err(NullReference)
        case Some(s) => Ok(JavaSplit(s, ','))
      else if v.rule.Some? && Contains(v.rule.value, "between") then
        match StringValueOf(v)
        case None => Err(NullReference)
        case Some(s) =>
          var parts := JavaSplit(s, ',');
          if |parts| == 0 then Err(IndexOutOfBounds) else Ok([parts[0], parts[|parts| - 1]])
      else
        Ok(if Trim(text) != "" then [text] else [])
  }
  /** Only an `in` or `between` cell can fail to bind, with a null reference (a non-string
      payload) or an index error (a `between` value whose split is empty). A `between` cell binds
      two texts; a cell with neither rule binds at most one. */
  lemma ValueBindingsShape(cell: Option<Value>)
    ensures ValueBindings(cell).Err? ==> InRule(cell) || BetweenRule(cell)
    ensures ValueBindings(cell).Err? ==> ValueBindings(cell).error == NullReference || ValueBindings(cell).error == IndexOutOfBounds
    ensures ValueBindings(cell).Ok? && BetweenRule(cell) ==> |ValueBindings(cell).value| == 2
    ensures ValueBindings(cell).Ok? && !InRule(cell) && !BetweenRule(cell) ==> |ValueBindings(cell).value| <= 1
  {
  }


  /** The message of the runtime exception a value that cannot be bound raises, followed by
      the value's position among the visited cells. */
  const PARAMETER_ERROR: string := "Could not parse input parameter with index:"

  function ParameterError(i: nat): Error {
    Failure(PARAMETER_ERROR + NatToString(i))
  }

  lemma ParameterErrorInjective(i: nat, j: nat)
    requires ParameterError(i) == ParameterError(j)
    ensures i == j
  {
    var a, b := PARAMETER_ERROR + NatToString(i), PARAMETER_ERROR + NatToString(j);
    assert a[|PARAMETER_ERROR|..] == NatToString(i);
    assert b[|PARAMETER_ERROR|..] == NatToString(j);
    NatToStringRoundTrip(i);
    NatToStringRoundTrip(j);
  }

  /** The texts bound for a sequence of cells, in order. The first cell that cannot be bound
      fails the walk with its position. */
  function BoundTexts(cells: seq<Option<Value>>): Result<seq<string>> {
    if |cells| == 0 then Ok([])
    else
      var prev :- BoundTexts(cells[..|cells| - 1]);
      var last :- CellTexts(cells[|cells| - 1], |cells| - 1);
      Ok(prev + last)
  }

  /** The texts of the cell at position `i`, or the failure naming that position. */
  function CellTexts(cell: Option<Value>, i: nat): (r: Result<seq<string>>)
    ensures r.Ok? <==> ValueBindings(cell).Ok?
    ensures r.Ok? ==> r.value == ValueBindings(cell).value
    ensures r.Err? ==> r.error == ParameterError(i)
  {
    if ValueBindings(cell).Err? then Err(ParameterError(i)) else ValueBindings(cell)
  }

  /** A failure among the first cells is the failure of the whole walk. */
  lemma {:induction false} BoundTextsFailsEarly(a: seq<Option<Value>>, b: seq<Option<Value>>)
    requires BoundTexts(a).Err?
    ensures BoundTexts(a + b) == BoundTexts(a)
    decreases |b|
  {
    if |b| == 0 {
      assert a + b == a;
    } else {
      assert (a + b)[..|a + b| - 1] == a + b[..|b| - 1];
      BoundTextsFailsEarly(a, b[..|b| - 1]);
    }
  }

  /** Binding is compositional over concatenated cell sequences. */
  predicate Compositional(a: seq<Option<Value>>, b: seq<Option<Value>>) {
    && (BoundTexts(a + b).Ok? <==> BoundTexts(a).Ok? && BoundTexts(b).Ok?)
    && (BoundTexts(a + b).Ok? ==> BoundTexts(a + b).value == BoundTexts(a).value + BoundTexts(b).value)
  }

  lemma {:induction false} BoundTextsAppend(a: seq<Option<Value>>, b: seq<Option<Value>>)
    ensures BoundTexts(a + b).Ok? <==> BoundTexts(a).Ok? && BoundTexts(b).Ok?
    ensures BoundTexts(a + b).Ok? ==> BoundTexts(a + b).value == BoundTexts(a).value + BoundTexts(b).value
    decreases |b|
  {
    if |b| == 0 {
      assert a + b == a;
    } else {
      BoundTextsAppend(a, b[..|b| - 1]);
      CompositionalStep(a, b);
    }
  }

  lemma CompositionalStep(a: seq<Option<Value>>, b: seq<Option<Value>>)
    requires |b| > 0 && Compositional(a, b[..|b| - 1])
    ensures Compositional(a, b)
  {
    var init, c := b[..|b| - 1], b[|b| - 1];
    AppendLast(a, b);
    BoundTextsSnoc(a + init, c);
    BoundTextsSnoc(init, c);
  }

  lemma AppendLast(a: seq<Option<Value>>, b: seq<Option<Value>>)
    requires |b| > 0
    ensures b == b[..|b| - 1] + [b[|b| - 1]]
    ensures a + b == (a + b[..|b| - 1]) + [b[|b| - 1]]
  {
  }

  /** Binding one more cell: a failure so far stays; otherwise the new cell's texts follow, or its
      failure names its position. */
  lemma BoundTextsSnoc(cells: seq<Option<Value>>, c: Option<Value>)
    ensures BoundTexts(cells + [c]) ==
      if BoundTexts(cells).Err? then BoundTexts(cells)
      else if ValueBindings(c).Err? then Err(ParameterError(|cells|))
      else Ok(BoundTexts(cells).value + ValueBindings(c).value)
  {
    assert (cells + [c])[..|cells|] == cells;
  }

  /** Every cell can be bound exactly when the walk succeeds. */
  lemma {:induction false} BoundTextsOk(cells: seq<Option<Value>>)
    ensures BoundTexts(cells).Ok? <==> forall j :: 0 <= j < |cells| ==> ValueBindings(cells[j]).Ok?
    decreases |cells|
  {
    if |cells| > 0 {
      var prev := cells[..|cells| - 1];
      BoundTextsOk(prev);
      assert forall j :: 0 <= j < |prev| ==> prev[j] == cells[j];
    }
  }

  /** Cell `i` is the first cell that cannot be bound. */
  predicate FirstUnbindable(cells: seq<Option<Value>>, i: nat) {
    i < |cells| && ValueBindings(cells[i]).Err? && forall j :: 0 <= j < i ==> ValueBindings(cells[j]).Ok?
  }

  predicate FailsAtFirstUnbindable(cells: seq<Option<Value>>, i: nat) {
    BoundTexts(cells) == Err(ParameterError(i)) <==> FirstUnbindable(cells, i)
  }

  /** The walk fails with position `i` exactly when cell `i` is the first that cannot be bound. */
  lemma {:induction false} BoundTextsFirstFailure(cells: seq<Option<Value>>, i: nat)
    ensures BoundTexts(cells) == Err(ParameterError(i)) <==> FirstUnbindable(cells, i)
    decreases |cells|
  {
    if |cells| > 0 {
      BoundTextsFirstFailure(cells[..|cells| - 1], i);
      FirstFailureStep(cells, i);
    }
  }

  lemma FirstFailureStep(cells: seq<Option<Value>>, i: nat)
    requires |cells| > 0 && FailsAtFirstUnbindable(cells[..|cells| - 1], i)
    ensures FailsAtFirstUnbindable(cells, i)
  {
    var prev := cells[..|cells| - 1];
    BoundTextsOk(prev);
    assert forall j :: 0 <= j < |prev| ==> prev[j] == cells[j];
    if BoundTexts(prev).Ok? {
      FirstFailureLast(cells, i);
    } else {
      assert BoundTexts(cells) == BoundTexts(prev);
    }
  }

  /** When every earlier cell binds, the walk fails at the last cell or not at all. */
  lemma FirstFailureLast(cells: seq<Option<Value>>, i: nat)
    requires |cells| > 0 && forall j :: 0 <= j < |cells| - 1 ==> ValueBindings(cells[j]).Ok?
    requires BoundTexts(cells[..|cells| - 1]).Ok?
    ensures FailsAtFirstUnbindable(cells, i)
  {
    var n := |cells|;
    if ValueBindings(cells[n - 1]).Err? {
      assert BoundTexts(cells) == Err(ParameterError(n - 1));
      if BoundTexts(cells) == Err(ParameterError(i)) {
        ParameterErrorInjective(n - 1, i);
      }
    }
  }

  /** `bs` are `setString` calls binding `texts` to consecutive parameters from `from` on. */
  predicate Numbered(bs: seq<Binding>, texts: seq<string>, from: int) {
    |bs| == |texts| && forall k :: 0 <= k < |bs| ==> bs[k] == Binding(from + k, texts[k])
  }

  lemma NumberedAppend(a: seq<Binding>, ta: seq<string>, b: seq<Binding>, tb: seq<string>, from: int)
    requires Numbered(a, ta, from) && Numbered(b, tb, from + |a|)
    ensures Numbered(a + b, ta + tb, from)
  {
  }

  /** The calls made for one visited value at loop position `i`: they start at parameter
      `i + offset`, and the returned offset lets position `i + 1` continue right after them. */
  method BindValue(cell: Option<Value>, i: int, offset: int) returns (r: Result<seq<Binding>>, nextOffset: int)
    ensures r.Ok? <==> ValueBindings(cell).Ok?
    ensures r.Ok? ==> Numbered(r.value, ValueBindings(cell).value, i + offset)
    ensures r.Ok? ==> i + 1 + nextOffset == i + offset + |r.value|
  {
    var parameterOffset := offset;
    var calls: seq<Binding> := [];
    if cell.None? {
      return Ok([]), parameterOffset - 1;
    }
    var v := cell.value;
    var stringValue := ValueText(v.data);
    if v.rule.Some? && Contains(v.rule.value, "in") {
      if StringValueOf(v).None? {
        return Err(NullReference), parameterOffset;
      }
      var parts := JavaSplit(StringValueOf(v).value, ',');
      calls, parameterOffset := BindEach(parts, i, offset);
      return Ok(calls), parameterOffset - 1;
    } else if v.rule.Some? && Contains(v.rule.value, "between") {
      if StringValueOf(v).None? {
        return Err(NullReference), parameterOffset;
      }
      var parts := JavaSplit(StringValueOf(v).value, ',');
      if |parts| == 0 {
        return Err(IndexOutOfBounds), parameterOffset;
      }
      calls := calls + [Binding(i + parameterOffset, parts[0])];
      parameterOffset := parameterOffset + 1;
      calls := calls + [Binding(i + parameterOffset, parts[|parts| - 1])];
      return Ok(calls), parameterOffset;
    } else if Trim(stringValue) != "" {
      return Ok([Binding(i + parameterOffset, stringValue)]), parameterOffset;
    } else {
      return Ok([]), parameterOffset - 1;
    }
  }

  /** The `in` loop: one call per element, each at the next parameter, advancing the offset. */
  method BindEach(parts: seq<string>, i: int, offset: int) returns (calls: seq<Binding>, parameterOffset: int)
    ensures Numbered(calls, parts, i + offset)
    ensures parameterOffset == offset + |parts|
  {
    calls := [];
    parameterOffset := offset;
    var j := 0;
    while j < |parts|
      invariant 0 <= j <= |parts|
      invariant Numbered(calls, parts[..j], i + offset)
      invariant parameterOffset == offset + j
    {
      assert parts[..j + 1] == parts[..j] + [parts[j]];
      calls := calls + [Binding(i + parameterOffset, parts[j])];
      parameterOffset := parameterOffset + 1;
      j := j + 1;
    }
    assert parts[..j] == parts;
  }

  /** The texts a view statement's parameters receive, in order; a row longer than the column list
      fails. */
  function ViewParameters(t: Table): Result<seq<string>> {
    if RowsFit(t) then BoundTexts(InputValues(t)) else Err(IndexOutOfBounds)
  }

  /** `fillPreparedViewString`: walks the visited cells with the source's running offset and
      returns the `setString` calls in order. The calls bind the parameters 1, 2, 3, ... without
      gap or repetition, and their texts are the cells' bindings in row-major order; a value
      that cannot be read fails the whole walk, and so does a row longer than the column list,
      already while the values are being collected. */
  method FillPreparedViewString(t: Table) returns (r: Result<seq<Binding>>)
    ensures r.Ok? <==> RowsFit(t) && BoundTexts(InputValues(t)).Ok?
    ensures r.Ok? ==> Numbered(r.value, BoundTexts(InputValues(t)).value, 1)
    ensures r.Ok? <==> ViewParameters(t).Ok?
    ensures r.Err? ==> r.error == ViewParameters(t).error
  {
    if !RowsFit(t) {
      return Err(IndexOutOfBounds);
    }
    var inputValues := InputValues(t);
    var parameterOffset := 1;
    var bindings: seq<Binding> := [];
    var texts: seq<string> := [];
    var i := 0;
    while i < |inputValues|
      invariant 0 <= i <= |inputValues|
      invariant BoundTexts(inputValues[..i]) == Ok(texts)
      invariant Numbered(bindings, texts, 1)
      invariant i + parameterOffset == |bindings| + 1
    {
      assert inputValues[..i + 1][..i] == inputValues[..i];
      assert inputValues[..i + 1][i] == inputValues[i];
      var calls, nextOffset := BindValue(inputValues[i], i, parameterOffset);
      if calls.Err? {
        assert BoundTexts(inputValues[..i + 1]) == Err(ParameterError(i));
        BoundTextsFailsEarly(inputValues[..i + 1], inputValues[i + 1..]);
        assert inputValues[..i + 1] + inputValues[i + 1..] == inputValues;
        return Err(ParameterError(i));
      }
      NumberedAppend(bindings, texts, calls.value, ValueBindings(inputValues[i]).value, 1);
      bindings := bindings + calls.value;
      texts := texts + ValueBindings(inputValues[i]).value;
      parameterOffset := nextOffset;
      i := i + 1;
    }
    assert inputValues[..i] == inputValues;
    return Ok(bindings);
  }

  // ---- Alignment with the WHERE builder ----

  /** A cell whose rule mentions `in` or `between` holds a non-blank string without surrounding
      spaces, and a `between` value is not made of commas only. */
  predicate BindableCell(cell: Option<Value>) {
    cell.Some? && cell.value.rule.Some? &&
    (Contains(cell.value.rule.value, "in") || Contains(cell.value.rule.value, "between")) ==>
      && cell.value.data.StringData?
      && cell.value.data.s != ""
      && Trim(cell.value.data.s) == cell.value.data.s
      && (Contains(cell.value.rule.value, "in") || JavaSplit(cell.value.data.s, ',') != [])
  }

  /** A cell ready for binding under its column: neither the column name nor the rule contains
      a `?` of its own, and the value is bindable. */
  predicate CellReady(col: Column, cell: Option<Value>) {
    && '?' !in col.name
    && (cell.Some? && cell.value.rule.Some? ==> '?' !in cell.value.rule.value)
    && BindableCell(cell)
  }

  /** Every search cell of the template is ready for binding. */
  predicate TemplateReady(t: Table) {
    forall r, i :: 0 <= r < |t.rows| && 0 <= i < |t.rows[r].values| && i < |t.columns| ==>
      CellReady(t.columns[i], t.rows[r].values[i])
  }

  /** The builder's case-insensitive AND marker test and the binder's exact one agree. */
  lemma AndMarkerIsExact(name: string)
    ensures IsAndMarker(name) <==> name == AND_FIELD_NAME
  {
    CaselessNameEquality(AND_FIELD_NAME, name);
  }

  lemma CountFive(a: string, b: string, c: string, d: string, e: string)
    ensures CountChar(a + b + c + d + e, '?') ==
      CountChar(a, '?') + CountChar(b, '?') + CountChar(c, '?') + CountChar(d, '?') + CountChar(e, '?')
  {
    CountCharAppend(a, b, '?');
    CountCharAppend(a + b, c, '?');
    CountCharAppend(a + b + c, d, '?');
    CountCharAppend(a + b + c + d, e, '?');
  }

  lemma QuestionMarkCount()
    ensures CountChar("?", '?') == 1
  {
    assert "?"[..0] == "";
  }

  lemma InTermCount(name: string, n: nat)
    requires '?' !in name
    ensures CountChar(name + " in(" + Placeholders(n) + ")", '?') == n
  {
    CountCharAbsent(name, '?');
    PlaceholdersCount(n);
    CountFive(name, " in(", Placeholders(n), ")", "");
    CountCharAbsent(" in(", '?');
    CountCharAbsent(")", '?');
    assert name + " in(" + Placeholders(n) + ")" + "" == name + " in(" + Placeholders(n) + ")";
  }

  lemma BetweenTermCount(name: string)
    requires '?' !in name
    ensures CountChar(name + " between ? and ?", '?') == 2
  {
    CountCharAbsent(name, '?');
    QuestionMarkCount();
    CountFive(name, " between ", "?", " and ", "?");
    CountCharAbsent(" between ", '?');
    CountCharAbsent(" and ", '?');
    assert name + " between " + "?" + " and " + "?" == name + " between ? and ?";
  }

  lemma OperatorTermCount(name: string, op: string)
    requires '?' !in name && '?' !in op
    ensures CountChar(name + " " + op + " ?", '?') == 1
  {
    CountCharAbsent(name, '?');
    CountCharAbsent(op, '?');
    QuestionMarkCount();
    CountFive(name, " ", op, " ", "?");
    CountCharAbsent(" ", '?');
    assert name + " " + op + " " + "?" == name + " " + op + " ?";
  }

  /** A ruled, non-blank cell: `in` has one placeholder per element and binds every element,
      `between` has two and binds two, any other operator has one and binds the value. */
  lemma RuledCellAlignment(col: Column, v: Value, autoLike: bool)
    requires !IsAndMarker(col.name) && '?' !in col.name && HasRule(v) && '?' !in v.rule.value
    requires SearchText(v) != "" && BindableCell(Some(v))
    ensures ValueBindings(CellTerm(col, Some(v), autoLike).written).Ok?
    ensures |ValueBindings(CellTerm(col, Some(v), autoLike).written).value| == CountChar(CellTerm(col, Some(v), autoLike).term, '?')
  {
    RuleOperator(col, v, autoLike);
    var rule := v.rule.value;
    if Contains(rule, "in") {
      assert SearchText(v) == v.data.s by {
        TrimOfTrimmed(v.data.s);
      }
      InTermCount(col.name, |JavaSplit(SearchText(v), ',')|);
    } else if Contains(rule, "between") {
      BetweenTermCount(col.name);
    } else {
      OperatorTermCount(col.name, rule);
    }
  }

  lemma RulelessBindsOne(col: Column, v: Value, autoLike: bool)
    requires !IsAndMarker(col.name) && !HasRule(v) && SearchText(v) != ""
    ensures ValueBindings(CellTerm(col, Some(v), autoLike).written).Ok?
    ensures |ValueBindings(CellTerm(col, Some(v), autoLike).written).value| == 1
  {
    AutoLikeWidens(col, v, autoLike);
    if Widens(v, autoLike) {
      var pattern := SearchText(v) + "%";
      assert pattern[|pattern| - 1] == '%';
      TrimNotBlank(pattern);
      RulelessBindings(Value(StringData(pattern), v.rule));
    } else {
      RulelessBindings(v);
    }
  }

  /** Without a rule a value binds its text, unless that text is blank. */
  lemma RulelessBindings(v: Value)
    requires !HasRule(v)
    ensures ValueBindings(Some(v)) == Ok(if Trim(ValueText(v.data)) != "" then [ValueText(v.data)] else [])
  {
    if v.rule.Some? {
      assert !Contains("", "in") && !Contains("", "between");
    }
  }

  lemma RulelessTermCount(col: Column, v: Value, autoLike: bool)
    requires !IsAndMarker(col.name) && '?' !in col.name && !HasRule(v) && SearchText(v) != ""
    ensures CountChar(CellTerm(col, Some(v), autoLike).term, '?') == 1
  {
    RulelessOperator(col, v, autoLike);
    ComparisonCount(col.name, CellTerm(col, Some(v), autoLike).term);
  }

  /** A `like` or `=` comparison against one placeholder. */
  lemma ComparisonCount(name: string, term: string)
    requires '?' !in name
    requires term == name + " like" + " ?" || term == name + " =" + " ?"
    ensures CountChar(term, '?') == 1
  {
    var op := if term == name + " like" + " ?" then " like" else " =";
    CountCharAbsent(name, '?');
    CountCharAbsent(op, '?');
    CountCharAppend(name, op, '?');
    CountCharAppend(name + op, " ?", '?');
    assert " ?"[..1] == " ";
    CountCharAbsent(" ", '?');
  }

  /** A rule-less, non-blank cell has one placeholder and binds one text, widened or not. */
  lemma RulelessCellAlignment(col: Column, v: Value, autoLike: bool)
    requires !IsAndMarker(col.name) && '?' !in col.name && !HasRule(v) && SearchText(v) != ""
    ensures ValueBindings(CellTerm(col, Some(v), autoLike).written).Ok?
    ensures |ValueBindings(CellTerm(col, Some(v), autoLike).written).value| == CountChar(CellTerm(col, Some(v), autoLike).term, '?')
  {
    RulelessBindsOne(col, v, autoLike);
    RulelessTermCount(col, v, autoLike);
  }

  /** A blank cell has no placeholder: it binds nothing, or adds `is null` / `is not null`. */
  lemma BlankCellAlignment(col: Column, v: Value, autoLike: bool)
    requires !IsAndMarker(col.name) && '?' !in col.name && SearchText(v) == "" && BindableCell(Some(v))
    ensures ValueBindings(CellTerm(col, Some(v), autoLike).written).Ok?
    ensures |ValueBindings(CellTerm(col, Some(v), autoLike).written).value| == CountChar(CellTerm(col, Some(v), autoLike).term, '?')
  {
    BlankValueTerm(col, v, autoLike);
    BlankBindsNothing(v);
    BlankTermCount(col, v, autoLike);
  }

  lemma BlankBindsNothing(v: Value)
    requires SearchText(v) == "" && BindableCell(Some(v))
    ensures ValueBindings(Some(v)) == Ok([])
  {
    if v.rule.Some? && (Contains(v.rule.value, "in") || Contains(v.rule.value, "between")) {
      assert false;
    }
  }

  lemma BlankTermCount(col: Column, v: Value, autoLike: bool)
    requires !IsAndMarker(col.name) && '?' !in col.name && SearchText(v) == ""
    ensures CountChar(CellTerm(col, Some(v), autoLike).term, '?') == 0
  {
    BlankValueTerm(col, v, autoLike);
    NullTestCount(CellTerm(col, Some(v), autoLike).term, col.name);
  }

  /** A null test (or no term) carries no placeholder when the column name has none. */
  lemma NullTestCount(term: string, name: string)
    requires '?' !in name
    requires term == "" || term == name + " is not null" || term == name + " is null"
    ensures CountChar(term, '?') == 0
  {
    assert '?' !in " is not null" && '?' !in " is null";
    CountCharAbsent(term, '?');
  }

  /** One cell: the placeholders in its term are exactly the parameters its written-back value binds. */
  lemma CellAlignment(col: Column, cell: Option<Value>, autoLike: bool)
    requires !IsAndMarker(col.name) && '?' !in col.name
    requires cell.Some? && cell.value.rule.Some? ==> '?' !in cell.value.rule.value
    requires BindableCell(cell)
    ensures ValueBindings(CellTerm(col, cell, autoLike).written).Ok?
    ensures |ValueBindings(CellTerm(col, cell, autoLike).written).value| == CountChar(CellTerm(col, cell, autoLike).term, '?')
  {
    if cell.Some? {
      var v := cell.value;
      if SearchText(v) == "" {
        BlankCellAlignment(col, v, autoLike);
      } else if HasRule(v) {
        RuledCellAlignment(col, v, autoLike);
      } else {
        RulelessCellAlignment(col, v, autoLike);
      }
    }
  }

  lemma ConjoinCount(clause: string, term: string)
    ensures CountChar(Conjoin(clause, term), '?') == CountChar(clause, '?') + CountChar(term, '?')
  {
    CountCharAppend(clause, " and ", '?');
    CountCharAppend(clause + " and ", term, '?');
    CountCharAbsent(" and ", '?');
  }

  /** The cells bind exactly as many parameters as the text has placeholders. */
  predicate Aligned(cells: seq<Option<Value>>, text: string) {
    BoundTexts(cells).Ok? && |BoundTexts(cells).value| == CountChar(text, '?')
  }

  /** Appending one cell keeps the row's placeholder count equal to its binding count. */
  lemma RowStep(col: Column, cell: Option<Value>, autoLike: bool, prevInputs: seq<Option<Value>>, prevClause: string)
    requires CellReady(col, cell) && Aligned(prevInputs, prevClause)
    ensures Aligned(prevInputs + (if col.name == AND_FIELD_NAME then [] else [CellTerm(col, cell, autoLike).written]),
                    Conjoin(prevClause, CellTerm(col, cell, autoLike).term))
  {
    var c := CellTerm(col, cell, autoLike);
    ConjoinCount(prevClause, c.term);
    AndMarkerIsExact(col.name);
    if col.name == AND_FIELD_NAME {
      assert c.term == "";
      assert prevInputs + [] == prevInputs;
    } else {
      CellAlignment(col, cell, autoLike);
      BoundTextsAppend(prevInputs, [c.written]);
      assert [c.written][..0] == [];
    }
  }

  /** The number of parameters bound for the first `k` cells of a row (-1 when binding fails). */
  function RowBindCount(cols: seq<Column>, written: seq<Option<Value>>, k: nat): int
    requires k <= |written| <= |cols|
  {
    var b := BoundTexts(RowInputsUpTo(cols, written, k));
    if b.Ok? then |b.value| else -1
  }

  /** The number of placeholders in the clause of the first `k` cells of a row. */
  function RowMarkCount(cols: seq<Column>, values: seq<Option<Value>>, autoLike: bool, k: nat): int
    requires k <= |values| <= |cols|
  {
    CountChar(RowClauseUpTo(cols, values, autoLike, k), '?')
  }

  /** The first `k` cells of a row bind as many parameters as their clause has placeholders. */
  predicate RowAligned(cols: seq<Column>, values: seq<Option<Value>>, written: seq<Option<Value>>, autoLike: bool, k: nat)
    requires k <= |values| <= |cols| && |written| == |values|
  {
    RowBindCount(cols, written, k) == RowMarkCount(cols, values, autoLike, k)
  }

  lemma RowAlignmentStep(cols: seq<Column>, values: seq<Option<Value>>, written: seq<Option<Value>>, autoLike: bool, k: nat)
    requires 0 < k <= |values| <= |cols| && |written| == |values|
    requires written[k - 1] == CellTerm(cols[k - 1], values[k - 1], autoLike).written
    requires CellReady(cols[k - 1], values[k - 1])
    requires RowAligned(cols, values, written, autoLike, k - 1)
    ensures RowAligned(cols, values, written, autoLike, k)
  {
    RowStep(cols[k - 1], values[k - 1], autoLike, RowInputsUpTo(cols, written, k - 1), RowClauseUpTo(cols, values, autoLike, k - 1));
  }

  /** One row: the placeholders in its clause are the parameters bound for its written-back cells. */
  lemma {:induction false} RowAlignment(cols: seq<Column>, values: seq<Option<Value>>, written: seq<Option<Value>>, autoLike: bool, k: nat)
    requires k <= |values| <= |cols| && |written| == |values|
    requires forall i :: 0 <= i < |values| ==> written[i] == CellTerm(cols[i], values[i], autoLike).written
    requires forall i :: 0 <= i < |values| ==> CellReady(cols[i], values[i])
    ensures RowAligned(cols, values, written, autoLike, k)
  {
    if k > 0 {
      RowAlignment(cols, values, written, autoLike, k - 1);
      RowAlignmentStep(cols, values, written, autoLike, k);
    } else {
      assert BoundTexts([]) == Ok([]);
    }
  }

  lemma AttachCount(where: string, clause: string, and: bool)
    ensures CountChar(Attach(where, clause, and), '?') == CountChar(where, '?') + CountChar(clause, '?')
  {
    if clause != "" {
      var conn := if where == "" then "\r\nwhere " else if and then "\r\n  and " else "\r\n   or ";
      CountFive(where, conn, "(", clause, ")");
      CountCharAbsent(conn, '?');
      CountCharAbsent("(", '?');
      CountCharAbsent(")", '?');
    }
  }

  /** The cells of one template row are ready, and its written-back row is the builder's. */
  lemma RowOfTemplate(t: Table, autoLike: bool, r: nat)
    requires RowsFit(t) && TemplateReady(t) && r < |t.rows|
    ensures |t.rows[r].values| <= |t.columns|
    ensures var w := WrittenRows(t, autoLike)[r].values;
      |w| == |t.rows[r].values| &&
      forall i :: 0 <= i < |t.rows[r].values| ==> w[i] == CellTerm(t.columns[i], t.rows[r].values[i], autoLike).written
    ensures forall i :: 0 <= i < |t.rows[r].values| ==> CellReady(t.columns[i], t.rows[r].values[i])
  {
    assert t.rows[r] in t.rows;
  }

  /** A written-back row binds as many parameters as its template row's clause has placeholders. */
  predicate RowPairAligned(cols: seq<Column>, written: Row, template: Row, autoLike: bool) {
    |written.values| <= |cols| && |template.values| <= |cols| &&
    Aligned(RowInputs(cols, written), RowClause(cols, template, autoLike))
  }

  /** The template row's AND flag can be read, and the written-back row aligns with it. */
  predicate RowPairReady(cols: seq<Column>, written: Row, template: Row, autoLike: bool) {
    AndFlag(cols, template).Ok? && RowPairAligned(cols, written, template, autoLike)
  }

  /** The WHERE text of the first `k` template rows exists and has as many placeholders as the
      parameters bound for the first `k` rows of `w`. */
  predicate TableAligned(t: Table, w: Table, autoLike: bool, k: nat)
    requires RowsFit(w) && k <= |t.rows| && k <= |w.rows|
  {
    WhereUpTo(t, autoLike, k).Ok? && Aligned(InputsUpTo(w, k), WhereUpTo(t, autoLike, k).value)
  }

  /** One template row as written back binds as many parameters as its clause has placeholders. */
  lemma TemplateRowAligned(t: Table, autoLike: bool, r: nat)
    requires RowsFit(t) && TemplateReady(t) && r < |t.rows|
    ensures RowPairAligned(t.columns, WrittenRows(t, autoLike)[r], t.rows[r], autoLike)
  {
    var row := t.rows[r];
    var w := WrittenRows(t, autoLike)[r];
    RowOfTemplate(t, autoLike, r);
    RowAlignment(t.columns, row.values, w.values, autoLike, |row.values|);
  }

  lemma TemplateRowsAligned(t: Table, autoLike: bool)
    requires RowsFit(t) && TemplateReady(t)
    ensures forall r :: 0 <= r < |t.rows| ==> RowPairAligned(t.columns, WrittenRows(t, autoLike)[r], t.rows[r], autoLike)
  {
    forall r | 0 <= r < |t.rows|
      ensures RowPairAligned(t.columns, WrittenRows(t, autoLike)[r], t.rows[r], autoLike)
    {
      TemplateRowAligned(t, autoLike, r);
    }
  }

  /** Writing the auto-like patterns back keeps every row within the column list. */
  lemma WrittenRowsFit(t: Table, autoLike: bool)
    requires RowsFit(t)
    ensures RowsFit(t.(rows := WrittenRows(t, autoLike)))
  {
    var w := WrittenRows(t, autoLike);
    forall r | r in w ensures |r.values| <= |t.columns| {
      var i :| 0 <= i < |w| && w[i] == r;
      assert t.rows[i] in t.rows;
    }
  }

  lemma TableAlignmentStep(t: Table, w: Table, autoLike: bool, k: nat)
    requires RowsFit(t) && RowsFit(w) && w.columns == t.columns && 0 < k <= |t.rows| == |w.rows|
    requires AndFlag(t.columns, t.rows[k - 1]).Ok?
    requires RowPairAligned(t.columns, w.rows[k - 1], t.rows[k - 1], autoLike)
    requires TableAligned(t, w, autoLike, k - 1)
    ensures TableAligned(t, w, autoLike, k)
  {
    var row := t.rows[k - 1];
    var where := WhereUpTo(t, autoLike, k - 1).value;
    var a := AndFlag(t.columns, row).value;
    assert row in t.rows;
    TableStep(InputsUpTo(w, k - 1), where, RowInputs(w.columns, w.rows[k - 1]), RowClause(t.columns, row, autoLike), a);
    WhereStep(t, autoLike, k, where, a);
  }

  /** The first `k` rows of the template and of a table whose rows each align with the
      template's are aligned. */
  lemma {:induction false} TableAlignment(t: Table, w: Table, autoLike: bool, k: nat)
    requires RowsFit(t) && RowsFit(w) && w.columns == t.columns && |w.rows| == |t.rows|
    requires k <= |t.rows|
    requires forall r {:trigger RowPairReady(t.columns, w.rows[r], t.rows[r], autoLike)} ::
      0 <= r < |t.rows| ==> RowPairReady(t.columns, w.rows[r], t.rows[r], autoLike)
    ensures TableAligned(t, w, autoLike, k)
    decreases k
  {
    if k > 0 {
      TableAlignment(t, w, autoLike, k - 1);
      assert RowPairReady(t.columns, w.rows[k - 1], t.rows[k - 1], autoLike);
      TableAlignmentStep(t, w, autoLike, k);
    } else {
      TableAlignedEmpty(t, w, autoLike);
    }
  }

  lemma TableAlignedEmpty(t: Table, w: Table, autoLike: bool)
    requires RowsFit(w)
    ensures TableAligned(t, w, autoLike, 0)
  {
    assert BoundTexts([]) == Ok([]);
  }

  lemma TableStep(prevInputs: seq<Option<Value>>, where: string, rowInputs: seq<Option<Value>>, clause: string, and: bool)
    requires Aligned(prevInputs, where) && Aligned(rowInputs, clause)
    ensures Aligned(prevInputs + rowInputs, Attach(where, clause, and))
  {
    BoundTextsAppend(prevInputs, rowInputs);
    AttachCount(where, clause, and);
  }

  /** Why ready values must be trimmed: the builder counts the elements of the trimmed text while
      the binder splits the text as it stands. For an `in` value `"a, "` the WHERE term has one
      placeholder and the binder supplies two texts. */
  lemma UntrimmedInMismatch()
    ensures var c := CellTerm(Column("Name", STRING, INPUT), Some(Value(StringData("a, "), Some("in"))), false);
      CountChar(c.term, '?') == 1 && ValueBindings(c.written) == Ok(["a", " "])
  {
    var v := Value(StringData("a, "), Some("in"));
    TrimExample();
    SplitExamples();
    InTermCount("Name", 1);
    assert SearchText(v) == "a,";
  }

  lemma TrimExample()
    ensures Trim("a, ") == "a,"
  {
    assert SkipSpaces("a, ", 0) == 0;
    assert SkipSpacesBack("a, ", 0, 3) == 2;
  }

  lemma SplitExamples()
    ensures JavaSplit("a,", ',') == ["a"]
    ensures JavaSplit("a, ", ',') == ["a", " "]
  {
    assert SplitAll("", ',') == [""];
    assert ","[1..] == "";
    assert SplitAll(",", ',') == ["", ""];
    assert "a,"[1..] == ",";
    assert ['a'] + "" == "a";
    assert SplitAll("a,", ',') == ["a", ""];
    assert " "[1..] == "";
    assert [' '] + "" == " ";
    assert SplitAll(" ", ',') == [" "];
    assert ", "[1..] == " ";
    assert SplitAll(", ", ',') == ["", " "];
    assert "a, "[1..] == ", ";
    assert SplitAll("a, ", ',') == ["a", " "];
  }

  /** Binding alignment: for a template whose in/between values are bindable and whose names and
      rules carry no `?` of their own, the binder run on the table as the WHERE builder left it
      succeeds and binds exactly as many parameters as the WHERE text has placeholders. */
  lemma PlaceholdersMatchBindings(t: Table, autoLike: bool)
    requires RowsFit(t) && FlagsReadable(t) && TemplateReady(t)
    ensures PrepareWhereClause(t, autoLike).Ok?
    ensures Aligned(InputValues(PrepareWhereClause(t, autoLike).value.table), PrepareWhereClause(t, autoLike).value.sql)
  {
    var w := t.(rows := WrittenRows(t, autoLike));
    WrittenRowsFit(t, autoLike);
    TemplateRowsAligned(t, autoLike);
    assert forall r :: 0 <= r < |t.rows| ==> RowPairReady(t.columns, w.rows[r], t.rows[r], autoLike);
    TableAlignment(t, w, autoLike, |t.rows|);
  }
}
