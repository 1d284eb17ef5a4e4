/** The WHERE-clause builder: every search row of a template table becomes one
    parenthesised clause of `and`-joined terms, and the clauses are chained to the
    statement with `and` or `or` according to the row's AND marker. Values take part
    through their rule: `in`, `between`, `null`, `!null`, a literal operator, or none
    (equality, or `like` for wildcarded strings, optionally widened by auto-like). */
module WhereClause {
  import opened Text
  import opened Domain

  /** What one search cell adds to its row's clause ("" for nothing), and the cell as it
      stands in the table afterwards (auto-like writes the widened pattern back). */
  datatype Cell = Cell(term: string, written: Option<Value>)

  /** The AND marker column is recognised case-insensitively by the builder. */
  predicate IsAndMarker(name: string) {
    EqualsIgnoreCase(AND_FIELD_NAME, name)
  }

  /** A rule that is present and not empty. */
  predicate HasRule(v: Value) {
    v.rule.Some? && v.rule.value != ""
  }

  /** The trimmed text the builder inspects. */
  function SearchText(v: Value): string {
    Trim(ValueText(v.data))
  }

  /** Auto-like applies to a rule-less, non-blank string value that has no `%` yet. */
  predicate Widens(v: Value, autoLike: bool) {
    autoLike && !HasRule(v) && SearchText(v) != "" && v.data.StringData? && '%' !in SearchText(v)
  }

  /** The term of a non-null value in a column that is not the AND marker. */
  function ValueTerm(name: string, v: Value, autoLike: bool): Cell {
    var strValue := SearchText(v);
    if strValue != "" then
      if HasRule(v) then
        var rule := v.rule.value;
        if Contains(rule, "in") then
          Cell(name + " in(" + Placeholders(|JavaSplit(strValue, ',')|) + ")", Some(v))
        else if Contains(rule, "between") then
          Cell(name + " between " + "?" + " and " + "?", Some(v))
        else
          Cell(name + " " + rule + " " + "?", Some(v))
      else
        var widen := autoLike && v.data.StringData? && '%' !in strValue;
        var pattern := if widen then strValue + "%" else strValue;
        var op := if v.data.StringData? && ('%' in pattern || '_' in pattern) then " like" else " =";
        Cell(name + op + " " + "?", if widen then Some(v.(data := StringData(pattern))) else Some(v))
    else if v.rule.Some? && Contains(v.rule.value, "!null") then
      Cell(name + " is not null", Some(v))
    else if v.rule.Some? && Contains(v.rule.value, "null") then
      Cell(name + " is null", Some(v))
    else
      Cell("", Some(v))
  }

  /** The AND marker column and null values are skipped before anything else. */
  function CellTerm(col: Column, cell: Option<Value>, autoLike: bool): Cell {
    if IsAndMarker(col.name) || cell.None? then Cell("", cell) else ValueTerm(col.name, cell.value, autoLike)
  }

  /** A value's term names its column first; the value written back keeps its rule. */
  lemma ValueTermShape(name: string, v: Value, autoLike: bool)
    ensures var c := ValueTerm(name, v, autoLike);
      (c.term == "" || StartsWith(c.term, name + " ")) && c.written.Some? && c.written.value.rule == v.rule
  {
  }

  /** Only a non-null value in a column other than the AND marker contributes a term, and the
      term names the column. A cell stays null or non-null, and keeps its rule. */
  lemma CellTermShape(col: Column, cell: Option<Value>, autoLike: bool)
    ensures var c := CellTerm(col, cell, autoLike);
      && (c.term != "" ==> !IsAndMarker(col.name) && cell.Some? && StartsWith(c.term, col.name + " "))
      && (c.written.Some? <==> cell.Some?)
      && (cell.Some? ==> c.written.value.rule == cell.value.rule)
  {
    if !IsAndMarker(col.name) && cell.Some? {
      ValueTermShape(col.name, cell.value, autoLike);
    }
  }

  /** Appends a term to a row clause, joining with `and`; an empty term adds nothing. */
  function Conjoin(clause: string, term: string): string {
    if term == "" then clause else if clause == "" then term else clause + " and " + term
  }

  /** The clause built from the first `k` cells of a row. */
  function RowClauseUpTo(cols: seq<Column>, values: seq<Option<Value>>, autoLike: bool, k: nat): string
    requires k <= |values| <= |cols|
  {
    if k == 0 then ""
    else Conjoin(RowClauseUpTo(cols, values, autoLike, k - 1), CellTerm(cols[k - 1], values[k - 1], autoLike).term)
  }

  function RowClause(cols: seq<Column>, row: Row, autoLike: bool): string
    requires |row.values| <= |cols|
  {
    RowClauseUpTo(cols, row.values, autoLike, |row.values|)
  }

  /** The row as it stands after the builder has written widened patterns back. */
  function WrittenRow(cols: seq<Column>, row: Row, autoLike: bool): (r: Row)
    requires |row.values| <= |cols|
    ensures |r.values| == |row.values|
  {
    Row(seq(|row.values|, i requires 0 <= i < |row.values| => CellTerm(cols[i], row.values[i], autoLike).written))
  }

  /** The position of the first column named exactly like the AND marker. */
  function AndFieldIndex(cols: seq<Column>): (r: Option<nat>)
    ensures r.Some? ==> r.value < |cols| && cols[r.value].name == AND_FIELD_NAME
    ensures r.Some? ==> forall j :: 0 <= j < r.value ==> cols[j].name != AND_FIELD_NAME
    ensures r.None? ==> forall j :: 0 <= j < |cols| ==> cols[j].name != AND_FIELD_NAME
  {
    if |cols| == 0 then None
    else if cols[0].name == AND_FIELD_NAME then Some(0)
    else match AndFieldIndex(cols[1..])
      case None => None
      case Some(i) => Some(i + 1)
  }

  /** The row's AND flag: false without a marker column; otherwise the boolean in the marker
      cell, unboxing `null` (a missing or non-boolean payload) failing. */
  function AndFlag(cols: seq<Column>, row: Row): Result<bool> {
    match AndFieldIndex(cols)
    case None => Ok(false)
    case Some(i) =>
      if i >= |row.values| then Err(IndexOutOfBounds)
      else if row.values[i].Some? && row.values[i].value.data.BooleanData? then Ok(row.values[i].value.data.b)
      else Err(NullReference)
  }

  /** Adds a row clause to the WHERE text: the first contribution opens `where`, later ones
      are joined with `and` or `or`; an empty clause adds nothing. */
  function Attach(where: string, clause: string, and: bool): string {
    if clause == "" then where
    else where + (if where == "" then "\r\nwhere " else if and then "\r\n  and " else "\r\n   or ") + "(" + clause + ")"
  }

  /** The WHERE text after the first `k` rows. A row is read flag first; a row with more values
      than there are columns then fails when the builder asks for the missing column. */
  function WhereUpTo(t: Table, autoLike: bool, k: nat): Result<string>
    requires k <= |t.rows|
  {
    if k == 0 then Ok("")
    else
      var where :- WhereUpTo(t, autoLike, k - 1);
      var and :- AndFlag(t.columns, t.rows[k - 1]);
      if |t.rows[k - 1].values| > |t.columns| then Err(IndexOutOfBounds)
      else Ok(Attach(where, RowClause(t.columns, t.rows[k - 1], autoLike), and))
  }

  datatype Where = Where(sql: string, table: Table)

  predicate FlagsReadable(t: Table) {
    forall i :: 0 <= i < |t.rows| ==> AndFlag(t.columns, t.rows[i]).Ok?
  }

  function WrittenRows(t: Table, autoLike: bool): (r: seq<Row>)
    requires RowsFit(t)
    ensures |r| == |t.rows|
    ensures forall i :: 0 <= i < |r| ==> r[i] == WrittenRow(t.columns, t.rows[i], autoLike)
  {
    seq(|t.rows|, i requires 0 <= i < |t.rows| => WrittenRow(t.columns, t.rows[i], autoLike))
  }

  /** `prepareWhereClause`: the WHERE text and the template table with auto-like patterns written
      back. It fails exactly when some row's AND flag cannot be read or some row is longer than
      the column list. */
  function PrepareWhereClause(t: Table, autoLike: bool): (r: Result<Where>)
    ensures r.Ok? <==> RowsFit(t) && FlagsReadable(t)
    ensures r.Ok? ==> r.value.table == t.(rows := WrittenRows(t, autoLike))
    ensures r.Ok? ==> RowsFit(r.value.table) && (WellFormed(t) ==> WellFormed(r.value.table))
    ensures r.Ok? ==> r.value.sql == "" || StartsWith(r.value.sql, "\r\nwhere (")
  {
    WhereReadable(t, autoLike, |t.rows|);
    WhereOpening(t, autoLike, |t.rows|);
    AllRowsReadable(t);
    var sql :- WhereUpTo(t, autoLike, |t.rows|);
    Ok(Where(sql, t.(rows := WrittenRows(t, autoLike))))
  }

  /** The first `k` rows build without failing. */
  predicate WhereOk(t: Table, autoLike: bool, k: nat)
    requires k <= |t.rows|
  {
    WhereUpTo(t, autoLike, k).Ok?
  }

  /** Row `i` has a readable AND flag and fits the column list. */
  predicate RowReadable(t: Table, i: nat)
    requires i < |t.rows|
  {
    AndFlag(t.columns, t.rows[i]).Ok? && |t.rows[i].values| <= |t.columns|
  }

  /** The first `k` rows build exactly when each of them has a readable flag and fits the columns. */
  lemma {:induction false} WhereReadable(t: Table, autoLike: bool, k: nat)
    requires k <= |t.rows|
    ensures WhereOk(t, autoLike, k) <==> forall i :: 0 <= i < k ==> RowReadable(t, i)
    decreases k
  {
    if k > 0 {
      WhereReadable(t, autoLike, k - 1);
      WhereReadableStep(t, autoLike, k);
      ReadablePrefix(t, k);
    }
  }

  /** Every row is readable exactly when every row fits the columns and has a readable flag. */
  lemma AllRowsReadable(t: Table)
    ensures (forall i :: 0 <= i < |t.rows| ==> RowReadable(t, i)) <==> RowsFit(t) && FlagsReadable(t)
  {
    if forall i :: 0 <= i < |t.rows| ==> RowReadable(t, i) {
      forall r | r in t.rows
        ensures |r.values| <= |t.columns|
      {
        var i :| 0 <= i < |t.rows| && t.rows[i] == r;
        assert RowReadable(t, i);
      }
      forall i | 0 <= i < |t.rows|
        ensures AndFlag(t.columns, t.rows[i]).Ok?
      {
        assert RowReadable(t, i);
      }
    }
    if RowsFit(t) && FlagsReadable(t) {
      forall i | 0 <= i < |t.rows|
        ensures RowReadable(t, i)
      {
        assert t.rows[i] in t.rows;
      }
    }
  }

  lemma ReadablePrefix(t: Table, k: nat)
    requires 0 < k <= |t.rows|
    ensures (forall i :: 0 <= i < k ==> RowReadable(t, i)) <==>
      (forall i :: 0 <= i < k - 1 ==> RowReadable(t, i)) && RowReadable(t, k - 1)
  {
  }

  lemma WhereReadableStep(t: Table, autoLike: bool, k: nat)
    requires 0 < k <= |t.rows|
    ensures WhereOk(t, autoLike, k) <==> WhereOk(t, autoLike, k - 1) && RowReadable(t, k - 1)
  {
  }

  /** The WHERE text of the first `k` rows is empty or opens with `where (`. */
  predicate OpensWhere(t: Table, autoLike: bool, k: nat)
    requires k <= |t.rows|
  {
    WhereUpTo(t, autoLike, k).Ok? ==>
      WhereUpTo(t, autoLike, k).value == "" || StartsWith(WhereUpTo(t, autoLike, k).value, "\r\nwhere (")
  }

  lemma {:induction false} WhereOpening(t: Table, autoLike: bool, k: nat)
    requires k <= |t.rows|
    ensures WhereUpTo(t, autoLike, k).Ok? ==>
      WhereUpTo(t, autoLike, k).value == "" || StartsWith(WhereUpTo(t, autoLike, k).value, "\r\nwhere (")
    decreases k
  {
    if k > 0 {
      WhereOpening(t, autoLike, k - 1);
      OpeningStep(t, autoLike, k);
    }
  }

  lemma OpeningStep(t: Table, autoLike: bool, k: nat)
    requires 0 < k <= |t.rows| && OpensWhere(t, autoLike, k - 1)
    ensures OpensWhere(t, autoLike, k)
  {
    var w := WhereUpTo(t, autoLike, k - 1);
    if WhereUpTo(t, autoLike, k).Ok? {
      var row := t.rows[k - 1];
      assert w.Ok? && |row.values| <= |t.columns|;
      var a := AndFlag(t.columns, row).value;
      WhereStep(t, autoLike, k, w.value, a);
      AttachKeepsOpening(w.value, RowClause(t.columns, row, autoLike), a);
    }
  }

  /** Attaching a clause keeps a WHERE text that is empty or opens with `where (` in that shape. */
  lemma AttachKeepsOpening(where: string, clause: string, and: bool)
    requires where == "" || StartsWith(where, "\r\nwhere (")
    ensures Attach(where, clause, and) == "" || StartsWith(Attach(where, clause, and), "\r\nwhere (")
  {
    if clause != "" && where != "" {
      assert Attach(where, clause, and)[..|"\r\nwhere ("|] == where[..|"\r\nwhere ("|];
    }
  }

  // ---- What a cell contributes ----

  lemma {:induction false} NotNullRuleMentionsNull(s: string)
    requires Contains(s, "!null")
    ensures Contains(s, "null")
  {
    if StartsWith(s, "!null") {
      assert StartsWith(s[1..], "null");
    } else {
      NotNullRuleMentionsNull(s[1..]);
    }
  }

  /** A cell contributes a term exactly when it is not the AND marker, not null, and either
      has a non-blank value or a blank value whose rule asks for `null` or `!null`. */
  lemma CellContribution(col: Column, cell: Option<Value>, autoLike: bool)
    ensures CellTerm(col, cell, autoLike).term != "" <==>
      !IsAndMarker(col.name) && cell.Some? &&
      (SearchText(cell.value) != "" || (cell.value.rule.Some? && Contains(cell.value.rule.value, "null")))
  {
    if !IsAndMarker(col.name) && cell.Some? {
      var v := cell.value;
      var term := ValueTerm(col.name, v, autoLike).term;
      if SearchText(v) != "" {
        assert |term| > |col.name|;
      } else if v.rule.Some? && Contains(v.rule.value, "!null") {
        NotNullRuleMentionsNull(v.rule.value);
        assert |term| > |col.name|;
      } else if v.rule.Some? && Contains(v.rule.value, "null") {
        assert |term| > |col.name|;
      }
    }
  }

  // The next three lemmas spell out single branches of `ValueTerm` as proof helpers for the
  // per-cell alignment in the Binding module.

  /** A blank value takes part through its rule alone: `!null` is tested before `null`. */
  lemma BlankValueTerm(col: Column, v: Value, autoLike: bool)
    requires !IsAndMarker(col.name) && SearchText(v) == ""
    ensures v.rule.Some? && Contains(v.rule.value, "!null") ==>
      CellTerm(col, Some(v), autoLike).term == col.name + " is not null"
    ensures v.rule.Some? && !Contains(v.rule.value, "!null") && Contains(v.rule.value, "null") ==>
      CellTerm(col, Some(v), autoLike).term == col.name + " is null"
    ensures (v.rule.None? || (!Contains(v.rule.value, "!null") && !Contains(v.rule.value, "null"))) ==> CellTerm(col, Some(v), autoLike).term == ""
    ensures CellTerm(col, Some(v), autoLike).written == Some(v)
  {
  }

  /** Auto-like widens every rule-less non-blank string without `%`: the written value is the
      trimmed text plus `%`, and the term is therefore a `like`. Every other cell is written back
      unchanged. */
  lemma AutoLikeWidens(col: Column, v: Value, autoLike: bool)
    requires !IsAndMarker(col.name)
    ensures Widens(v, autoLike) ==>
      CellTerm(col, Some(v), autoLike).written == Some(Value(StringData(SearchText(v) + "%"), v.rule)) &&
      CellTerm(col, Some(v), autoLike).term == col.name + " like ?"
    ensures !Widens(v, autoLike) ==> CellTerm(col, Some(v), autoLike).written == Some(v)
  {
    if Widens(v, autoLike) {
      assert '%' in SearchText(v) + "%" by {
        assert (SearchText(v) + "%")[|SearchText(v)|] == '%';
      }
    }
  }

  /** Without a rule, a non-blank value is compared with `like` exactly when it is a string whose
      (possibly widened) text holds a `%` or `_` wildcard, and with `=` otherwise. */
  lemma RulelessOperator(col: Column, v: Value, autoLike: bool)
    requires !IsAndMarker(col.name) && !HasRule(v) && SearchText(v) != ""
    ensures var pattern := if Widens(v, autoLike) then SearchText(v) + "%" else SearchText(v);
      CellTerm(col, Some(v), autoLike).term ==
        col.name + (if v.data.StringData? && ('%' in pattern || '_' in pattern) then " like" else " =") + " ?"
  {
  }

  /** With a non-empty rule, a non-blank value selects its operator by rule: `in` gives one
      placeholder per comma-separated element, otherwise `between` gives exactly two, otherwise the
      rule text itself is the operator. */
  lemma RuleOperator(col: Column, v: Value, autoLike: bool)
    requires !IsAndMarker(col.name) && HasRule(v) && SearchText(v) != ""
    ensures Contains(v.rule.value, "in") ==>
      CellTerm(col, Some(v), autoLike).term == col.name + " in(" + Placeholders(|JavaSplit(SearchText(v), ',')|) + ")"
    ensures !Contains(v.rule.value, "in") && Contains(v.rule.value, "between") ==>
      CellTerm(col, Some(v), autoLike).term == col.name + " between ? and ?"
    ensures !Contains(v.rule.value, "in") && !Contains(v.rule.value, "between") ==>
      CellTerm(col, Some(v), autoLike).term == col.name + " " + v.rule.value + " ?"
    ensures CellTerm(col, Some(v), autoLike).written == Some(v)
  {
  }

  // ---- How rows are joined ----

  /** One contributing row: its clause and its AND flag. */
  datatype Contribution = Contribution(clause: string, and: bool)

  /** The rows among the first `k` whose clause is not empty, in order. */
  function Contributions(t: Table, autoLike: bool, k: nat): seq<Contribution>
    requires RowsFit(t) && FlagsReadable(t) && k <= |t.rows|
  {
    if k == 0 then []
    else
      var c := RowClause(t.columns, t.rows[k - 1], autoLike);
      Contributions(t, autoLike, k - 1) +
        (if c == "" then [] else [Contribution(c, AndFlag(t.columns, t.rows[k - 1]).value)])
  }

  /** The connector in front of the `i`-th contribution. */
  function Connector(i: nat, and: bool): string {
    if i == 0 then "\r\nwhere " else if and then "\r\n  and " else "\r\n   or "
  }

  /** The WHERE text as a closed form: each contributing row's parenthesised clause behind its
      connector, the first one opening `where`. */
  function RenderWhere(cs: seq<Contribution>): string {
    if |cs| == 0 then ""
    else RenderWhere(cs[..|cs| - 1]) + Connector(|cs| - 1, cs[|cs| - 1].and) + "(" + cs[|cs| - 1].clause + ")"
  }

  /** The builder's WHERE text is exactly the closed form over the contributing rows: rows with an
      empty clause add nothing, the first contribution opens `where`, later ones follow with `and`
      when their flag is set and `or` otherwise, each clause parenthesised. */
  lemma WhereIsRenderedContributions(t: Table, autoLike: bool, k: nat)
    requires RowsFit(t) && FlagsReadable(t) && k <= |t.rows|
    ensures WhereUpTo(t, autoLike, k) == Ok(RenderWhere(Contributions(t, autoLike, k)))
  {
    RenderedUpTo(t, autoLike, k);
  }

  /** The first `k` rows build the closed form over their contributions. */
  predicate Rendered(t: Table, autoLike: bool, k: nat)
    requires RowsFit(t) && FlagsReadable(t) && k <= |t.rows|
  {
    WhereUpTo(t, autoLike, k) == Ok(RenderWhere(Contributions(t, autoLike, k)))
  }

  lemma {:induction false} RenderedUpTo(t: Table, autoLike: bool, k: nat)
    requires RowsFit(t) && FlagsReadable(t) && k <= |t.rows|
    ensures Rendered(t, autoLike, k)
    decreases k
  {
    if k > 0 {
      RenderedUpTo(t, autoLike, k - 1);
      RenderedStep(t, autoLike, k);
    }
  }

  lemma RenderedStep(t: Table, autoLike: bool, k: nat)
    requires RowsFit(t) && FlagsReadable(t) && 0 < k <= |t.rows|
    requires Rendered(t, autoLike, k - 1)
    ensures Rendered(t, autoLike, k)
  {
    var prev := Contributions(t, autoLike, k - 1);
    var flag := AndFlag(t.columns, t.rows[k - 1]);
    assert flag.Ok? && t.rows[k - 1] in t.rows;
    WhereStep(t, autoLike, k, RenderWhere(prev), flag.value);
    ContributionsStep(t, autoLike, k);
    AttachRendered(prev, RowClause(t.columns, t.rows[k - 1], autoLike), flag.value);
  }

  lemma ContributionsStep(t: Table, autoLike: bool, k: nat)
    requires RowsFit(t) && FlagsReadable(t) && 0 < k <= |t.rows|
    ensures var c := RowClause(t.columns, t.rows[k - 1], autoLike);
      Contributions(t, autoLike, k) ==
        Contributions(t, autoLike, k - 1) + (if c == "" then [] else [Contribution(c, AndFlag(t.columns, t.rows[k - 1]).value)])
  {
  }

  /** Attaching a clause to the rendered text renders the contributions with that clause added. */
  lemma AttachRendered(prev: seq<Contribution>, c: string, a: bool)
    ensures Attach(RenderWhere(prev), c, a) == RenderWhere(prev + (if c == "" then [] else [Contribution(c, a)]))
  {
    if c == "" {
      assert prev + [] == prev;
    } else {
      RenderWhereAppend(prev, Contribution(c, a));
      RenderWhereEmpty(prev);
    }
  }

  lemma WhereStep(t: Table, autoLike: bool, k: nat, w: string, a: bool)
    requires 0 < k <= |t.rows| && |t.rows[k - 1].values| <= |t.columns|
    requires WhereUpTo(t, autoLike, k - 1) == Ok(w) && AndFlag(t.columns, t.rows[k - 1]) == Ok(a)
    ensures WhereUpTo(t, autoLike, k) == Ok(Attach(w, RowClause(t.columns, t.rows[k - 1], autoLike), a))
  {
  }

  lemma RenderWhereAppend(prev: seq<Contribution>, x: Contribution)
    ensures RenderWhere(prev + [x]) == RenderWhere(prev) + Connector(|prev|, x.and) + "(" + x.clause + ")"
  {
    assert (prev + [x])[..|prev|] == prev;
  }

  lemma RenderWhereEmpty(cs: seq<Contribution>)
    ensures RenderWhere(cs) == "" <==> |cs| == 0
  {
  }
}
