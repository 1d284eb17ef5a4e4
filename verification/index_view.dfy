/** The index request of the view controller: the privilege search that decides whether the
    caller may read the view at all, column security, paging, and the two statements it runs (a
    row count and the requested page) with the texts bound to each. The database answers (the
    privilege rows and the column grants) are parameters. */
module IndexView {
  import opened Text
  import opened Domain
  import opened WhereClause
  import opened Binding
  import opened Paging
  import opened ViewStatement
  import opened ColumnSecurity

  // ---- The privilege search ----

  const PRIVILEGE_VIEW: string := "xvcasUserPrivileges"

  /** The columns of the privilege search: privilege, token, row-level-security flag and the AND marker. */
  function PrivilegeColumns(): seq<Column> {
    [Column("PrivilegeKeyText", STRING, INPUT), Column("KeyText", STRING, INPUT),
     Column("RowLevelSecurity", BOOLEAN, INPUT), Column(AND_FIELD_NAME, BOOLEAN, INPUT)]
  }

  /** One search row: this privilege under this token, any flag, joined to the others with OR. */
  function PrivilegeRow(privilege: string, token: string): Row {
    Row([Some(Value(StringData(privilege), None)), Some(Value(StringData(token), None)),
         Some(Value(StringData(""), None)), Some(Value(BooleanData(false), None))])
  }

  /** `getPrivilegePermissions`: the search template with one row per caller token. */
  function PrivilegeSearch(privilege: string, tokens: seq<string>): (r: Table)
    ensures WellFormed(r) && |r.rows| == |tokens|
    ensures r.columns == PrivilegeColumns()
    ensures forall i :: 0 <= i < |tokens| ==> r.rows[i] == PrivilegeRow(privilege, tokens[i])
  {
    Table(PRIVILEGE_VIEW, PrivilegeColumns(),
          seq(|tokens|, i requires 0 <= i < |tokens| => PrivilegeRow(privilege, tokens[i])), None)
  }

  /** The authorities `getTableForSecurityCheck` passes: a single grant without row-level security. */
  const SECURITY_CHECK_GRANTS: seq<Grant> := [Grant("", "", false)]

  /** `getTableForSecurityCheck`: at most 1000 rows, no auto-like, no row-level security. A failure
      is rethrown wrapped in a runtime exception. */
  function SecurityCheckStatement(t: Table, callerTokens: seq<string>): (r: Result<Statement>)
    ensures r.Err? <==> PrepareViewString(t, false, 1000, false, SECURITY_CHECK_GRANTS, callerTokens).Err?
    ensures r.Err? ==> r.error == Rethrown(PrepareViewString(t, false, 1000, false, SECURITY_CHECK_GRANTS, callerTokens).error)
    ensures BlankName(t.name) ==> r == Err(Rethrown(IllegalArgument(NULL_NAME_MESSAGE)))
  {
    match PrepareViewString(t, false, 1000, false, SECURITY_CHECK_GRANTS, callerTokens)
    case Ok(s) => Ok(s)
    case Err(e) => Err(Rethrown(e))
  }

  /** The security check never filters by row: its statement is the opening, the view name and
      the WHERE part, whoever the caller is. */
  lemma SecurityCheckUnfiltered(t: Table, callerTokens: seq<string>)
    requires SecurityCheckStatement(t, callerTokens).Ok?
    ensures SecurityCheckStatement(t, callerTokens).value.sql
         == SelectHead(t.columns, 1000, false) + t.name + WherePart(t, false).value.sql
    ensures SecurityCheckStatement(t, callerTokens) == SecurityCheckStatement(t, [])
  {
    assert SECURITY_CHECK_GRANTS[0] in SECURITY_CHECK_GRANTS;
    assert RowLevelSecurity(Trim(WherePart(t, false).value.sql) != "", SECURITY_CHECK_GRANTS, callerTokens) == "";
    assert RowLevelSecurity(Trim(WherePart(t, false).value.sql) != "", SECURITY_CHECK_GRANTS, []) == "";
    assert WherePart(t, false).value.sql + "" == WherePart(t, false).value.sql;
  }

  lemma PrivilegeFlags(privilege: string, tokens: seq<string>)
    ensures FlagsReadable(PrivilegeSearch(privilege, tokens))
  {
    var t := PrivilegeSearch(privilege, tokens);
    var cols := PrivilegeColumns();
    assert AndFieldIndex(cols) == Some(3) by {
      assert cols[3].name == AND_FIELD_NAME;
      assert cols[0].name != AND_FIELD_NAME && cols[1].name != AND_FIELD_NAME && cols[2].name != AND_FIELD_NAME;
    }
    forall i | 0 <= i < |t.rows|
      ensures AndFlag(t.columns, t.rows[i]).Ok?
    {
      assert t.rows[i] == PrivilegeRow(privilege, tokens[i]);
    }
  }

  lemma PrivilegeNamesMarkFree()
    ensures forall c :: c in PrivilegeColumns() ==> '?' !in c.name
  {
    var cols := PrivilegeColumns();
    assert '?' !in "PrivilegeKeyText" && '?' !in "KeyText" && '?' !in "RowLevelSecurity" && '?' !in AND_FIELD_NAME;
    forall c | c in cols
      ensures '?' !in c.name
    {
      var k :| 0 <= k < 4 && cols[k] == c;
    }
  }

  lemma PrivilegeCellsReady(privilege: string, tokens: seq<string>)
    ensures TemplateReady(PrivilegeSearch(privilege, tokens))
  {
    var t := PrivilegeSearch(privilege, tokens);
    PrivilegeNamesMarkFree();
    forall r, i | 0 <= r < |t.rows| && 0 <= i < |t.rows[r].values| && i < |t.columns|
      ensures CellReady(t.columns[i], t.rows[r].values[i])
    {
      assert t.columns[i] in PrivilegeColumns();
      assert t.rows[r] == PrivilegeRow(privilege, tokens[r]);
    }
  }

  lemma PrivilegeSearchReady(privilege: string, tokens: seq<string>)
    ensures var t := PrivilegeSearch(privilege, tokens);
      RowsFit(t) && FlagsReadable(t) && TemplateReady(t) && MarkFree(t, []) && !BlankName(t.name)
  {
    PrivilegeFlags(privilege, tokens);
    PrivilegeCellsReady(privilege, tokens);
    PrivilegeNamesMarkFree();
    assert '?' !in PRIVILEGE_VIEW;
    TrimNotBlank(PRIVILEGE_VIEW);
  }

  /** The privilege search asks as many questions as it binds texts, whatever the privilege name
      and the tokens: both reach the statement only as bound values. */
  lemma PrivilegeSearchAligned(privilege: string, tokens: seq<string>, callerTokens: seq<string>)
    ensures var s := SecurityCheckStatement(PrivilegeSearch(privilege, tokens), callerTokens);
      s.Ok? && RowsFit(s.value.table) && Aligned(InputValues(s.value.table), s.value.sql)
  {
    var t := PrivilegeSearch(privilege, tokens);
    PrivilegeSearchReady(privilege, tokens);
    ViewStringAligned(t, false, 1000, false, SECURITY_CHECK_GRANTS, []);
    SecurityCheckUnfiltered(t, callerTokens);
  }

  // ---- Nothing is written back without auto-like ----

  lemma CellKeptWithoutAutoLike(col: Column, cell: Option<Value>)
    ensures CellTerm(col, cell, false).written == cell
  {
  }

  lemma RowKeptWithoutAutoLike(cols: seq<Column>, row: Row)
    requires |row.values| <= |cols|
    ensures WrittenRow(cols, row, false) == row
  {
    var w := WrittenRow(cols, row, false);
    forall i | 0 <= i < |row.values|
      ensures w.values[i] == row.values[i]
    {
      CellKeptWithoutAutoLike(cols[i], row.values[i]);
    }
  }

  /** Without auto-like the WHERE builder leaves the template as it was. */
  lemma WherePartKeepsTable(t: Table)
    requires WherePart(t, false).Ok?
    ensures WherePart(t, false).value.table == t
  {
    if |t.columns| > 0 && |t.rows| > 0 {
      var rows := WrittenRows(t, false);
      forall i | 0 <= i < |rows|
        ensures rows[i] == t.rows[i]
      {
        RowKeptWithoutAutoLike(t.columns, t.rows[i]);
      }
      assert rows == t.rows;
    }
  }

  // ---- Failure kinds ----

  /** A failure the controller reports inside its answer rather than raising. */
  predicate Reported(e: Error) {
    !e.PermissionDenied?
  }

  predicate WhereFailureReported(t: Table, autoLike: bool, k: nat)
    requires k <= |t.rows|
  {
    WhereUpTo(t, autoLike, k).Err? ==> Reported(WhereUpTo(t, autoLike, k).error)
  }

  lemma {:induction false} WhereFailures(t: Table, autoLike: bool, k: nat)
    requires k <= |t.rows|
    ensures WhereFailureReported(t, autoLike, k)
    decreases k
  {
    if k > 0 {
      WhereFailures(t, autoLike, k - 1);
      WhereFailureStep(t, autoLike, k);
    }
  }

  lemma WhereFailureStep(t: Table, autoLike: bool, k: nat)
    requires 0 < k <= |t.rows| && WhereFailureReported(t, autoLike, k - 1)
    ensures WhereFailureReported(t, autoLike, k)
  {
  }

  predicate BindFailureReported(cells: seq<Option<Value>>) {
    BoundTexts(cells).Err? ==> Reported(BoundTexts(cells).error)
  }

  lemma {:induction false} BindFailures(cells: seq<Option<Value>>)
    ensures BindFailureReported(cells)
    decreases |cells|
  {
    if |cells| > 0 {
      BindFailures(cells[..|cells| - 1]);
      BindFailureStep(cells);
    }
  }

  lemma BindFailureStep(cells: seq<Option<Value>>)
    requires |cells| > 0 && BindFailureReported(cells[..|cells| - 1])
    ensures BindFailureReported(cells)
  {
  }

  // ---- getIndexView ----

  /** What an index request runs: the validated page request, the count statement and the page
      statement, each with the texts bound to its placeholders. */
  datatype IndexPlan = IndexPlan(request: PageRequest, count: Statement, countParameters: seq<string>,
                                 page: Statement, pageParameters: seq<string>)

  /** `getIndexView`. `grants` are the privilege rows the privilege search found for the caller's
      tokens and this view; `lookup` answers the column-security search. A caller without any
      privilege row is refused outright; every later failure is reported. */
  function IndexView(t: Table, grants: seq<Grant>, callerTokens: seq<string>, lookup: ColumnLookup): (r: Result<IndexPlan>)
    ensures |grants| == 0 ==> r == Err(PermissionDenied(t.name))
    ensures r.Ok? ==> r.value.request.page >= 1 && r.value.request.limit >= 0
  {
    if |grants| == 0 then Err(PermissionDenied(t.name))
    else
      var secured :- SecureColumns(t, grants, lookup);
      Plan(secured, grants, callerTokens)
  }

  /** The part of `getIndexView` after column security: paging, the count statement and the page
      statement, each bound. */
  function Plan(secured: Table, grants: seq<Grant>, callerTokens: seq<string>): (r: Result<IndexPlan>)
    ensures r.Ok? ==> r.value.request.page >= 1 && r.value.request.limit >= 0
  {
    var request :- PageAndLimit(secured.metaData, CONTROLLER_MESSAGES);
    var count :- PrepareViewString(secured, false, 1, true, grants, callerTokens);
    var countParameters :- ViewParameters(count.table);
    var page :- PagingWithSeek(count.table, false, request.limit, request.page, grants, callerTokens);
    var pageParameters :- ViewParameters(page.table);
    Ok(IndexPlan(request, count, countParameters, page, pageParameters))
  }

  lemma SecureColumnsReported(t: Table, grants: seq<Grant>, lookup: ColumnLookup)
    ensures SecureColumns(t, grants, lookup).Err? ==> Reported(SecureColumns(t, grants, lookup).error)
  {
  }

  lemma WherePartReported(t: Table)
    ensures WherePart(t, false).Err? ==> Reported(WherePart(t, false).error)
  {
    WhereFailures(t, false, |t.rows|);
  }

  lemma ViewParametersReported(t: Table)
    ensures ViewParameters(t).Err? ==> Reported(ViewParameters(t).error)
  {
    if RowsFit(t) {
      BindFailures(InputValues(t));
    }
  }

  /** The request is refused for lack of permission exactly when the caller holds no privilege
      row for the view; any other failure is one the controller reports in its answer. */
  lemma IndexViewRefusal(t: Table, grants: seq<Grant>, callerTokens: seq<string>, lookup: ColumnLookup)
    ensures IndexView(t, grants, callerTokens, lookup) == Err(PermissionDenied(t.name)) <==> |grants| == 0
    ensures IndexView(t, grants, callerTokens, lookup).Err? && |grants| > 0 ==>
      Reported(IndexView(t, grants, callerTokens, lookup).error)
  {
    if |grants| > 0 {
      SecureColumnsReported(t, grants, lookup);
      var s := SecureColumns(t, grants, lookup);
      if s.Ok? {
        PlanReported(s.value, grants, callerTokens);
      }
    }
  }

  lemma PlanReported(secured: Table, grants: seq<Grant>, callerTokens: seq<string>)
    ensures Plan(secured, grants, callerTokens).Err? ==> Reported(Plan(secured, grants, callerTokens).error)
  {
    var request := PageAndLimit(secured.metaData, CONTROLLER_MESSAGES);
    WherePartReported(secured);
    var c := PrepareViewString(secured, false, 1, true, grants, callerTokens);
    if request.Ok? && c.Ok? {
      ViewParametersReported(c.value.table);
      WherePartReported(c.value.table);
      var p := PagingWithSeek(c.value.table, false, request.value.limit, request.value.page, grants, callerTokens);
      if p.Ok? {
        ViewParametersReported(p.value.table);
      }
    }
  }

  /** A successful request counts with `select count(1)` over the secured view, pages with the seek
      statement bounded by the validated page and limit, and binds the same texts to both, since
      nothing is written back into the template without auto-like. */
  lemma IndexViewStatements(t: Table, grants: seq<Grant>, callerTokens: seq<string>, lookup: ColumnLookup)
    requires IndexView(t, grants, callerTokens, lookup).Ok?
    ensures var plan := IndexView(t, grants, callerTokens, lookup).value;
      var secured := SecureColumns(t, grants, lookup).value;
      && PageAndLimit(secured.metaData, CONTROLLER_MESSAGES) == Ok(plan.request)
      && StartsWith(plan.count.sql, "select count(1) from " + secured.name)
      && StartsWith(plan.page.sql, SeekHead(secured))
      && EndsWith(plan.page.sql, SUBQUERY_END + SeekBounds(plan.request.page, plan.request.limit))
      && plan.count.table == secured && plan.page.table == secured
      && ViewParameters(secured) == Ok(plan.countParameters)
      && plan.countParameters == plan.pageParameters
  {
    var secured := SecureColumns(t, grants, lookup).value;
    WherePartKeepsTable(secured);
  }

  /** The page statement projects only columns the caller may see: the requested ones when the
      view is unrestricted, granted ones otherwise. */
  lemma IndexViewColumnsGranted(t: Table, grants: seq<Grant>, callerTokens: seq<string>, lookup: ColumnLookup)
    requires IndexView(t, grants, callerTokens, lookup).Ok?
    ensures var cols := IndexView(t, grants, callerTokens, lookup).value.page.table.columns;
      && (ViewAccess(t.name, grants, lookup).Unrestricted? ==> cols == t.columns)
      && (ViewAccess(t.name, grants, lookup).Restricted? ==>
            |cols| > 0 && forall c :: c in cols ==> GrantedByAny(t.name, grants, lookup, c.name))
  {
    SecureColumnsRestricts(t, grants, lookup);
    IndexViewStatements(t, grants, callerTokens, lookup);
  }
}
