/** The view service: page and limit validation, the in-memory page slice of `executeView`, and
    the service's own seek-paginated statement. Column security, the statement builder and the
    database stand behind parameters, as do the WHERE and row-level-security builders the
    statement delegates to. */
module ViewService {
  import opened Text
  import opened Domain
  import opened Paging
  import opened ViewStatement

  // ---- Page slicing ----

  /** The items at indices `(page-1)*limit` up to `page*limit - 1` that exist, in order. */
  function PageSlice<T>(xs: seq<T>, page: int, limit: int): (r: seq<T>)
    requires page >= 1 && limit > 0
    ensures |r| == Min(limit, Max(0, |xs| - (page - 1) * limit))
    ensures forall k :: 0 <= k < |r| ==> r[k] == xs[(page - 1) * limit + k]
  {
    PageStartNonNegative(page, limit);
    Range(xs, (page - 1) * limit, limit)
  }

  /** The items at indices `lo` up to `lo + limit - 1` that exist, in order. */
  function Range<T>(xs: seq<T>, lo: int, limit: int): (r: seq<T>)
    requires lo >= 0 && limit > 0
    ensures |r| == Min(limit, Max(0, |xs| - lo))
    ensures forall k :: 0 <= k < |r| ==> r[k] == xs[lo + k]
  {
    xs[Min(lo, |xs|)..Min(lo + limit, |xs|)]
  }

  lemma PageStartNonNegative(page: int, limit: int)
    requires page >= 1 && limit > 0
    ensures (page - 1) * limit >= 0
  {
  }

  /** The slicing loop of `executeView`: for each of the `limit` slots, the row at
      `slot + limit*(page-1)` when it exists. */
  method SliceRows<T>(xs: seq<T>, page: int, limit: int) returns (r: seq<T>)
    requires page >= 1 && limit > 0
    ensures r == PageSlice(xs, page, limit)
  {
    var lo := limit * (page - 1);
    r := [];
    var i := 0;
    while i < limit
      invariant 0 <= i <= limit
      invariant r == xs[Min(lo, |xs|)..Min(lo + i, |xs|)]
    {
      var pointer := i + lo;
      if pointer < |xs| {
        r := r + [xs[pointer]];
      }
      i := i + 1;
    }
  }

  /** The slice is exactly the rows whose 1-based position lies in the page's window. */
  lemma SliceIsWindow<T>(xs: seq<T>, page: int, limit: int)
    requires page >= 1 && limit > 0
    ensures PageSlice(xs, page, limit) == WindowItems(xs, page, limit)
  {
    WindowIsRange(xs, page, limit, (page - 1) * limit);
  }

  /** The window of a page over the first items is a range, with its lower bound `lo` named so
      that the reasoning about it is linear. */
  ghost predicate WindowRange<T>(xs: seq<T>, page: int, limit: int, lo: int)
    requires lo >= 0 && limit > 0
  {
    WindowItems(xs, page, limit) == xs[Min(lo, |xs|)..Min(lo + limit, |xs|)]
  }

  lemma {:induction false} WindowIsRange<T>(xs: seq<T>, page: int, limit: int, lo: int)
    requires page >= 1 && limit > 0 && lo >= 0 && lo == (page - 1) * limit
    ensures WindowRange(xs, page, limit, lo)
    decreases |xs|
  {
    if |xs| > 0 {
      WindowIsRange(xs[..|xs| - 1], page, limit, lo);
      WindowRangeStep(xs, page, limit, lo);
    }
  }

  lemma WindowRangeStep<T>(xs: seq<T>, page: int, limit: int, lo: int)
    requires |xs| > 0 && page >= 1 && limit > 0 && lo >= 0 && lo == (page - 1) * limit
    requires WindowRange(xs[..|xs| - 1], page, limit, lo)
    ensures WindowRange(xs, page, limit, lo)
  {
    InWindowBounds(|xs|, page, limit, lo);
    RangeSnoc(xs, lo, limit);
  }

  /** Extending the items by one extends their range `lo < pos <= lo + limit` by the new item
      exactly when its position lies in the range. */
  lemma RangeSnoc<T>(xs: seq<T>, lo: int, limit: int)
    requires |xs| > 0 && lo >= 0 && limit > 0
    ensures var n := |xs|;
      xs[Min(lo, n)..Min(lo + limit, n)] ==
        xs[..n - 1][Min(lo, n - 1)..Min(lo + limit, n - 1)] + (if lo < n <= lo + limit then [xs[n - 1]] else [])
  {
    var n := |xs|;
    var prev := xs[..n - 1];
    if lo < n <= lo + limit {
      assert xs[lo..n] == prev[lo..n - 1] + [xs[n - 1]];
    } else if n > lo + limit {
      assert xs[lo..lo + limit] == prev[lo..lo + limit];
    }
  }

  lemma InWindowBounds(pos: int, page: int, limit: int, lo: int)
    requires lo == (page - 1) * limit
    ensures InWindow(pos, page, limit) <==> lo < pos <= lo + limit
  {
    assert page * limit == (page - 1) * limit + limit;
  }

  /** Pages 1 through `m`, one after the other. */
  function PagesUpTo<T>(xs: seq<T>, limit: int, m: nat): seq<T>
    requires limit > 0
  {
    if m == 0 then [] else PagesUpTo(xs, limit, m - 1) + PageSlice(xs, m, limit)
  }

  /** Reading the pages in order neither skips nor repeats a row: the first `m` pages are the
      first `m*limit` rows. */
  lemma {:induction false} PagesTileRows<T>(xs: seq<T>, limit: int, m: nat)
    requires limit > 0
    ensures PagesUpTo(xs, limit, m) == xs[..Min(m * limit, |xs|)]
    decreases m
  {
    if m > 0 {
      PagesTileRows(xs, limit, m - 1);
      PagesTileStep(xs, limit, m, (m - 1) * limit);
    }
  }

  /** Page `m` continues where page `m - 1` ends, with that end `lo` named so that the reasoning
      about it is linear. */
  lemma PagesTileStep<T>(xs: seq<T>, limit: int, m: nat, lo: int)
    requires limit > 0 && m > 0 && lo == (m - 1) * limit
    requires PagesUpTo(xs, limit, m - 1) == xs[..Min(lo, |xs|)]
    ensures PagesUpTo(xs, limit, m) == xs[..Min(m * limit, |xs|)]
  {
    assert m * limit == lo + limit;
    PageStartNonNegative(m, limit);
    SliceAfterPrefix(xs, lo, limit);
  }

  /** The items up to `lo` followed by the range from `lo` are the items up to `lo + limit`. */
  lemma SliceAfterPrefix<T>(xs: seq<T>, lo: int, limit: int)
    requires lo >= 0 && limit > 0
    ensures xs[..Min(lo, |xs|)] + Range(xs, lo, limit) == xs[..Min(lo + limit, |xs|)]
  {
  }

  // ---- executeView ----

  /** The answer of `executeView`: the returned rows and the meta data it fills in. */
  datatype ViewPage = ViewPage(rows: seq<Row>, limit: int, totalResults: int, page: int)

  /** `executeView`. `secured` is what column security made of the request; `fetch` builds,
      binds and runs the statement for the secured template and returns the converted rows.
      The page and the limit are checked before anything is fetched; the total counts the rows
      before slicing; a positive limit keeps one page of them. Whatever fails on the way reaches
      the caller wrapped in a `TableException`. */
  function ExecuteView(secured: Result<Table>, fetch: Table -> Result<seq<Row>>): (r: Result<ViewPage>)
    ensures secured.Err? ==> r == Err(TableException(secured.error))
    ensures r.Err? ==> r.error.TableException?
    ensures r.Ok? ==> r.value.page >= 1 && r.value.limit >= 0
    ensures r.Ok? ==> fetch(secured.value).Ok? && r.value.totalResults == |fetch(secured.value).value|
    ensures r.Ok? ==> |r.value.rows| <= r.value.totalResults
    ensures r.Ok? && r.value.limit > 0 ==> |r.value.rows| <= r.value.limit
  {
    match ViewAnswer(secured, fetch)
    case Ok(v) => Ok(v)
    case Err(e) => Err(TableException(e))
  }

  /** The body of the `try` block of `executeView`. */
  function ViewAnswer(secured: Result<Table>, fetch: Table -> Result<seq<Row>>): Result<ViewPage> {
    var t :- secured;
    var req :- PageAndLimit(t.metaData, SERVICE_MESSAGES);
    var rows :- fetch(t);
    Ok(ViewPage(if req.limit > 0 then PageSlice(rows, req.page, req.limit) else rows, req.limit, |rows|, req.page))
  }

  /** The returned rows are the fetched rows on the requested page, or all of them without a
      limit, and the page and limit are those the request asked for. */
  lemma ExecuteViewPages(secured: Result<Table>, fetch: Table -> Result<seq<Row>>)
    requires ExecuteView(secured, fetch).Ok?
    ensures var v := ExecuteView(secured, fetch).value;
      var fetched := fetch(secured.value).value;
      && PageAndLimit(secured.value.metaData, SERVICE_MESSAGES) == Ok(PageRequest(v.page, v.limit))
      && (v.limit == 0 ==> v.rows == fetched)
      && (v.limit > 0 ==> v.rows == WindowItems(fetched, v.page, v.limit))
      && (v.limit > 0 ==> |v.rows| == Min(v.limit, Max(0, v.totalResults - (v.page - 1) * v.limit)))
  {
    var v := ExecuteView(secured, fetch).value;
    if v.limit > 0 {
      SliceIsWindow(fetch(secured.value).value, v.page, v.limit);
    }
  }

  /** An invalid page or limit is refused before the statement is built or run: the answer is
      the same whatever the database would return. */
  lemma ExecuteViewValidatesFirst(t: Table, fetch: Table -> Result<seq<Row>>, other: Table -> Result<seq<Row>>)
    requires PageAndLimit(t.metaData, SERVICE_MESSAGES).Err?
    ensures ExecuteView(Ok(t), fetch) == ExecuteView(Ok(t), other)
    ensures ExecuteView(Ok(t), fetch).Err?
    ensures t.metaData.Some? && t.metaData.value.page.Some? && t.metaData.value.page.value <= 0 ==>
      ExecuteView(Ok(t), fetch) == Err(TableException(IllegalArgument("msg.PageError")))
    ensures ExecuteView(Ok(t), fetch) == Err(TableException(PageAndLimit(t.metaData, SERVICE_MESSAGES).error))
  {
  }

  // ---- pagingWithSeek of the service ----

  const VIEW_NULL_NAME: string := "msg.ViewNullName"

  /** The WHERE text the service uses: the delegate's, consulted only when the template has both
      columns and rows. */
  function ServiceWhere(t: Table, where: string): string {
    if |t.columns| > 0 && |t.rows| > 0 then where else ""
  }

  /** The seek statement around a WHERE part `w`, the text `close` written after it and the
      row-level-security part `security`. */
  function SeekStatement(t: Table, w: string, close: string, security: string, maxRows: int, page: int): string {
    SeekHead(t) + (w + close + security) + (SUBQUERY_END + SeekBounds(page, maxRows))
  }

  /** The service's `pagingWithSeek` as written. `where` is what the WHERE delegate returns for the
      template and `security` is the row-level-security delegate. After a non-blank WHERE part the
      statement appends a `)` that nothing opened. */
  function ServicePagingWithSeekAsWritten(t: Table, where: string, security: bool -> string, maxRows: int, page: int): (r: Result<string>)
    ensures r.Err? <==> BlankName(t.name)
    ensures r.Err? ==> r.error == IllegalArgument(VIEW_NULL_NAME)
  {
    if BlankName(t.name) then Err(IllegalArgument(VIEW_NULL_NAME))
    else
      var w := ServiceWhere(t, where);
      var whereExists := Trim(w) != "";
      Ok(SeekStatement(t, w, if whereExists then ")" else "", security(whereExists), maxRows, page))
  }

  /** The service's `pagingWithSeek` without the stray `)`: the projection over the numbered
      subquery, the WHERE part and the row-level-security part inside it, and the seek bounds. */
  function ServicePagingWithSeek(t: Table, where: string, security: bool -> string, maxRows: int, page: int): (r: Result<string>)
    ensures r.Err? <==> BlankName(t.name)
    ensures r.Err? ==> r.error == IllegalArgument(VIEW_NULL_NAME)
    ensures r.Ok? ==> StartsWith(r.value, SeekHead(t))
    ensures r.Ok? ==> EndsWith(r.value, SUBQUERY_END + SeekBounds(page, maxRows))
  {
    if BlankName(t.name) then Err(IllegalArgument(VIEW_NULL_NAME))
    else
      var w := ServiceWhere(t, where);
      var middle := w + "" + security(Trim(w) != "");
      var tail := SUBQUERY_END + SeekBounds(page, maxRows);
      Bracketed(SeekHead(t), middle, tail);
      Ok(SeekStatement(t, w, "", security(Trim(w) != ""), maxRows, page))
  }

  /** With the controller's WHERE and row-level-security builders as its delegates, the service's
      statement is the controller's seek-paginated statement. */
  lemma ServiceMatchesController(t: Table, autoLike: bool, maxRows: int, page: int, grants: seq<Grant>, callerTokens: seq<string>)
    requires !BlankName(t.name) && WherePart(t, autoLike).Ok?
    ensures ServicePagingWithSeek(t, WherePart(t, autoLike).value.sql,
                                  b => RowLevelSecurity(b, grants, callerTokens), maxRows, page)
         == Ok(PagingWithSeek(t, autoLike, maxRows, page, grants, callerTokens).value.sql)
  {
    var w := WherePart(t, autoLike).value;
    var security := b => RowLevelSecurity(b, grants, callerTokens);
    assert ServiceWhere(t, w.sql) == w.sql;
    var s := RowLevelSecurity(Trim(w.sql) != "", grants, callerTokens);
    assert security(Trim(w.sql) != "") == s;
    ServiceStatement(t, w.sql, security, maxRows, page);
    ControllerSeekStatement(t, autoLike, maxRows, page, grants, callerTokens);
  }

  lemma ServiceStatement(t: Table, w: string, security: bool -> string, maxRows: int, page: int)
    requires !BlankName(t.name) && ServiceWhere(t, w) == w
    ensures ServicePagingWithSeek(t, w, security, maxRows, page)
         == Ok(SeekHead(t) + (w + security(Trim(w) != "")) + (SUBQUERY_END + SeekBounds(page, maxRows)))
  {
    assert w + "" + security(Trim(w) != "") == w + security(Trim(w) != "");
  }

  lemma ControllerSeekStatement(t: Table, autoLike: bool, maxRows: int, page: int, grants: seq<Grant>, callerTokens: seq<string>)
    requires !BlankName(t.name) && WherePart(t, autoLike).Ok?
    ensures var w := WherePart(t, autoLike).value.sql;
      PagingWithSeek(t, autoLike, maxRows, page, grants, callerTokens).value.sql
        == SeekHead(t) + (w + RowLevelSecurity(Trim(w) != "", grants, callerTokens)) + (SUBQUERY_END + SeekBounds(page, maxRows))
  {
  }

  // ---- Parenthesis depth ----

  /** Opening minus closing parentheses. */
  function Depth(s: string): int {
    CountChar(s, '(') as int - CountChar(s, ')') as int
  }

  lemma DepthAppend(a: string, b: string)
    ensures Depth(a + b) == Depth(a) + Depth(b)
  {
    CountCharAppend(a, b, '(');
    CountCharAppend(a, b, ')');
  }

  lemma DepthFree(s: string)
    requires '(' !in s && ')' !in s
    ensures Depth(s) == 0
  {
    CountCharAbsent(s, '(');
    CountCharAbsent(s, ')');
  }

  lemma DepthOfParens()
    ensures Depth("(") == 1 && Depth(")") == -1
  {
    assert "("[..0] == [] && ")"[..0] == [];
  }

  lemma DepthFive(a: string, b: string, c: string, d: string, e: string)
    ensures Depth(a + b + c + d + e) == Depth(a) + Depth(b) + Depth(c) + Depth(d) + Depth(e)
  {
    DepthAppend(a, b);
    DepthAppend(a + b, c);
    DepthAppend(a + b + c, d);
    DepthAppend(a + b + c + d, e);
  }

  lemma DepthFour(a: string, b: string, c: string, d: string)
    ensures Depth(a + b + c + d) == Depth(a) + Depth(b) + Depth(c) + Depth(d)
  {
    DepthAppend(a, b);
    DepthAppend(a + b, c);
    DepthAppend(a + b + c, d);
  }

  /** The opening of the numbered subquery leaves one parenthesis open. */
  lemma NumberedSubqueryDepth()
    ensures Depth(NUMBERED_SUBQUERY) == 1
  {
    NumberingWords();
    OrderingWords();
    NumberedShape(" from ", " select Row_Number", " over ", "order by KeyLong", " as RowNum, * from ");
  }

  lemma NumberingWords()
    ensures Depth(" from ") == 0 && Depth(" select Row_Number") == 0
  {
    DepthFree(" from ");
    DepthFree(" select Row_Number");
  }

  lemma OrderingWords()
    ensures Depth(" over ") == 0 && Depth("order by KeyLong") == 0 && Depth(" as RowNum, * from ") == 0
  {
    DepthFree(" over ");
    DepthFree("order by KeyLong");
    SelectAllWords();
  }

  lemma SelectAllWords()
    ensures Depth(" as RowNum, * from ") == 0
  {
    DepthFree(" as RowNum, * from ");
  }

  /** The parenthesis pattern of the numbered subquery, whatever parenthesis-free words fill it. */
  lemma NumberedShape(opening: string, numbering: string, over: string, order: string, closing: string)
    requires Depth(opening) == 0 && Depth(numbering) == 0 && Depth(over) == 0 && Depth(order) == 0 && Depth(closing) == 0
    ensures Depth(opening + "(" + numbering + "(" + ")" + over + "(" + order + ")" + closing) == 1
  {
    DepthOfParens();
    var a := opening + "(" + numbering + "(";
    DepthFour(opening, "(", numbering, "(");
    var b := a + ")" + over + "(";
    DepthFour(a, ")", over, "(");
    DepthFour(b, order, ")", closing);
  }

  /** The end of the subquery closes one parenthesis. */
  lemma SubqueryEndDepth()
    ensures Depth(SUBQUERY_END) == -1
  {
    DepthOfParens();
    DepthFree(" ");
    DepthFree(" as RowConstraintResult");
    DepthAppend(" ", ")");
    DepthAppend(" " + ")", " as RowConstraintResult");
  }

  lemma NumberUnbracketed(i: int)
    ensures '(' !in IntToString(i) && ')' !in IntToString(i)
  {
    var r := IntToString(i);
    if i < 0 {
      assert r == "-" + NatToString(-i);
    }
    assert forall k :: 0 <= k < |r| ==> r[k] != '(' && r[k] != ')';
  }

  lemma SeekBoundsUnbracketed(page: int, maxRows: int)
    ensures Depth(SeekBounds(page, maxRows)) == 0
  {
    if page > 0 {
      var lo, hi := (page - 1) * maxRows, page * maxRows;
      NumberUnbracketed(lo);
      NumberUnbracketed(hi);
      DepthFree(IntToString(lo));
      DepthFree(IntToString(hi));
      DepthFree("\r\nwhere RowNum > ");
      DepthFree("\r\nand RowNum <= ");
      DepthFree(" order by RowNum");
      BoundsShape("\r\nwhere RowNum > ", IntToString(lo), "\r\nand RowNum <= ", IntToString(hi), " order by RowNum", maxRows > 0);
    } else {
      DepthFree("");
    }
  }

  /** Parenthesis-free bounds, with or without the upper bound, leave the depth unchanged. */
  lemma BoundsShape(above: string, lo: string, below: string, hi: string, order: string, upper: bool)
    requires Depth(above) == 0 && Depth(lo) == 0 && Depth(below) == 0 && Depth(hi) == 0 && Depth(order) == 0
    ensures Depth(above + lo + (if upper then below + hi + order else "")) == 0
  {
    DepthAppend(above, lo);
    DepthFree("");
    if upper {
      DepthAppend(below, hi);
      DepthAppend(below + hi, order);
    }
    DepthAppend(above + lo, if upper then below + hi + order else "");
  }

  /** The seek head leaves exactly the subquery's parenthesis open beyond those of the projection
      and the view name. */
  lemma SeekHeadDepth(t: Table)
    ensures Depth(SeekHead(t)) == Depth(Projection(t.columns)) + Depth(t.name) + 1
  {
    NumberedSubqueryDepth();
    DepthFree("select ");
    DepthFour("select ", Projection(t.columns), NUMBERED_SUBQUERY, t.name);
  }

  /** The seek statement closes the subquery it opens: its depth is that of the parts placed
      into it. */
  lemma SeekStatementDepth(t: Table, w: string, close: string, security: string, maxRows: int, page: int)
    ensures Depth(SeekStatement(t, w, close, security, maxRows, page))
         == Depth(Projection(t.columns)) + Depth(t.name) + Depth(w) + Depth(close) + Depth(security)
  {
    var mid := w + close + security;
    var tail := SUBQUERY_END + SeekBounds(page, maxRows);
    SeekHeadDepth(t);
    SubqueryEndDepth();
    SeekBoundsUnbracketed(page, maxRows);
    DepthAppend(w, close);
    DepthAppend(w + close, security);
    DepthAppend(SUBQUERY_END, SeekBounds(page, maxRows));
    DepthAppend(SeekHead(t), mid);
    DepthAppend(SeekHead(t) + mid, tail);
  }

  /** The corrected statement is exactly as deep as the parts it is made from. */
  lemma ServiceSeekDepth(t: Table, where: string, security: bool -> string, maxRows: int, page: int)
    requires !BlankName(t.name)
    ensures var w := ServiceWhere(t, where);
      Depth(ServicePagingWithSeek(t, where, security, maxRows, page).value)
        == Depth(Projection(t.columns)) + Depth(t.name) + Depth(w) + Depth(security(Trim(w) != ""))
  {
    var w := ServiceWhere(t, where);
    DepthFree("");
    SeekStatementDepth(t, w, "", security(Trim(w) != ""), maxRows, page);
  }

  /** Without a WHERE part nothing is appended, and the statement as written is the corrected one. */
  lemma ServiceAsWrittenWithoutWhere(t: Table, where: string, security: bool -> string, maxRows: int, page: int)
    requires Trim(ServiceWhere(t, where)) == ""
    ensures ServicePagingWithSeekAsWritten(t, where, security, maxRows, page) == ServicePagingWithSeek(t, where, security, maxRows, page)
  {
  }

  /** As written, a non-blank WHERE part leaves the statement one level shallower than the
      corrected statement: one `)` more, nothing else. */
  lemma ServiceSeekExtraParen(t: Table, where: string, security: bool -> string, maxRows: int, page: int)
    requires !BlankName(t.name) && Trim(ServiceWhere(t, where)) != ""
    ensures ServicePagingWithSeekAsWritten(t, where, security, maxRows, page).Ok?
    ensures Depth(ServicePagingWithSeekAsWritten(t, where, security, maxRows, page).value)
         == Depth(ServicePagingWithSeek(t, where, security, maxRows, page).value) - 1
  {
    var w := ServiceWhere(t, where);
    DepthOfParens();
    DepthFree("");
    SeekStatementDepth(t, w, ")", security(true), maxRows, page);
    SeekStatementDepth(t, w, "", security(true), maxRows, page);
  }

  /** When the projection, the view name, the WHERE part and the row-level-security part are each
      balanced, the corrected statement is balanced and the statement as written is not. */
  lemma ServiceSeekBalance(t: Table, where: string, security: bool -> string, maxRows: int, page: int)
    requires !BlankName(t.name) && Trim(ServiceWhere(t, where)) != ""
    requires Depth(Projection(t.columns)) == 0 && Depth(t.name) == 0
    requires Depth(ServiceWhere(t, where)) == 0 && Depth(security(true)) == 0
    ensures Depth(ServicePagingWithSeek(t, where, security, maxRows, page).value) == 0
    ensures Depth(ServicePagingWithSeekAsWritten(t, where, security, maxRows, page).value) == -1
  {
    ServiceSeekDepth(t, where, security, maxRows, page);
    ServiceSeekExtraParen(t, where, security, maxRows, page);
  }

  /** The view of the example: `V` with one column `Name` searched for `x`. */
  function ExampleView(): Table {
    Table("V", [Column("Name", STRING, INPUT)], [Row([Some(Value(StringData("x"), None))])], None)
  }

  function NoRowSecurity(whereExists: bool): string {
    ""
  }

  /** A search for `Name = ?` on view `V` without row-level security: the corrected statement is
      balanced, the statement as written closes one parenthesis too many. */
  lemma ServiceSeekUnbalancedExample()
    ensures Depth(ServicePagingWithSeek(ExampleView(), "\r\nwhere (Name = ?)", NoRowSecurity, 10, 1).value) == 0
    ensures Depth(ServicePagingWithSeekAsWritten(ExampleView(), "\r\nwhere (Name = ?)", NoRowSecurity, 10, 1).value) == -1
  {
    var t := ExampleView();
    var w := "\r\nwhere (Name = ?)";
    assert !BlankName("V") by {
      TrimNotBlank("V");
    }
    TrimNotBlank(w);
    assert ServiceWhere(t, w) == w;
    ExampleDepths(t.columns);
    WhereTextDepth();
    ServiceSeekBalance(t, w, NoRowSecurity, 10, 1);
  }

  lemma WhereTextDepth()
    ensures Depth("\r\nwhere (Name = ?)") == 0
  {
    DepthOfParens();
    assert "\r\nwhere (Name = ?)" == "\r\nwhere " + "(" + "Name = ?" + ")" + "";
    DepthFree("\r\nwhere ");
    DepthFree("Name = ?");
    DepthFree("");
    DepthFive("\r\nwhere ", "(", "Name = ?", ")", "");
  }

  lemma ExampleDepths(cols: seq<Column>)
    requires cols == [Column("Name", STRING, INPUT)]
    ensures Depth(Projection(cols)) == 0 && Depth("V") == 0 && Depth("") == 0
  {
    assert Projection(cols) == "Name";
    DepthFree("Name");
    DepthFree("V");
    DepthFree("");
  }
}
