/** The SELECT statements of the view controller: the projection, the plain statement with its
    `top N` and `count(1)` variants, the seek-paginated statement, and the row-level-security
    suffix that restricts rows to the caller's security tokens. */
module ViewStatement {
  import opened Text
  import opened Domain
  import opened WhereClause
  import opened Binding

  // ---- Projection ----

  /** The selected columns: every column except those named exactly like the AND marker, in order. */
  function OutputColumns(cols: seq<Column>): (r: seq<Column>)
    ensures |r| <= |cols|
    ensures forall c :: c in r <==> c in cols && c.name != AND_FIELD_NAME
  {
    if |cols| == 0 then []
    else (if cols[0].name == AND_FIELD_NAME then [] else [cols[0]]) + OutputColumns(cols[1..])
  }

  function Names(cols: seq<Column>): (r: seq<string>)
    ensures |r| == |cols| && forall i :: 0 <= i < |cols| ==> r[i] == cols[i].name
  {
    if |cols| == 0 then [] else [cols[0].name] + Names(cols[1..])
  }

  /** The projection list: the selected names joined with `", "`, or `*` when none is left. It is
      `*` exactly when nothing but AND markers was requested, unless a column is itself named `*`. */
  function Projection(cols: seq<Column>): (r: string)
    ensures |OutputColumns(cols)| == 0 ==> r == "*"
    ensures (forall c :: c in cols ==> c.name != "*") ==> (r == "*" <==> |OutputColumns(cols)| == 0)
  {
    var out := OutputColumns(cols);
    JoinedNamesNotStar(cols);
    if |out| == 0 then "*" else Join(Names(out), ", ")
  }

  lemma JoinedNamesNotStar(cols: seq<Column>)
    ensures |OutputColumns(cols)| > 0 && (forall c :: c in cols ==> c.name != "*") ==>
      Join(Names(OutputColumns(cols)), ", ") != "*"
  {
    var out := OutputColumns(cols);
    if |out| > 0 && (forall c :: c in cols ==> c.name != "*") {
      var names := Names(out);
      assert out[0] in cols;
      if |names| >= 2 {
        JoinLength(names);
      }
    }
  }

  /** Removes one leading space from every piece that has one. */
  function Unspaced(parts: seq<string>): (r: seq<string>)
    ensures |r| == |parts|
  {
    if |parts| == 0 then []
    else [if |parts[0]| > 0 && parts[0][0] == ' ' then parts[0][1..] else parts[0]] + Unspaced(parts[1..])
  }

  lemma {:induction false} UnspacedPrefixed(parts: seq<string>)
    ensures Unspaced(Prefixed(parts, " ")) == parts
  {
    if |parts| > 0 {
      UnspacedPrefixed(parts[1..]);
      assert Prefixed(parts, " ")[1..] == Prefixed(parts[1..], " ");
      assert (" " + parts[0])[1..] == parts[0];
    }
  }

  /** Reads a projection back into column names: `*` names none; otherwise the comma-separated
      pieces, each without the space the joiner put after the comma. */
  function ProjectionNames(p: string): seq<string> {
    if p == "*" then []
    else
      var parts := SplitAll(p, ',');
      [parts[0]] + Unspaced(parts[1..])
  }

  lemma JoinLength(names: seq<string>)
    requires |names| >= 2
    ensures |Join(names, ", ")| >= 2
  {
  }

  /** The projection names exactly the selected columns, in order, when no column name contains a
      comma or is itself `*`; it is `*` exactly when nothing but AND markers was requested. */
  lemma ProjectionRoundTrip(cols: seq<Column>)
    requires forall c :: c in cols ==> ',' !in c.name && c.name != "*"
    ensures ProjectionNames(Projection(cols)) == Names(OutputColumns(cols))
    ensures Projection(cols) == "*" <==> |OutputColumns(cols)| == 0
  {
    var out := OutputColumns(cols);
    if |out| > 0 {
      var names := Names(out);
      JoinCommaSpace(names);
      var spaced := [names[0]] + Prefixed(names[1..], " ");
      forall k | 0 <= k < |spaced|
        ensures ',' !in spaced[k]
      {
        if k > 0 {
          assert out[k] in cols;
          assert spaced[k] == " " + names[k];
        }
      }
      SplitAllOfJoin(spaced, ',');
      assert spaced[1..] == Prefixed(names[1..], " ");
      UnspacedPrefixed(names[1..]);
      assert [names[0]] + names[1..] == names;
    }
  }

  // ---- Row-level security ----

  /** A caller token as it appears in the IN list: trimmed and single-quoted. */
  function Quote(token: string): string {
    "'" + Trim(token) + "'"
  }

  function Quoted(tokens: seq<string>): (r: seq<string>)
    ensures |r| == |tokens| && forall k :: 0 <= k < |tokens| ==> r[k] == Quote(tokens[k])
  {
    if |tokens| == 0 then [] else Quoted(tokens[..|tokens| - 1]) + [Quote(tokens[|tokens| - 1])]
  }

  lemma QuotedSnoc(tokens: seq<string>, i: nat)
    requires i < |tokens|
    ensures Quoted(tokens[..i + 1]) == Quoted(tokens[..i]) + [Quote(tokens[i])]
  {
    assert tokens[..i + 1][..i] == tokens[..i];
  }

  /** The quoted tokens separated by commas. */
  function TokenList(tokens: seq<string>): string {
    Join(Quoted(tokens), ",")
  }

  /** Builds the IN list as the controller does: every token quoted and followed by a comma, then
      the last character (the final comma) deleted. */
  method BuildTokenList(tokens: seq<string>) returns (s: string)
    requires |tokens| > 0
    ensures s == TokenList(tokens)
  {
    var built := "";
    var i := 0;
    while i < |tokens|
      invariant 0 <= i <= |tokens|
      invariant built == Terminated(tokens, i)
    {
      built := built + Quote(tokens[i]) + ",";
      i := i + 1;
    }
    TerminatedList(tokens, |tokens|);
    assert tokens[..|tokens|] == tokens;
    s := DropLast(built);
  }

  /** The first `n` tokens, each quoted and followed by a comma. */
  function Terminated(tokens: seq<string>, n: nat): string
    requires n <= |tokens|
  {
    if n == 0 then "" else Terminated(tokens, n - 1) + Quote(tokens[n - 1]) + ","
  }

  /** Terminating every token with a comma is the token list followed by one comma. */
  lemma {:induction false} TerminatedList(tokens: seq<string>, n: nat)
    requires 0 < n <= |tokens|
    ensures Terminated(tokens, n) == TokenList(tokens[..n]) + ","
    ensures Terminated(tokens, n)[..|Terminated(tokens, n)| - 1] == TokenList(tokens[..n])
    decreases n
  {
    if n == 1 {
      assert Quoted(tokens[..1]) == [Quote(tokens[0])];
    } else {
      TerminatedList(tokens, n - 1);
      QuotedSnoc(tokens, n - 1);
      JoinSnoc(Quoted(tokens[..n - 1]), Quote(tokens[n - 1]), ",");
    }
    DropFinalComma(TokenList(tokens[..n]));
  }

  function DropLast(a: string): (r: string)
    requires |a| > 0
    ensures r == a[..|a| - 1]
  {
    a[..|a| - 1]
  }

  lemma DropFinalComma(a: string)
    ensures (a + ",")[..|a + ","| - 1] == a
  {
  }

  lemma {:induction false} JoinSnoc(parts: seq<string>, x: string, sep: string)
    requires |parts| > 0
    ensures Join(parts + [x], sep) == Join(parts, sep) + sep + x
  {
    if |parts| == 1 {
      assert (parts + [x])[1..] == [x];
    } else {
      JoinSnoc(parts[1..], x, sep);
      assert (parts + [x])[1..] == parts[1..] + [x];
    }
  }

  /** The IN list names the caller's tokens: split at the commas it gives back every trimmed,
      quoted token, in order, when no token contains a comma. */
  lemma TokenListRoundTrip(tokens: seq<string>)
    requires |tokens| > 0 && forall k :: 0 <= k < |tokens| ==> ',' !in tokens[k]
    ensures SplitAll(TokenList(tokens), ',') == Quoted(tokens)
  {
    var q := Quoted(tokens);
    forall k | 0 <= k < |q|
      ensures ',' !in q[k]
    {
      TrimIsInfix(tokens[k]);
      assert q[k] == "'" + Trim(tokens[k]) + "'";
    }
    SplitAllOfJoin(q, ',');
  }

  /** `rowLevelSecurity`: nothing as soon as one grant switches row-level security off; otherwise
      a condition opened with `and` after an existing WHERE or with `where`, admitting rows without
      a token and, when the caller holds tokens, rows carrying one of them. */
  function RowLevelSecurity(whereExists: bool, grants: seq<Grant>, callerTokens: seq<string>): (r: string)
    ensures r == "" <==> exists g :: g in grants && !g.rowLevelSecurity
  {
    if exists g :: g in grants && !g.rowLevelSecurity then ""
    else
      (if whereExists then "\r\nand (" else "\r\nwhere (")
      + " ( SecurityToken IS NULL )"
      + (if |callerTokens| > 0 then "\r\nor ( SecurityToken IN (" + TokenList(callerTokens) + ") )" else "")
      + " )"
  }

  lemma ContainsAfter(a: string, b: string, c: string)
    ensures Contains(a + b + c, b)
    decreases |a|
  {
    if |a| == 0 {
      assert (a + b + c)[..|b|] == b;
    } else {
      assert (a + b + c)[1..] == a[1..] + b + c;
      ContainsAfter(a[1..], b, c);
    }
  }

  /** When on, the suffix continues an existing WHERE with `and` and otherwise opens one; it always
      admits rows without a token, and it lists the caller's tokens exactly when there are any. */
  lemma RowLevelSecurityShape(whereExists: bool, grants: seq<Grant>, callerTokens: seq<string>)
    requires forall g :: g in grants ==> g.rowLevelSecurity
    ensures var r := RowLevelSecurity(whereExists, grants, callerTokens);
      && StartsWith(r, if whereExists then "\r\nand (" else "\r\nwhere (")
      && Contains(r, " ( SecurityToken IS NULL )")
      && (|callerTokens| == 0 ==> r == (if whereExists then "\r\nand (" else "\r\nwhere (") + " ( SecurityToken IS NULL ) )")
      && (|callerTokens| > 0 ==> Contains(r, "\r\nor ( SecurityToken IN (" + TokenList(callerTokens) + ") )"))
  {
    var open := if whereExists then "\r\nand (" else "\r\nwhere (";
    var inList := if |callerTokens| > 0 then "\r\nor ( SecurityToken IN (" + TokenList(callerTokens) + ") )" else "";
    RowLevelSecurityParts(whereExists, grants, callerTokens, open, inList);
    PartsShape(open, " ( SecurityToken IS NULL )", inList, " )");
    if |callerTokens| == 0 {
      assert inList + " )" == " )";
    }
  }

  lemma RowLevelSecurityParts(whereExists: bool, grants: seq<Grant>, callerTokens: seq<string>, open: string, inList: string)
    requires forall g :: g in grants ==> g.rowLevelSecurity
    requires open == if whereExists then "\r\nand (" else "\r\nwhere ("
    requires inList == if |callerTokens| > 0 then "\r\nor ( SecurityToken IN (" + TokenList(callerTokens) + ") )" else ""
    ensures RowLevelSecurity(whereExists, grants, callerTokens) == open + " ( SecurityToken IS NULL )" + (inList + " )")
  {
  }

  /** Four pieces in a row start with the first and contain the second and the third. */
  lemma PartsShape(a: string, b: string, c: string, d: string)
    ensures StartsWith(a + b + (c + d), a)
    ensures Contains(a + b + (c + d), b) && Contains(a + b + (c + d), c)
  {
    StartsWithAppend(a, b + (c + d));
    assert a + b + (c + d) == a + (b + (c + d));
    ContainsAfter(a, b, c + d);
    assert a + b + (c + d) == a + b + c + d;
    ContainsAfter(a + b, c, d);
  }

  // ---- Statements ----

  /** A statement and the template table as the binder will see it afterwards. */
  datatype Statement = Statement(sql: string, table: Table)

  const NULL_NAME_MESSAGE: string := "Cannot prepare statement with NULL name"

  predicate BlankName(name: string) {
    Trim(name) == ""
  }

  /** The WHERE part, built only when the template has both columns and rows. */
  function WherePart(t: Table, autoLike: bool): Result<Where> {
    if |t.columns| > 0 && |t.rows| > 0 then PrepareWhereClause(t, autoLike) else Ok(Where("", t))
  }

  /** A view statement: the opening, the view name, the WHERE part and the row-level-security
      suffix, which continues the WHERE part when that is not blank. A blank view name is rejected
      before anything else. */
  function Assemble(head: string, t: Table, autoLike: bool, grants: seq<Grant>, callerTokens: seq<string>): (r: Result<Statement>)
    ensures r.Err? <==> BlankName(t.name) || WherePart(t, autoLike).Err?
    ensures BlankName(t.name) ==> r == Err(IllegalArgument(NULL_NAME_MESSAGE))
    ensures r.Ok? ==> StartsWith(r.value.sql, head + t.name)
    ensures r.Ok? ==> r.value.table == WherePart(t, autoLike).value.table
  {
    if BlankName(t.name) then Err(IllegalArgument(NULL_NAME_MESSAGE))
    else
      var w :- WherePart(t, autoLike);
      var rest := w.sql + RowLevelSecurity(Trim(w.sql) != "", grants, callerTokens);
      StartsWithAppend(head + t.name, rest);
      Ok(Statement(head + t.name + rest, w.table))
  }

  /** The opening as written: `select count(1) from` when counting; otherwise `select top N` only
      for a positive maxRows, followed by the projection. With maxRows 0 (documented as
      "unlimited") the opening therefore lacks its `select` keyword. */
  function WrittenHead(cols: seq<Column>, maxRows: int, count: bool): string {
    if count then "select count(1) from "
    else if maxRows > 0 then "select top " + IntToString(maxRows) + " " + Projection(cols) + " from "
    else Projection(cols) + " from "
  }

  function PrepareViewStringAsWritten(t: Table, autoLike: bool, maxRows: int, count: bool,
                                      grants: seq<Grant>, callerTokens: seq<string>): (r: Result<Statement>)
    ensures r.Err? <==> BlankName(t.name) || WherePart(t, autoLike).Err?
    ensures count || maxRows > 0 ==> r == PrepareViewString(t, autoLike, maxRows, count, grants, callerTokens)
    ensures r.Ok? && !count && maxRows <= 0 ==> StartsWith(r.value.sql, Projection(t.columns) + " from " + t.name)
  {
    Assemble(WrittenHead(t.columns, maxRows, count), t, autoLike, grants, callerTokens)
  }

  /** The opening of the corrected statement: `select count(1)` when counting; otherwise `select`,
      `top N` for a positive maxRows, and the projection. */
  function SelectHead(cols: seq<Column>, maxRows: int, count: bool): string {
    if count then "select count(1) from "
    else if maxRows > 0 then "select top " + IntToString(maxRows) + " " + Projection(cols) + " from "
    else "select " + Projection(cols) + " from "
  }

  lemma TopOpens(n: string, p: string)
    ensures StartsWith("select top " + n + " " + p + " from ", "select ")
  {
    var h := "select top " + n + " " + p + " from ";
    assert h[..7] == "select top "[..7];
  }

  lemma PlainOpens(p: string)
    ensures StartsWith("select " + p + " from ", "select ")
  {
    var h := "select " + p + " from ";
    assert h[..7] == "select ";
  }

  lemma SelectHeadOpens(cols: seq<Column>, maxRows: int, count: bool)
    ensures StartsWith(SelectHead(cols, maxRows, count), "select ")
  {
    if count {
      assert "select count(1) from "[..7] == "select ";
    } else if maxRows > 0 {
      TopOpens(IntToString(maxRows), Projection(cols));
    } else {
      PlainOpens(Projection(cols));
    }
  }

  /** `prepareViewString` with the `select` keyword present for every maxRows: it fails exactly for
      a blank name or an unbuildable WHERE part, and otherwise opens with `select`, then `count(1)`,
      `top N` or the projection, then the view name. */
  function PrepareViewString(t: Table, autoLike: bool, maxRows: int, count: bool,
                             grants: seq<Grant>, callerTokens: seq<string>): (r: Result<Statement>)
    ensures r.Err? <==> BlankName(t.name) || WherePart(t, autoLike).Err?
    ensures BlankName(t.name) ==> r == Err(IllegalArgument(NULL_NAME_MESSAGE))
    ensures r.Ok? ==> StartsWith(r.value.sql, "select ")
    ensures r.Ok? ==> StartsWith(r.value.sql, SelectHead(t.columns, maxRows, count) + t.name)
    ensures r.Ok? ==> r.value.table == WherePart(t, autoLike).value.table
  {
    var head := SelectHead(t.columns, maxRows, count);
    var r := Assemble(head, t, autoLike, grants, callerTokens);
    SelectHeadOpens(t.columns, maxRows, count);
    if r.Ok? then OpensWith(r.value.sql, head, t.name, "select "); r else r
  }

  lemma OpensWith(sql: string, head: string, name: string, keyword: string)
    requires StartsWith(sql, head + name) && StartsWith(head, keyword)
    ensures StartsWith(sql, keyword)
  {
    StartsWithAppend(head, name);
    StartsWithTransitive(sql, head + name, head);
    StartsWithTransitive(sql, head, keyword);
  }

  /** The seek bounds appended after the subquery: none for a page below 1; otherwise a lower
      bound on the row number, and an upper bound with the ordering only for a positive page size. */
  function SeekBounds(page: int, maxRows: int): (r: string)
    ensures r == "" <==> page <= 0
    ensures page > 0 ==> StartsWith(r, "\r\nwhere RowNum > ")
    ensures page > 0 && maxRows > 0 ==> EndsWith(r, " order by RowNum")
  {
    if page > 0 then
      "\r\nwhere RowNum > " + IntToString((page - 1) * maxRows)
      + (if maxRows > 0 then "\r\nand RowNum <= " + IntToString(page * maxRows) + " order by RowNum" else "")
    else ""
  }

  /** `pagingWithSeek`: the projection over a subquery that numbers the rows by `KeyLong` and
      carries the WHERE and row-level-security parts, then the bounds of the requested page. */
  function PagingWithSeek(t: Table, autoLike: bool, maxRows: int, page: int,
                          grants: seq<Grant>, callerTokens: seq<string>): (r: Result<Statement>)
    ensures r.Err? <==> BlankName(t.name) || WherePart(t, autoLike).Err?
    ensures BlankName(t.name) ==> r == Err(IllegalArgument(NULL_NAME_MESSAGE))
    ensures r.Ok? ==> StartsWith(r.value.sql, SeekHead(t))
    ensures r.Ok? ==> EndsWith(r.value.sql, SUBQUERY_END + SeekBounds(page, maxRows))
    ensures r.Ok? ==> r.value.table == WherePart(t, autoLike).value.table
  {
    if BlankName(t.name) then Err(IllegalArgument(NULL_NAME_MESSAGE))
    else
      var w :- WherePart(t, autoLike);
      var middle := w.sql + RowLevelSecurity(Trim(w.sql) != "", grants, callerTokens);
      var tail := SUBQUERY_END + SeekBounds(page, maxRows);
      Bracketed(SeekHead(t), middle, tail);
      Ok(Statement(SeekHead(t) + middle + tail, w.table))
  }

  /** ` from ( select Row_Number() over (order by KeyLong) as RowNum, * from `: the opening of
      the subquery that numbers the rows, written with every parenthesis as a piece of its own. */
  const NUMBERED_SUBQUERY: string :=
    " from " + "(" + " select Row_Number" + "(" + ")" + " over " + "(" + "order by KeyLong" + ")" + " as RowNum, * from "

  /** ` ) as RowConstraintResult`: the end of the numbered subquery. */
  const SUBQUERY_END: string := " " + ")" + " as RowConstraintResult"

  /** The projection over the subquery that numbers the view's rows by `KeyLong`. */
  function SeekHead(t: Table): string {
    "select " + Projection(t.columns) + NUMBERED_SUBQUERY + t.name
  }

  /** Page 0 or below adds no bounds; with page size 0 every row from the first is selected. */
  lemma SeekBoundsUnlimited(page: int, maxRows: int)
    ensures page <= 0 ==> SeekBounds(page, maxRows) == ""
    ensures page > 0 && maxRows == 0 ==> SeekBounds(page, maxRows) == "\r\nwhere RowNum > 0"
  {
    if page > 0 && maxRows == 0 {
      assert (page - 1) * maxRows == 0;
      assert IntToString(0) == "0";
    }
  }

  /** With a positive page size the bounds select the rows numbered `(page-1)*maxRows + 1` through
      `page*maxRows`, written as decimal numbers that read back as those bounds. */
  lemma SeekBoundsSelectPage(page: int, maxRows: int, lo: nat, hi: nat)
    requires page > 0 && maxRows > 0
    requires lo == (page - 1) * maxRows && hi == page * maxRows
    ensures hi == lo + maxRows
    ensures SeekBounds(page, maxRows) ==
      "\r\nwhere RowNum > " + NatToString(lo) + "\r\nand RowNum <= " + NatToString(hi) + " order by RowNum"
    ensures ParseNat(NatToString(lo)) == lo && ParseNat(NatToString(hi)) == hi
  {
    assert IntToString(lo) == NatToString(lo) && IntToString(hi) == NatToString(hi);
    SeekBoundsPositive(page, maxRows, IntToString(lo), IntToString(hi));
    NatToStringRoundTrip(lo);
    NatToStringRoundTrip(hi);
  }

  lemma SeekBoundsPositive(page: int, maxRows: int, lo: string, hi: string)
    requires page > 0 && maxRows > 0
    requires lo == IntToString((page - 1) * maxRows) && hi == IntToString(page * maxRows)
    ensures SeekBounds(page, maxRows) == "\r\nwhere RowNum > " + lo + "\r\nand RowNum <= " + hi + " order by RowNum"
  {
  }

  /** The plain statement with maxRows 0 and no counting, as written, has no `select`: it starts
      with the bare projection. */
  lemma NoSelectWithoutLimit(t: Table, autoLike: bool, grants: seq<Grant>, callerTokens: seq<string>)
    requires !BlankName(t.name) && WherePart(t, autoLike).Ok?
    ensures PrepareViewStringAsWritten(t, autoLike, 0, false, grants, callerTokens).Ok?
    ensures StartsWith(PrepareViewStringAsWritten(t, autoLike, 0, false, grants, callerTokens).value.sql,
                       Projection(t.columns) + " from " + t.name)
  {
  }

  /** A concrete instance: an unrestricted view `T` without search rows yields `* from T`. */
  lemma NoSelectExample()
    ensures PrepareViewStringAsWritten(Table("T", [], [], None), false, 0, false, [Grant("T", "u", false)], [])
      == Ok(Statement("* from T", Table("T", [], [], None)))
  {
    var t := Table("T", [], [], None);
    var grants := [Grant("T", "u", false)];
    assert !BlankName("T");
    var head := WrittenHead([], 0, false);
    assert head == "* from " by {
      assert Projection([]) == "*";
    }
    assert WherePart(t, false) == Ok(Where("", t));
    assert RowLevelSecurity(false, grants, []) == "" by {
      assert grants[0] in grants;
    }
    assert Trim("") == "";
    assert Assemble(head, t, false, grants, []) == Ok(Statement(head + "T" + ("" + ""), t));
    assert head + "T" + ("" + "") == "* from T";
  }

  // ---- Placeholders of the whole statement ----

  /** Neither the view name, nor a column name, nor a caller token contains a `?` of its own. */
  predicate MarkFree(t: Table, callerTokens: seq<string>) {
    && '?' !in t.name
    && (forall c :: c in t.columns ==> '?' !in c.name)
    && (forall k :: 0 <= k < |callerTokens| ==> '?' !in callerTokens[k])
  }

  lemma ProjectionMarkFree(cols: seq<Column>)
    requires forall c :: c in cols ==> '?' !in c.name
    ensures '?' !in Projection(cols)
  {
    var out := OutputColumns(cols);
    if |out| > 0 {
      forall k | 0 <= k < |out|
        ensures '?' !in Names(out)[k]
      {
        assert out[k] in cols;
      }
      JoinAbsent(Names(out), ", ", '?');
    }
  }

  lemma SelectHeadMarkFree(cols: seq<Column>, maxRows: int, count: bool)
    requires forall c :: c in cols ==> '?' !in c.name
    ensures '?' !in SelectHead(cols, maxRows, count)
  {
    ProjectionMarkFree(cols);
    var p := Projection(cols);
    if count {
      assert '?' !in "select count(1) from ";
    } else if maxRows > 0 {
      NumberTextIsPlain(maxRows);
      TopMarkFree(IntToString(maxRows), p);
    } else {
      PlainMarkFree(p);
    }
  }

  lemma TopMarkFree(n: string, p: string)
    requires '?' !in n && '?' !in p
    ensures '?' !in "select top " + n + " " + p + " from "
  {
  }

  lemma PlainMarkFree(p: string)
    requires '?' !in p
    ensures '?' !in "select " + p + " from "
  {
  }

  lemma QuoteMarkFree(token: string)
    requires '?' !in token
    ensures '?' !in Quote(token)
  {
    TrimIsInfix(token);
  }

  lemma InListMarkFree(list: string)
    requires '?' !in list
    ensures '?' !in "\r\nor ( SecurityToken IN (" + list + ") )"
  {
  }

  lemma SecurityMarkFree(open: string, inList: string)
    requires '?' !in open && '?' !in inList
    ensures '?' !in open + " ( SecurityToken IS NULL )" + inList + " )"
  {
  }

  lemma RowLevelSecurityMarkFree(whereExists: bool, grants: seq<Grant>, callerTokens: seq<string>)
    requires forall k :: 0 <= k < |callerTokens| ==> '?' !in callerTokens[k]
    ensures '?' !in RowLevelSecurity(whereExists, grants, callerTokens)
  {
    if !exists g :: g in grants && !g.rowLevelSecurity {
      var open := if whereExists then "\r\nand (" else "\r\nwhere (";
      var inList := if |callerTokens| > 0 then "\r\nor ( SecurityToken IN (" + TokenList(callerTokens) + ") )" else "";
      if |callerTokens| > 0 {
        var q := Quoted(callerTokens);
        forall k | 0 <= k < |q|
          ensures '?' !in q[k]
        {
          QuoteMarkFree(callerTokens[k]);
        }
        JoinAbsent(q, ",", '?');
        InListMarkFree(TokenList(callerTokens));
      }
      assert '?' !in open;
      SecurityMarkFree(open, inList);
    }
  }

  lemma BoundsMarkFree(lo: string, hi: string, limited: bool)
    requires '?' !in lo && '?' !in hi
    ensures '?' !in "\r\nwhere RowNum > " + lo + (if limited then "\r\nand RowNum <= " + hi + " order by RowNum" else "")
  {
  }

  lemma SeekBoundsMarkFree(page: int, maxRows: int)
    ensures '?' !in SeekBounds(page, maxRows)
  {
    if page > 0 {
      NumberTextIsPlain((page - 1) * maxRows);
      NumberTextIsPlain(page * maxRows);
      BoundsMarkFree(IntToString((page - 1) * maxRows), IntToString(page * maxRows), maxRows > 0);
    }
  }

  /** Without a WHERE part nothing is bound: the template has no rows, or rows without values. */
  lemma {:induction false} NoInputs(t: Table, k: nat)
    requires RowsFit(t) && |t.columns| == 0 && k <= |t.rows|
    ensures InputsUpTo(t, k) == []
    decreases k
  {
    if k > 0 {
      NoInputs(t, k - 1);
      assert t.rows[k - 1] in t.rows;
    }
  }

  /** The WHERE part carries as many placeholders as its parameters receive texts. */
  lemma WherePartAligned(t: Table, autoLike: bool)
    requires RowsFit(t) && FlagsReadable(t) && TemplateReady(t)
    ensures WherePart(t, autoLike).Ok?
    ensures RowsFit(WherePart(t, autoLike).value.table)
    ensures Aligned(InputValues(WherePart(t, autoLike).value.table), WherePart(t, autoLike).value.sql)
  {
    if |t.columns| > 0 && |t.rows| > 0 {
      PlaceholdersMatchBindings(t, autoLike);
    } else if |t.columns| == 0 {
      NoInputs(t, |t.rows|);
    }
  }

  /** Text without `?` around a part adds no placeholder to it. */
  lemma MarksBetween(a: string, m: string, d: string)
    requires '?' !in a && '?' !in d
    ensures CountChar(a + m + d, '?') == CountChar(m, '?')
  {
    CountCharAbsent(a, '?');
    CountCharAbsent(d, '?');
    CountCharAppend(a, m, '?');
    CountCharAppend(a + m, d, '?');
  }

  lemma MarksAfter(a: string, m: string)
    requires '?' !in a
    ensures CountChar(a + m, '?') == CountChar(m, '?')
  {
    CountCharAbsent(a, '?');
    CountCharAppend(a, m, '?');
  }

  lemma MarksBefore(m: string, d: string)
    requires '?' !in d
    ensures CountChar(m + d, '?') == CountChar(m, '?')
  {
    CountCharAbsent(d, '?');
    CountCharAppend(m, d, '?');
  }

  lemma NameMarkFree(head: string, name: string)
    requires '?' !in head && '?' !in name
    ensures '?' !in head + name
  {
  }

  lemma SeekHeadMarkFree(t: Table)
    requires MarkFree(t, [])
    ensures '?' !in SeekHead(t)
  {
    ProjectionMarkFree(t.columns);
    SubqueryMarkFree(Projection(t.columns), t.name);
    assert SeekHead(t) ==
      "select " + Projection(t.columns) + NUMBERED_SUBQUERY + t.name;
  }

  lemma SubqueryMarkFree(p: string, name: string)
    requires '?' !in p && '?' !in name
    ensures '?' !in "select " + p + NUMBERED_SUBQUERY + name
  {
  }

  lemma TailMarkFree(bounds: string)
    requires '?' !in bounds
    ensures '?' !in SUBQUERY_END + bounds
  {
  }

  /** A view statement has exactly as many placeholders as the binder supplies texts, when the
      template is ready for binding and no name or token brings a `?` of its own. */
  lemma ViewStringAligned(t: Table, autoLike: bool, maxRows: int, count: bool, grants: seq<Grant>, callerTokens: seq<string>)
    requires !BlankName(t.name) && MarkFree(t, callerTokens)
    requires RowsFit(t) && FlagsReadable(t) && TemplateReady(t)
    ensures PrepareViewString(t, autoLike, maxRows, count, grants, callerTokens).Ok?
    ensures RowsFit(PrepareViewString(t, autoLike, maxRows, count, grants, callerTokens).value.table)
    ensures Aligned(InputValues(PrepareViewString(t, autoLike, maxRows, count, grants, callerTokens).value.table),
                    PrepareViewString(t, autoLike, maxRows, count, grants, callerTokens).value.sql)
  {
    WherePartAligned(t, autoLike);
    var w := WherePart(t, autoLike).value;
    var rls := RowLevelSecurity(Trim(w.sql) != "", grants, callerTokens);
    var head := SelectHead(t.columns, maxRows, count);
    SelectHeadMarkFree(t.columns, maxRows, count);
    NameMarkFree(head, t.name);
    RowLevelSecurityMarkFree(Trim(w.sql) != "", grants, callerTokens);
    MarksAfter(head + t.name, w.sql + rls);
    MarksBefore(w.sql, rls);
  }

  /** The same holds for the seek-paginated statement. */
  lemma PagingWithSeekAligned(t: Table, autoLike: bool, maxRows: int, page: int, grants: seq<Grant>, callerTokens: seq<string>)
    requires !BlankName(t.name) && MarkFree(t, callerTokens)
    requires RowsFit(t) && FlagsReadable(t) && TemplateReady(t)
    ensures PagingWithSeek(t, autoLike, maxRows, page, grants, callerTokens).Ok?
    ensures RowsFit(PagingWithSeek(t, autoLike, maxRows, page, grants, callerTokens).value.table)
    ensures Aligned(InputValues(PagingWithSeek(t, autoLike, maxRows, page, grants, callerTokens).value.table),
                    PagingWithSeek(t, autoLike, maxRows, page, grants, callerTokens).value.sql)
  {
    WherePartAligned(t, autoLike);
    var w := WherePart(t, autoLike).value;
    var rls := RowLevelSecurity(Trim(w.sql) != "", grants, callerTokens);
    var tail := SUBQUERY_END + SeekBounds(page, maxRows);
    SeekHeadMarkFree(t);
    SeekBoundsMarkFree(page, maxRows);
    TailMarkFree(SeekBounds(page, maxRows));
    RowLevelSecurityMarkFree(Trim(w.sql) != "", grants, callerTokens);
    PagingWithSeekParts(t, autoLike, maxRows, page, grants, callerTokens);
    AlignedInside(InputValues(w.table), SeekHead(t), w.sql, rls, tail);
  }

  /** The seek statement is the seek head, the WHERE part, the row-level-security part and the
      tail, in that order. */
  lemma PagingWithSeekParts(t: Table, autoLike: bool, maxRows: int, page: int, grants: seq<Grant>, callerTokens: seq<string>)
    requires !BlankName(t.name) && WherePart(t, autoLike).Ok?
    ensures var w := WherePart(t, autoLike).value;
      PagingWithSeek(t, autoLike, maxRows, page, grants, callerTokens) ==
      Ok(Statement(SeekHead(t) + (w.sql + RowLevelSecurity(Trim(w.sql) != "", grants, callerTokens)) +
                   (SUBQUERY_END + SeekBounds(page, maxRows)), w.table))
  {
  }

  /** Text without placeholders around an aligned part keeps it aligned. */
  lemma AlignedInside(cells: seq<Option<Value>>, head: string, where: string, rls: string, tail: string)
    requires Aligned(cells, where) && '?' !in head && '?' !in rls && '?' !in tail
    ensures Aligned(cells, head + (where + rls) + tail)
  {
    MarksBetween(head, where + rls, tail);
    MarksBefore(where, rls);
  }
}
