/** Column-level security for index views: the columns a caller may see of a view are the union
    of the columns granted to its security tokens; a token without any column entry for the view
    lifts every restriction. Requested columns outside the grant are removed together with their
    values, and a request left with no column at all is refused. */
module ColumnSecurity {
  import opened Text
  import opened Domain

  /** The column-security store: for a view and a security token, the names of the columns it grants. */
  type ColumnLookup = (string, string) -> seq<string>

  /** What the caller may see of a view. */
  datatype Access = Unrestricted | Restricted(granted: seq<string>)

  /** Walks the caller's grants for the view in order, collecting granted column names without
      repetition; the first grant whose token has no column entry makes the view unrestricted. */
  function AccessFrom(view: string, grants: seq<Grant>, lookup: ColumnLookup, acc: seq<string>): Access
    decreases |grants|
  {
    if |grants| == 0 then Restricted(acc)
    else if grants[0].privilege == view then
      var names := lookup(view, grants[0].token);
      if |names| == 0 then Unrestricted else AccessFrom(view, grants[1..], lookup, AppendAbsent(acc, names))
    else AccessFrom(view, grants[1..], lookup, acc)
  }

  function ViewAccess(view: string, grants: seq<Grant>, lookup: ColumnLookup): Access {
    AccessFrom(view, grants, lookup, [])
  }

  /** A grant for the view whose token has no column entry. */
  predicate OpensView(view: string, g: Grant, lookup: ColumnLookup) {
    g.privilege == view && |lookup(view, g.token)| == 0
  }

  /** A column name granted to one of the caller's tokens for the view. */
  predicate GrantedByAny(view: string, grants: seq<Grant>, lookup: ColumnLookup, name: string) {
    exists i :: 0 <= i < |grants| && grants[i].privilege == view && name in lookup(view, grants[i].token)
  }

  lemma {:induction false} AccessFromMeaning(view: string, grants: seq<Grant>, lookup: ColumnLookup, acc: seq<string>)
    ensures AccessFrom(view, grants, lookup, acc).Unrestricted? <==>
      exists i :: 0 <= i < |grants| && OpensView(view, grants[i], lookup)
    ensures AccessFrom(view, grants, lookup, acc).Restricted? ==>
      var g := AccessFrom(view, grants, lookup, acc).granted;
      (forall x :: x in g <==> x in acc || GrantedByAny(view, grants, lookup, x))
      && (NoDuplicates(acc) ==> NoDuplicates(g))
    decreases |grants|
  {
    if |grants| > 0 {
      var next := if grants[0].privilege == view then AppendAbsent(acc, lookup(view, grants[0].token)) else acc;
      AccessFromMeaning(view, grants[1..], lookup, next);
      if exists i :: 0 <= i < |grants| && OpensView(view, grants[i], lookup) {
        var i :| 0 <= i < |grants| && OpensView(view, grants[i], lookup);
        if i > 0 {
          assert OpensView(view, grants[1..][i - 1], lookup);
        }
      }
      forall x
        ensures GrantedByAny(view, grants, lookup, x) <==>
          (grants[0].privilege == view && x in lookup(view, grants[0].token)) || GrantedByAny(view, grants[1..], lookup, x)
      {
        if GrantedByAny(view, grants, lookup, x) {
          var i :| 0 <= i < |grants| && grants[i].privilege == view && x in lookup(view, grants[i].token);
          if i > 0 {
            assert grants[1..][i - 1] == grants[i];
          }
        }
        if GrantedByAny(view, grants[1..], lookup, x) {
          var i :| 0 <= i < |grants[1..]| && grants[1..][i].privilege == view && x in lookup(view, grants[1..][i].token);
          assert grants[i + 1] == grants[1..][i];
        }
      }
    }
  }

  /** The view is unrestricted exactly when some grant for it has no column entry; otherwise the
      granted names are, without repetition, the names granted to any of the caller's tokens. */
  lemma ViewAccessMeaning(view: string, grants: seq<Grant>, lookup: ColumnLookup)
    ensures ViewAccess(view, grants, lookup).Unrestricted? <==>
      exists i :: 0 <= i < |grants| && OpensView(view, grants[i], lookup)
    ensures ViewAccess(view, grants, lookup).Restricted? ==>
      var g := ViewAccess(view, grants, lookup).granted;
      (forall x :: x in g <==> GrantedByAny(view, grants, lookup, x)) && NoDuplicates(g)
  {
    AccessFromMeaning(view, grants, lookup, []);
  }

  // ---- Removing the columns outside the grant ----

  /** The requested columns that are granted, in their order. */
  function KeptColumns(cols: seq<Column>, granted: seq<string>): (r: seq<Column>)
    ensures |r| <= |cols|
    ensures forall c :: c in r <==> c in cols && c.name in granted
  {
    if |cols| == 0 then []
    else (if cols[0].name in granted then [cols[0]] else []) + KeptColumns(cols[1..], granted)
  }

  /** The values that survive: the value at a position is kept when its column is granted or when
      the row is longer than the column list. */
  function Survivors(cols: seq<Column>, values: seq<Option<Value>>, granted: seq<string>): (r: seq<Option<Value>>)
    ensures |r| <= |values|
    decreases |values|
  {
    if |values| == 0 then []
    else if |cols| == 0 then values
    else (if cols[0].name in granted then [values[0]] else []) + Survivors(cols[1..], values[1..], granted)
  }

  /** Every column to be removed has a value in the row to remove with it. */
  predicate Removable(cols: seq<Column>, values: seq<Option<Value>>, granted: seq<string>) {
    forall p :: 0 <= p < |cols| && cols[p].name !in granted ==> p < |values|
  }

  /** The table restricted to the granted columns; a row too short to give up the value of a removed
      column fails, as the list removal does. */
  function KeepGranted(t: Table, granted: seq<string>): Result<Table> {
    if forall j :: 0 <= j < |t.rows| ==> Removable(t.columns, t.rows[j].values, granted) then
      Ok(t.(columns := KeptColumns(t.columns, granted),
            rows := seq(|t.rows|, j requires 0 <= j < |t.rows| => Row(Survivors(t.columns, t.rows[j].values, granted)))))
    else Err(IndexOutOfBounds)
  }

  lemma {:induction false} SurvivorsPrefix(c: seq<Column>, v: seq<Option<Value>>, granted: seq<string>)
    requires |c| <= |v|
    ensures Survivors(c, v, granted) == Survivors(c, v[..|c|], granted) + v[|c|..]
    ensures |Survivors(c, v[..|c|], granted)| == |KeptColumns(c, granted)|
    decreases |c|
  {
    if |c| > 0 {
      SurvivorsPrefix(c[1..], v[1..], granted);
      assert v[..|c|][1..] == v[1..][..|c| - 1];
      assert v[1..][|c| - 1..] == v[|c|..];
    }
  }

  lemma {:induction false} SurvivorsSnoc(c: seq<Column>, x: Column, v: seq<Option<Value>>, granted: seq<string>)
    requires |c| < |v|
    ensures Survivors(c + [x], v, granted) ==
      Survivors(c, v[..|c|], granted) + (if x.name in granted then [v[|c|]] else []) + v[|c| + 1..]
    decreases |c|
  {
    if |c| == 0 {
      assert v[..0] == [];
    } else {
      assert (c + [x])[1..] == c[1..] + [x];
      SurvivorsSnoc(c[1..], x, v[1..], granted);
      assert v[..|c|][1..] == v[1..][..|c| - 1];
      assert v[1..][|c| - 1] == v[|c|];
      assert v[1..][|c|..] == v[|c| + 1..];
    }
  }

  lemma {:induction false} SurvivorsShort(c: seq<Column>, v: seq<Option<Value>>, granted: seq<string>)
    requires |v| <= |c|
    ensures |Survivors(c, v, granted)| <= |KeptColumns(c, granted)|
    decreases |v|
  {
    if |v| > 0 {
      SurvivorsShort(c[1..], v[1..], granted);
    }
  }

  lemma {:induction false} KeptColumnsSnoc(c: seq<Column>, x: Column, granted: seq<string>)
    ensures KeptColumns(c + [x], granted) == KeptColumns(c, granted) + (if x.name in granted then [x] else [])
    decreases |c|
  {
    if |c| > 0 {
      assert (c + [x])[0] == c[0];
      assert (c + [x])[1..] == c[1..] + [x];
      KeptColumnsSnoc(c[1..], x, granted);
    } else {
      assert c + [x] == [x];
    }
  }

  /** One removal step on one row: dropping the value at the removed column's current position. */
  lemma RemoveStep(cols: seq<Column>, i: nat, v: seq<Option<Value>>, granted: seq<string>)
    requires i < |cols| && cols[i].name !in granted
    ensures var cur := Survivors(cols[..i], v, granted);
      var idx := |KeptColumns(cols[..i], granted)|;
      (i < |v| ==> idx < |cur| && Survivors(cols[..i + 1], v, granted) == cur[..idx] + cur[idx + 1..])
      && (i >= |v| ==> idx >= |cur|)
  {
    var c := cols[..i];
    assert cols[..i + 1] == c + [cols[i]];
    if i < |v| {
      SurvivorsPrefix(c, v, granted);
      SurvivorsSnoc(c, cols[i], v, granted);
      var pre := Survivors(c, v[..|c|], granted);
      var cur := Survivors(c, v, granted);
      assert cur == pre + v[i..];
      assert cur[..|pre|] == pre;
      assert cur[|pre| + 1..] == v[i + 1..];
    } else {
      SurvivorsShort(c, v, granted);
    }
  }

  lemma KeepStep(cols: seq<Column>, i: nat, v: seq<Option<Value>>, granted: seq<string>)
    requires i < |cols| && cols[i].name in granted
    ensures Survivors(cols[..i + 1], v, granted) == Survivors(cols[..i], v, granted)
  {
    var c := cols[..i];
    assert cols[..i + 1] == c + [cols[i]];
    if i < |v| {
      KeepInside(c, cols[i], v, granted);
    } else {
      SurvivorsLong(c, cols[i], v, granted);
    }
  }

  lemma KeepInside(c: seq<Column>, x: Column, v: seq<Option<Value>>, granted: seq<string>)
    requires |c| < |v| && x.name in granted
    ensures Survivors(c + [x], v, granted) == Survivors(c, v, granted)
  {
    SurvivorsPrefix(c, v, granted);
    SurvivorsSnoc(c, x, v, granted);
    ConsSplit(Survivors(c, v[..|c|], granted), v, |c|);
  }

  lemma ConsSplit<T>(pre: seq<T>, v: seq<T>, i: nat)
    requires i < |v|
    ensures pre + [v[i]] + v[i + 1..] == pre + v[i..]
  {
    assert v[i..] == [v[i]] + v[i + 1..];
  }

  lemma {:induction false} SurvivorsLong(c: seq<Column>, x: Column, v: seq<Option<Value>>, granted: seq<string>)
    requires |c| >= |v|
    ensures Survivors(c + [x], v, granted) == Survivors(c, v, granted)
    decreases |v|
  {
    if |v| > 0 {
      assert (c + [x])[1..] == c[1..] + [x];
      SurvivorsLong(c[1..], x, v[1..], granted);
    }
  }

  /** Removes the value at position `idx` from every row; a row without that position fails. */
  method DropValueAt(rows: seq<Row>, idx: nat) returns (r: Result<seq<Row>>)
    ensures r.Ok? <==> forall q :: 0 <= q < |rows| ==> idx < |rows[q].values|
    ensures r.Err? ==> r.error == IndexOutOfBounds
    ensures r.Ok? ==> |r.value| == |rows|
    ensures r.Ok? ==> forall q :: 0 <= q < |rows| ==> r.value[q].values == rows[q].values[..idx] + rows[q].values[idx + 1..]
  {
    var next: seq<Row> := [];
    var j := 0;
    while j < |rows|
      invariant 0 <= j <= |rows| && |next| == j
      invariant forall q :: 0 <= q < j ==> idx < |rows[q].values|
      invariant forall q :: 0 <= q < j ==> next[q].values == rows[q].values[..idx] + rows[q].values[idx + 1..]
    {
      var cur := rows[j].values;
      if idx >= |cur| {
        return Err(IndexOutOfBounds);
      }
      next := next + [Row(cur[..idx] + cur[idx + 1..])];
      j := j + 1;
    }
    return Ok(next);
  }

  /** The rows after the first `i` requested columns have been processed. */
  predicate RowsAfter(t: Table, granted: seq<string>, i: nat, rows: seq<Row>)
    requires i <= |t.columns|
  {
    && |rows| == |t.rows|
    && (forall j :: 0 <= j < |rows| ==> rows[j].values == Survivors(t.columns[..i], t.rows[j].values, granted))
    && (forall j :: 0 <= j < |rows| ==> Removable(t.columns[..i], t.rows[j].values, granted))
  }

  /** Processing a granted column leaves the rows as they are. */
  lemma KeepColumnStep(t: Table, granted: seq<string>, i: nat, rows: seq<Row>)
    requires i < |t.columns| && t.columns[i].name in granted && RowsAfter(t, granted, i, rows)
    ensures RowsAfter(t, granted, i + 1, rows)
  {
    forall q | 0 <= q < |rows|
      ensures rows[q].values == Survivors(t.columns[..i + 1], t.rows[q].values, granted)
      ensures Removable(t.columns[..i + 1], t.rows[q].values, granted)
    {
      KeepStep(t.columns, i, t.rows[q].values, granted);
      assert Removable(t.columns[..i], t.rows[q].values, granted);
    }
  }

  /** Removing the value at the column's current position from every row is the next step; it
      fails exactly when some row cannot give up a value for the column. */
  lemma DropColumnStep(t: Table, granted: seq<string>, i: nat, rows: seq<Row>)
    requires i < |t.columns| && t.columns[i].name !in granted && RowsAfter(t, granted, i, rows)
    ensures var idx := |KeptColumns(t.columns[..i], granted)|;
      forall q :: 0 <= q < |rows| ==>
        (i < |t.rows[q].values| <==> idx < |rows[q].values|) &&
        (idx < |rows[q].values| ==>
          Survivors(t.columns[..i + 1], t.rows[q].values, granted) == rows[q].values[..idx] + rows[q].values[idx + 1..])
  {
    forall q | 0 <= q < |rows|
      ensures var idx := |KeptColumns(t.columns[..i], granted)|;
        (i < |t.rows[q].values| <==> idx < |rows[q].values|) &&
        (idx < |rows[q].values| ==>
          Survivors(t.columns[..i + 1], t.rows[q].values, granted) == rows[q].values[..idx] + rows[q].values[idx + 1..])
    {
      RemoveStep(t.columns, i, t.rows[q].values, granted);
    }
  }

  lemma DroppedRowsAfter(t: Table, granted: seq<string>, i: nat, rows: seq<Row>, next: seq<Row>)
    requires i < |t.columns| && t.columns[i].name !in granted && RowsAfter(t, granted, i, rows)
    requires forall q :: 0 <= q < |rows| ==> i < |t.rows[q].values|
    requires |next| == |rows|
    requires forall q :: 0 <= q < |rows| ==>
      next[q].values == Survivors(t.columns[..i + 1], t.rows[q].values, granted)
    ensures RowsAfter(t, granted, i + 1, next)
  {
    forall q | 0 <= q < |next|
      ensures Removable(t.columns[..i + 1], t.rows[q].values, granted)
    {
      assert Removable(t.columns[..i], t.rows[q].values, granted);
    }
  }

  /** After the first `i` requested columns, the list holds the granted ones among them followed by
      the rest; removing the `i`th column at its current position, or keeping it, moves on by one. */
  lemma ColumnStep(cols: seq<Column>, i: nat, current: seq<Column>, granted: seq<string>)
    requires i < |cols| && current == KeptColumns(cols[..i], granted) + cols[i..]
    ensures var idx := |KeptColumns(cols[..i], granted)|;
      && idx < |current| && current[idx] == cols[i]
      && (cols[i].name !in granted ==> current[..idx] + current[idx + 1..] == KeptColumns(cols[..i + 1], granted) + cols[i + 1..])
      && (cols[i].name in granted ==> current == KeptColumns(cols[..i + 1], granted) + cols[i + 1..])
  {
    KeptColumnsSnoc(cols[..i], cols[i], granted);
    assert cols[..i + 1] == cols[..i] + [cols[i]];
    assert cols[i..] == [cols[i]] + cols[i + 1..];
    SpliceAt(KeptColumns(cols[..i], granted), cols[i], cols[i + 1..], current);
  }

  /** Removing the element right after a prefix leaves the prefix and the rest. */
  lemma SpliceAt<T>(prefix: seq<T>, x: T, rest: seq<T>, current: seq<T>)
    requires current == prefix + ([x] + rest)
    ensures |prefix| < |current| && current[|prefix|] == x
    ensures current[..|prefix|] + current[|prefix| + 1..] == prefix + rest
    ensures current == prefix + [x] + rest
  {
    assert current[..|prefix|] == prefix;
    assert current[|prefix| + 1..] == rest;
  }

  /** The columns of the view as the controller removes them: for each requested column outside
      the grant, in order, its value is removed from every row at the column's current position,
      then the column itself. */
  method RemoveUngranted(t: Table, granted: seq<string>) returns (r: Result<Table>)
    ensures r == KeepGranted(t, granted)
  {
    var cols := t.columns;
    var rows := t.rows;
    var i := 0;
    assert t.columns[..0] == [];
    while i < |t.columns|
      invariant 0 <= i <= |t.columns|
      invariant cols == KeptColumns(t.columns[..i], granted) + t.columns[i..]
      invariant RowsAfter(t, granted, i, rows)
    {
      var col := t.columns[i];
      ColumnStep(t.columns, i, cols, granted);
      if col.name !in granted {
        var idx := |KeptColumns(t.columns[..i], granted)|;
        DropColumnStep(t, granted, i, rows);
        var dropped := DropValueAt(rows, idx);
        if dropped.Err? {
          var q :| 0 <= q < |rows| && idx >= |rows[q].values|;
          ShortRowRefused(t, granted, i, q);
          return Err(IndexOutOfBounds);
        }
        DroppedRowsAfter(t, granted, i, rows, dropped.value);
        rows := dropped.value;
        cols := cols[..idx] + cols[idx + 1..];
      } else {
        KeepColumnStep(t, granted, i, rows);
      }
      i := i + 1;
    }
    RemovalComplete(t, granted, cols, rows);
    r := Ok(t.(columns := cols, rows := rows));
  }

  /** A row without a value for a removed column makes the restriction fail. */
  lemma ShortRowRefused(t: Table, granted: seq<string>, i: nat, q: nat)
    requires i < |t.columns| && t.columns[i].name !in granted && q < |t.rows| && i >= |t.rows[q].values|
    ensures KeepGranted(t, granted) == Err(IndexOutOfBounds)
  {
    assert !Removable(t.columns, t.rows[q].values, granted);
  }

  /** Once every requested column is processed, the columns and rows are the restriction's. */
  lemma RemovalComplete(t: Table, granted: seq<string>, cols: seq<Column>, rows: seq<Row>)
    requires cols == KeptColumns(t.columns[..|t.columns|], granted) + t.columns[|t.columns|..]
    requires RowsAfter(t, granted, |t.columns|, rows)
    ensures KeepGranted(t, granted) == Ok(t.(columns := cols, rows := rows))
  {
    assert t.columns[..|t.columns|] == t.columns && t.columns[|t.columns|..] == [];
    assert cols == KeptColumns(t.columns, granted);
    assert forall j :: 0 <= j < |t.rows| ==> Removable(t.columns, t.rows[j].values, granted);
    assert rows == seq(|t.rows|, j requires 0 <= j < |t.rows| => Row(Survivors(t.columns, t.rows[j].values, granted)));
  }

  /** Granted names as new text columns, for a request that named no column (`select *`). */
  function StringColumns(names: seq<string>): (r: seq<Column>)
    ensures |r| == |names| && forall k :: 0 <= k < |names| ==> r[k] == Column(names[k], STRING, INPUT)
  {
    if |names| == 0 then [] else [Column(names[0], STRING, INPUT)] + StringColumns(names[1..])
  }

  /** `columnSecurity`: an unrestricted view is returned untouched; otherwise a request without
      columns receives one text column per granted name, a request with columns loses those outside
      the grant, and a request left without any column is refused. */
  function SecureColumns(t: Table, grants: seq<Grant>, lookup: ColumnLookup): (r: Result<Table>)
    ensures ViewAccess(t.name, grants, lookup).Unrestricted? ==> r == Ok(t)
    ensures r.Ok? ==> r.value.name == t.name && r.value.metaData == t.metaData
    ensures r.Ok? && ViewAccess(t.name, grants, lookup).Restricted? ==> |r.value.columns| > 0
    ensures r.Err? ==> r.error == InsufficientColumnAccess(t.name) || r.error == IndexOutOfBounds
  {
    match ViewAccess(t.name, grants, lookup)
    case Unrestricted => Ok(t)
    case Restricted(granted) =>
      var u :- if |t.columns| == 0 then Ok(t.(columns := StringColumns(granted))) else KeepGranted(t, granted);
      if |u.columns| == 0 then Err(InsufficientColumnAccess(t.name)) else Ok(u)
  }

  /** On success every remaining column is granted (or the view is unrestricted and nothing changed);
      the requested columns that remain are exactly the granted ones, in order; name and meta data
      are kept. A refusal names the view. */
  lemma SecureColumnsRestricts(t: Table, grants: seq<Grant>, lookup: ColumnLookup)
    ensures ViewAccess(t.name, grants, lookup).Unrestricted? ==> SecureColumns(t, grants, lookup) == Ok(t)
    ensures SecureColumns(t, grants, lookup).Ok? ==>
      var u := SecureColumns(t, grants, lookup).value;
      u.name == t.name && u.metaData == t.metaData
    ensures SecureColumns(t, grants, lookup).Ok? && ViewAccess(t.name, grants, lookup).Restricted? ==>
      |SecureColumns(t, grants, lookup).value.columns| > 0
    ensures SecureColumns(t, grants, lookup).Ok? && ViewAccess(t.name, grants, lookup).Restricted? ==>
      forall c :: c in SecureColumns(t, grants, lookup).value.columns ==> GrantedByAny(t.name, grants, lookup, c.name)
    ensures SecureColumns(t, grants, lookup).Ok? && ViewAccess(t.name, grants, lookup).Restricted? && |t.columns| > 0 ==>
      forall c :: c in SecureColumns(t, grants, lookup).value.columns <==> c in t.columns && GrantedByAny(t.name, grants, lookup, c.name)
    ensures SecureColumns(t, grants, lookup).Err? && SecureColumns(t, grants, lookup).error.InsufficientColumnAccess? ==>
      SecureColumns(t, grants, lookup).error.table == t.name
  {
    ViewAccessMeaning(t.name, grants, lookup);
    var r := SecureColumns(t, grants, lookup);
    if r.Ok? && ViewAccess(t.name, grants, lookup).Restricted? && |t.columns| == 0 {
      var g := ViewAccess(t.name, grants, lookup).granted;
      forall c | c in r.value.columns
        ensures GrantedByAny(t.name, grants, lookup, c.name)
      {
        var k :| 0 <= k < |r.value.columns| && r.value.columns[k] == c;
        assert c.name == g[k];
      }
    }
  }

  /** Refusals: a row too short for a removed column, or nothing left to show. */
  lemma SecureColumnsRefuses(t: Table, grants: seq<Grant>, lookup: ColumnLookup)
    requires ViewAccess(t.name, grants, lookup).Restricted?
    ensures var g := ViewAccess(t.name, grants, lookup).granted;
      && (|t.columns| == 0 ==> (SecureColumns(t, grants, lookup).Err? <==> |g| == 0))
      && (|t.columns| > 0 ==>
            (SecureColumns(t, grants, lookup) == Err(IndexOutOfBounds) <==>
               exists j :: 0 <= j < |t.rows| && !Removable(t.columns, t.rows[j].values, g)))
      && (|t.columns| > 0 && (forall j :: 0 <= j < |t.rows| ==> Removable(t.columns, t.rows[j].values, g)) ==>
            (SecureColumns(t, grants, lookup).Err? <==> forall c :: c in t.columns ==> c.name !in g))
  {
    var g := ViewAccess(t.name, grants, lookup).granted;
    if |t.columns| > 0 && forall c :: c in t.columns ==> c.name !in g {
      NoneKept(t.columns, g);
    }
    if |t.columns| > 0 && exists c :: c in t.columns && c.name in g {
      var c :| c in t.columns && c.name in g;
      assert c in KeptColumns(t.columns, g);
    }
  }

  /** With no column granted, every column is removed. */
  lemma {:induction false} NoneKept(cols: seq<Column>, granted: seq<string>)
    requires forall c :: c in cols ==> c.name !in granted
    ensures KeptColumns(cols, granted) == []
  {
    if |cols| > 0 {
      assert cols[0] in cols;
      NoneKept(cols[1..], granted);
    }
  }

  /** With every column granted, nothing is removed. */
  lemma AllGrantedColumns(cols: seq<Column>, granted: seq<string>)
    requires forall c :: c in cols ==> c.name in granted
    ensures KeptColumns(cols, granted) == cols
  {
    if |cols| > 0 {
      assert cols[0] in cols;
      assert forall c :: c in cols[1..] ==> c in cols;
      AllGrantedColumns(cols[1..], granted);
    }
  }

  lemma {:induction false} AllGrantedValues(cols: seq<Column>, v: seq<Option<Value>>, granted: seq<string>)
    requires forall k :: 0 <= k < |cols| ==> cols[k].name in granted
    ensures Survivors(cols, v, granted) == v
    decreases |v|
  {
    if |v| > 0 && |cols| > 0 {
      assert cols[0].name in granted;
      AllGrantedValues(cols[1..], v[1..], granted);
    }
  }

  /** Securing a secured view changes nothing. */
  lemma SecureColumnsIdempotent(t: Table, grants: seq<Grant>, lookup: ColumnLookup)
    requires SecureColumns(t, grants, lookup).Ok?
    ensures SecureColumns(SecureColumns(t, grants, lookup).value, grants, lookup) == SecureColumns(t, grants, lookup)
  {
    if ViewAccess(t.name, grants, lookup).Restricted? {
      var g := ViewAccess(t.name, grants, lookup).granted;
      SecuredColumnsGranted(t, grants, lookup);
      KeepAllGranted(SecureColumns(t, grants, lookup).value, g);
    }
  }

  lemma SecuredColumnsGranted(t: Table, grants: seq<Grant>, lookup: ColumnLookup)
    requires SecureColumns(t, grants, lookup).Ok? && ViewAccess(t.name, grants, lookup).Restricted?
    ensures var u := SecureColumns(t, grants, lookup).value;
      u.name == t.name && forall c :: c in u.columns ==> c.name in ViewAccess(t.name, grants, lookup).granted
  {
    var u := SecureColumns(t, grants, lookup).value;
    var g := ViewAccess(t.name, grants, lookup).granted;
    if |t.columns| == 0 {
      forall c | c in u.columns
        ensures c.name in g
      {
        var k :| 0 <= k < |u.columns| && u.columns[k] == c;
      }
    }
  }

  /** A table whose columns are all granted is kept as it is. */
  lemma KeepAllGranted(u: Table, g: seq<string>)
    requires forall c :: c in u.columns ==> c.name in g
    ensures KeepGranted(u, g) == Ok(u)
  {
    forall j | 0 <= j < |u.rows|
      ensures Removable(u.columns, u.rows[j].values, g)
      ensures Survivors(u.columns, u.rows[j].values, g) == u.rows[j].values
    {
      AllGrantedValues(u.columns, u.rows[j].values, g);
    }
    AllGrantedColumns(u.columns, g);
    assert u.rows == seq(|u.rows|, j requires 0 <= j < |u.rows| => Row(Survivors(u.columns, u.rows[j].values, g)));
  }

  /** A view whose rows hold one value per column keeps that shape. */
  lemma {:induction false} SurvivorsAligned(c: seq<Column>, v: seq<Option<Value>>, granted: seq<string>)
    requires |v| == |c|
    ensures |Survivors(c, v, granted)| == |KeptColumns(c, granted)|
    decreases |c|
  {
    if |c| > 0 {
      SurvivorsAligned(c[1..], v[1..], granted);
    }
  }

  lemma SecureColumnsWellFormed(t: Table, grants: seq<Grant>, lookup: ColumnLookup)
    requires WellFormed(t) && |t.columns| > 0 && SecureColumns(t, grants, lookup).Ok?
    ensures WellFormed(SecureColumns(t, grants, lookup).value)
  {
    if ViewAccess(t.name, grants, lookup).Restricted? {
      var g := ViewAccess(t.name, grants, lookup).granted;
      var u := SecureColumns(t, grants, lookup).value;
      forall r | r in u.rows
        ensures |r.values| == |u.columns|
      {
        var j :| 0 <= j < |u.rows| && u.rows[j] == r;
        assert t.rows[j] in t.rows;
        SurvivorsAligned(t.columns, t.rows[j].values, g);
      }
    }
  }
}
