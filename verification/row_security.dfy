/** Row-level security on the procedure side: finding the column that carries a row's security
    token, and deciding whether a row may be shown to a caller holding a given list of tokens. */
module RowSecurity {
  import opened Text
  import opened Domain

  /** `findSecurityTokenColumn`: the index of the last column named exactly `SecurityToken`, and 0
      when no column has that name. */
  function SecurityTokenColumn(cols: seq<Column>): (r: nat)
    ensures r == 0 || r < |cols|
  {
    if |cols| == 0 then 0
    else if cols[|cols| - 1].name == SECURITY_TOKEN_COLUMN then |cols| - 1
    else SecurityTokenColumn(cols[..|cols| - 1])
  }

  predicate HasTokenColumn(cols: seq<Column>) {
    exists k :: 0 <= k < |cols| && cols[k].name == SECURITY_TOKEN_COLUMN
  }

  /** The index found names the token column and no later column does; without such a column the
      index is 0, whatever the first column is called. */
  lemma {:induction false} SecurityTokenColumnMeaning(cols: seq<Column>)
    ensures HasTokenColumn(cols) ==>
      SecurityTokenColumn(cols) < |cols| && cols[SecurityTokenColumn(cols)].name == SECURITY_TOKEN_COLUMN &&
      forall k :: SecurityTokenColumn(cols) < k < |cols| ==> cols[k].name != SECURITY_TOKEN_COLUMN
    ensures !HasTokenColumn(cols) ==> SecurityTokenColumn(cols) == 0
  {
    if |cols| > 0 && cols[|cols| - 1].name != SECURITY_TOKEN_COLUMN {
      var init := cols[..|cols| - 1];
      SecurityTokenColumnMeaning(init);
      if HasTokenColumn(cols) {
        var k :| 0 <= k < |cols| && cols[k].name == SECURITY_TOKEN_COLUMN;
        assert init[k] == cols[k];
      }
      if HasTokenColumn(init) {
        var k :| 0 <= k < |init| && init[k].name == SECURITY_TOKEN_COLUMN;
        assert cols[k] == init[k];
      }
    }
  }

  /** The loop of `findSecurityTokenColumn`, front to back, overwriting the index at every match. */
  method FindSecurityTokenColumn(cols: seq<Column>) returns (idx: nat)
    ensures idx == SecurityTokenColumn(cols)
  {
    idx := 0;
    var i := 0;
    while i < |cols|
      invariant 0 <= i <= |cols|
      invariant idx == SecurityTokenColumn(cols[..i])
    {
      assert cols[..i + 1][..i] == cols[..i];
      if cols[i].name == SECURITY_TOKEN_COLUMN {
        idx := i;
      }
      i := i + 1;
    }
    assert cols[..|cols|] == cols;
  }

  /** `checkRowForValidSecurityToken`. With no tokens to check every row passes. Otherwise the
      value at the token column is read: a missing position or a `null` value fails, a value
      without a string payload passes, and a string passes exactly when its lower-case form is
      one of the tokens. */
  function CheckRow(tokens: seq<string>, row: Row, idx: nat): (r: Result<bool>)
    ensures |tokens| == 0 ==> r == Ok(true)
    ensures r.Err? <==> |tokens| > 0 && (idx >= |row.values| || row.values[idx].None?)
    ensures r.Err? ==> r.error == (if idx >= |row.values| then IndexOutOfBounds else NullReference)
    ensures r == Ok(false) <==>
      |tokens| > 0 && idx < |row.values| && row.values[idx].Some? &&
      StringValueOf(row.values[idx].value).Some? && ToLower(StringValueOf(row.values[idx].value).value) !in tokens
  {
    if |tokens| == 0 then Ok(true)
    else if idx >= |row.values| then Err(IndexOutOfBounds)
    else match row.values[idx]
      case None => Err(NullReference)
      case Some(v) =>
        match StringValueOf(v)
        case None => Ok(true)
        case Some(s) => Ok(ToLower(s) in tokens)
  }

  /** Lower-casing is idempotent, so a cell and its lower-case form fare alike. */
  lemma ToLowerIdempotent(s: string)
    ensures ToLower(ToLower(s)) == ToLower(s)
  {
  }

  /** Upper-case letters in the token cell do not matter: the cell's text and its lower-case form
      get the same verdict. */
  lemma CheckRowIgnoresCase(tokens: seq<string>, before: seq<Option<Value>>, s: string, rule: Option<string>, after: seq<Option<Value>>)
    ensures var idx := |before|;
      CheckRow(tokens, Row(before + [Some(Value(StringData(s), rule))] + after), idx) ==
      CheckRow(tokens, Row(before + [Some(Value(StringData(ToLower(s)), rule))] + after), idx)
  {
    ToLowerIdempotent(s);
    var idx := |before|;
    assert (before + [Some(Value(StringData(s), rule))] + after)[idx] == Some(Value(StringData(s), rule));
    assert (before + [Some(Value(StringData(ToLower(s)), rule))] + after)[idx] == Some(Value(StringData(ToLower(s)), rule));
  }

  /** Only the token cell is read: two rows that agree on it get the same verdict. */
  lemma CheckRowReadsTokenCell(tokens: seq<string>, a: Row, b: Row, idx: nat)
    requires idx < |a.values| && idx < |b.values| && a.values[idx] == b.values[idx]
    ensures CheckRow(tokens, a, idx) == CheckRow(tokens, b, idx)
  {
  }
}
