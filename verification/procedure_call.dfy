/** The JDBC escape string that calls a stored procedure: `{call Name(?,?)}`, or
    `{? = call Name(?,?)}` when the call's strategy wants the procedure's return code. */
module ProcedureCall {
  import opened Text
  import opened Domain

  const PROCEDURE_NULL_NAME := "msg.ProcedureNullName"

  /** The placeholder list for `n` parameters: `?` for the first, `,?` for each further one. */
  function ParameterList(n: nat): (r: string)
    ensures |r| == (if n == 0 then 0 else 2 * n - 1)
  {
    if n == 0 then "" else if n == 1 then "?" else ParameterList(n - 1) + ",?"
  }

  /** The placeholder list is the `,`-join of `n` single placeholders. */
  lemma {:induction false} ParameterListIsJoin(n: nat)
    ensures ParameterList(n) == Join(Repeat("?", n), ",")
  {
    if n > 1 {
      ParameterListIsJoin(n - 1);
      JoinSnocPlaceholder(n - 1);
    }
  }

  lemma {:induction false} JoinSnocPlaceholder(n: nat)
    requires n >= 1
    ensures Join(Repeat("?", n + 1), ",") == Join(Repeat("?", n), ",") + ",?"
  {
    assert Repeat("?", n + 1)[1..] == Repeat("?", n);
    if n > 1 {
      JoinSnocPlaceholder(n - 1);
      assert Repeat("?", n)[1..] == Repeat("?", n - 1);
    }
  }

  /** Splitting the list at its commas gives back one `?` per parameter. */
  lemma ParameterListSplits(n: nat)
    requires n >= 1
    ensures SplitAll(ParameterList(n), ',') == Repeat("?", n)
  {
    ParameterListIsJoin(n);
    forall k | 0 <= k < |Repeat("?", n)|
      ensures ',' !in Repeat("?", n)[k]
    {
    }
    SplitAllOfJoin(Repeat("?", n), ',');
  }

  /** The list holds exactly one placeholder per parameter. */
  lemma {:induction false} ParameterListCount(n: nat)
    ensures CountChar(ParameterList(n), '?') == n
  {
    if n == 1 {
      assert "?"[..0] == "";
    } else if n > 1 {
      ParameterListCount(n - 1);
      CountCharAppend(ParameterList(n - 1), ",?", '?');
      assert ",?"[..1] == ",";
      assert ","[..0] == "";
    }
  }

  /** The return placeholder, in front of the call keyword when a return is required. */
  function CallOpening(returnRequired: bool): string {
    (if returnRequired then "?" + " = " else "") + "call "
  }

  /** `prepareProcedureString`: a missing or blank procedure name is rejected; otherwise the call
      string names the procedure and carries one placeholder per column, after a leading return
      placeholder when the strategy requires a return code. */
  function PrepareProcedureString(t: Table, returnRequired: bool): (r: Result<string>)
    ensures r.Err? <==> Trim(t.name) == ""
    ensures r.Err? ==> r.error == IllegalArgument(PROCEDURE_NULL_NAME)
    ensures r.Ok? ==>
      r.value == "{" + (if returnRequired then "? = call " else "call ") + t.name + "(" + Join(Repeat("?", |t.columns|), ",") + ")}"
  {
    if Trim(t.name) == "" then Err(IllegalArgument(PROCEDURE_NULL_NAME))
    else
      ParameterListIsJoin(|t.columns|);
      OpeningWords(returnRequired);
      Ok("{" + CallOpening(returnRequired) + t.name + "(" + ParameterList(|t.columns|) + ")}")
  }

  lemma OpeningWords(returnRequired: bool)
    ensures CallOpening(returnRequired) == if returnRequired then "? = call " else "call "
  {
  }

  lemma CountFour(a: string, b: string, c: string, d: string, x: char)
    ensures CountChar(a + b + c + d, x) == CountChar(a, x) + CountChar(b, x) + CountChar(c, x) + CountChar(d, x)
  {
    CountCharAppend(a + b + c, d, x);
    CountCharAppend(a + b, c, x);
    CountCharAppend(a, b, x);
  }

  lemma OpeningCount(returnRequired: bool)
    ensures CountChar("{" + CallOpening(returnRequired), '?') == (if returnRequired then 1 else 0)
  {
    var mark := if returnRequired then "?" + " = " else "";
    assert "{" + CallOpening(returnRequired) == "{" + mark + "call ";
    CountCharAppend("{" + mark, "call ", '?');
    CountCharAppend("{", mark, '?');
    CountCharAbsent("{", '?');
    CountCharAbsent("call ", '?');
    if returnRequired {
      CountCharAppend("?", " = ", '?');
      assert "?"[..0] == "";
      CountCharAbsent(" = ", '?');
    } else {
      assert mark == "";
    }
  }

  /** The statement asks for one parameter per column, plus the return code when one is required,
      so the parameter indices the binder uses (`column + 2` with a return slot) line up. */
  lemma CallPlaceholders(t: Table, returnRequired: bool)
    requires Trim(t.name) != "" && '?' !in t.name
    ensures var r := PrepareProcedureString(t, returnRequired);
      r.Ok? && CountChar(r.value, '?') == |t.columns| + (if returnRequired then 1 else 0)
  {
    var opening := "{" + CallOpening(returnRequired);
    assert PrepareProcedureString(t, returnRequired).value == opening + (t.name + "(") + ParameterList(|t.columns|) + ")}";
    CountFour(opening, t.name + "(", ParameterList(|t.columns|), ")}", '?');
    OpeningCount(returnRequired);
    CountCharAbsent(t.name + "(", '?');
    CountCharAbsent(")}", '?');
    ParameterListCount(|t.columns|);
  }

  /** The statement is enclosed in the escape braces, and a return placeholder follows the opening
      brace exactly when a return is required. */
  lemma CallShape(t: Table, returnRequired: bool)
    requires Trim(t.name) != ""
    ensures var r := PrepareProcedureString(t, returnRequired);
      r.Ok? && |r.value| > 1 && r.value[0] == '{' && (r.value[1] == '?' <==> returnRequired) && EndsWith(r.value, ")}")
  {
    var opening := CallOpening(returnRequired);
    assert opening[0] == (if returnRequired then '?' else 'c');
    Braced(opening, t.name + "(" + ParameterList(|t.columns|));
  }

  lemma Braced(opening: string, rest: string)
    requires |opening| > 0
    ensures var r := "{" + opening + rest + ")}";
      |r| > 1 && r[0] == '{' && r[1] == opening[0] && EndsWith(r, ")}")
  {
    EndsWithAppend("{" + opening + rest, ")}");
  }
}
