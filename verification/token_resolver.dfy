/** `loadPrivileges`: the security tokens a caller acts under. They come from the caller's user
    row (its memberships and its own token, or the user name for an unknown user), the
    authorities the directory supplied, and one lookup of the groups those tokens belong to. The
    user search and the group search are parameters. */
module TokenResolver {
  import opened Text
  import opened Domain

  /** The user row the user search found: its own security token and its `#`-separated
      memberships; `None` where the cell holds no string. */
  datatype UserEntry = UserEntry(securityToken: Option<string>, memberships: Option<string>)

  /** The group search: for the tokens asked about, the memberships cell of every group row found. */
  type GroupLookup = seq<string> -> seq<Option<string>>

  function TrimAll(parts: seq<string>): (r: seq<string>)
    ensures |r| == |parts| && forall k :: 0 <= k < |parts| ==> r[k] == Trim(parts[k])
  {
    if |parts| == 0 then [] else [Trim(parts[0])] + TrimAll(parts[1..])
  }

  /** The trimmed pieces of a `#`-separated token list. */
  function TokensOf(s: string): seq<string> {
    TrimAll(JavaSplit(s, '#'))
  }

  /** The tokens read from the user row: the memberships, then the row's own token (without `#`)
      unless a membership already names it. An unknown user acts under the user name. A cell
      without a string fails. */
  function BaseTokens(username: string, entry: Option<UserEntry>): (r: Result<seq<string>>)
    ensures entry.None? ==> r == Ok([username])
    ensures r.Err? <==> entry.Some? && (entry.value.memberships.None? || entry.value.securityToken.None?)
    ensures r.Err? ==> r.error == NullReference
  {
    match entry
    case None => Ok([username])
    case Some(e) =>
      if e.memberships.None? || e.securityToken.None? then Err(NullReference)
      else
        var listed := TokensOf(e.memberships.value);
        var unique := Trim(RemoveChar(e.securityToken.value, '#'));
        Ok(if unique in listed then listed else listed + [unique])
  }

  /** The tokens of all group rows found, in order; a row without a memberships string fails. */
  function GroupTokens(rows: seq<Option<string>>): (r: Result<seq<string>>)
    ensures r.Ok? <==> forall k :: 0 <= k < |rows| ==> rows[k].Some?
    ensures r.Ok? ==> forall x :: x in r.value <==> exists k :: 0 <= k < |rows| && x in TokensOf(rows[k].value)
  {
    if |rows| == 0 then Ok([])
    else
      match rows[0]
      case None => Err(NullReference)
      case Some(m) =>
        var rest :- GroupTokens(rows[1..]);
        assert forall k :: 0 <= k < |rows| - 1 ==> rows[1..][k] == rows[k + 1];
        Ok(TokensOf(m) + rest)
  }

  /** Every token but the empty string, in order. */
  function NonEmpty(tokens: seq<string>): (r: seq<string>)
    ensures forall x :: x in r <==> x in tokens && x != ""
    ensures |r| <= |tokens|
  {
    if |tokens| == 0 then []
    else
      var rest := NonEmpty(tokens[1..]);
      if tokens[0] == "" then rest else [tokens[0]] + rest
  }

  lemma {:induction false} NonEmptyAppend(a: seq<string>, b: seq<string>)
    ensures NonEmpty(a + b) == NonEmpty(a) + NonEmpty(b)
  {
    if |a| > 0 {
      assert (a + b)[1..] == a[1..] + b;
      NonEmptyAppend(a[1..], b);
    } else {
      assert a + b == b;
    }
  }

  lemma {:induction false} NonEmptyKeepsDistinct(tokens: seq<string>)
    requires NoDuplicates(tokens)
    ensures NoDuplicates(NonEmpty(tokens))
  {
    if |tokens| > 0 {
      NonEmptyKeepsDistinct(tokens[1..]);
      var rest := NonEmpty(tokens[1..]);
      if tokens[0] != "" {
        assert tokens[0] !in tokens[1..];
        var r := [tokens[0]] + rest;
        forall i, j | 0 <= i < j < |r|
          ensures r[i] != r[j]
        {
          if i == 0 {
            assert r[j] in rest;
          }
        }
      }
    }
  }

  /** The group search asks about every non-blank token, trimmed, in order. */
  function GroupQuery(tokens: seq<string>): seq<string> {
    NonEmpty(TrimAll(tokens))
  }

  /** `loadPrivileges`. The tokens from the user row and the directory's authorities come first; the
      group search is asked once, about those tokens, and only when at least one is non-blank; each
      group token not yet listed is added; empty tokens are dropped at the end. */
  function ResolveTokens(username: string, authorities: seq<string>, entry: Option<UserEntry>, groups: GroupLookup): (r: Result<seq<string>>)
    ensures r.Ok? ==> "" !in r.value
  {
    var base :- BaseTokens(username, entry);
    var tokens := base + authorities;
    var query := GroupQuery(tokens);
    var found :- if |query| > 0 then GroupTokens(groups(query)) else Ok([]);
    Ok(NonEmpty(AppendAbsent(tokens, found)))
  }

  /** The tokens of the user row and the authorities, in their order, lead the result. */
  lemma ResolveTokensOrder(username: string, authorities: seq<string>, entry: Option<UserEntry>, groups: GroupLookup)
    requires ResolveTokens(username, authorities, entry, groups).Ok?
    ensures var base := BaseTokens(username, entry).value;
      var r := ResolveTokens(username, authorities, entry, groups).value;
      |NonEmpty(base + authorities)| <= |r| && r[..|NonEmpty(base + authorities)|] == NonEmpty(base + authorities)
  {
    var tokens := BaseTokens(username, entry).value + authorities;
    var query := GroupQuery(tokens);
    var found := if |query| > 0 then GroupTokens(groups(query)).value else [];
    NonEmptyLeads(tokens, found);
  }

  lemma NonEmptyLeads(tokens: seq<string>, found: seq<string>)
    ensures var r := NonEmpty(AppendAbsent(tokens, found));
      |NonEmpty(tokens)| <= |r| && r[..|NonEmpty(tokens)|] == NonEmpty(tokens)
  {
    var all := AppendAbsent(tokens, found);
    assert all == tokens + all[|tokens|..];
    NonEmptyAppend(tokens, all[|tokens|..]);
  }

  /** A token is granted exactly when it is not empty and comes from the user row, from the
      authorities, or from the memberships of a group found for those tokens. */
  lemma ResolveTokensMembers(username: string, authorities: seq<string>, entry: Option<UserEntry>, groups: GroupLookup, x: string)
    requires ResolveTokens(username, authorities, entry, groups).Ok?
    ensures var tokens := BaseTokens(username, entry).value + authorities;
      var query := GroupQuery(tokens);
      x in ResolveTokens(username, authorities, entry, groups).value <==>
        x != "" && (x in tokens || (|query| > 0 && exists k :: 0 <= k < |groups(query)| && x in TokensOf(groups(query)[k].value)))
  {
  }

  /** When the user row and the authorities list no token twice, neither does the result. */
  lemma ResolveTokensDistinct(username: string, authorities: seq<string>, entry: Option<UserEntry>, groups: GroupLookup)
    requires ResolveTokens(username, authorities, entry, groups).Ok?
    requires NoDuplicates(BaseTokens(username, entry).value + authorities)
    ensures NoDuplicates(ResolveTokens(username, authorities, entry, groups).value)
  {
    var tokens := BaseTokens(username, entry).value + authorities;
    var query := GroupQuery(tokens);
    var found := if |query| > 0 then GroupTokens(groups(query)).value else [];
    NonEmptyKeepsDistinct(AppendAbsent(tokens, found));
  }

  /** Group resolution has a single level: the group search is consulted only about the tokens
      of the user row and the authorities, never about the tokens it returns. */
  lemma ResolveTokensSingleLevel(username: string, authorities: seq<string>, entry: Option<UserEntry>, groups: GroupLookup, other: GroupLookup)
    requires BaseTokens(username, entry).Ok?
    requires groups(GroupQuery(BaseTokens(username, entry).value + authorities))
          == other(GroupQuery(BaseTokens(username, entry).value + authorities))
    ensures ResolveTokens(username, authorities, entry, groups) == ResolveTokens(username, authorities, entry, other)
  {
  }

  /** An unknown user acts under the user name, the authorities and their groups' tokens. */
  lemma UnknownUser(username: string, authorities: seq<string>, groups: GroupLookup)
    requires username != ""
    ensures ResolveTokens(username, authorities, None, groups).Ok? ==>
      |ResolveTokens(username, authorities, None, groups).value| > 0 &&
      ResolveTokens(username, authorities, None, groups).value[0] == username
  {
    if ResolveTokens(username, authorities, None, groups).Ok? {
      ResolveTokensOrder(username, authorities, None, groups);
      assert ([username] + authorities)[1..] == authorities;
    }
  }

  /** A known user's own token is listed once more only when no membership names it already. */
  lemma KnownUserToken(username: string, token: string, memberships: string)
    ensures var listed := TokensOf(memberships);
      var unique := Trim(RemoveChar(token, '#'));
      var base := BaseTokens(username, Some(UserEntry(Some(token), Some(memberships)))).value;
      && |listed| <= |base| && base[..|listed|] == listed
      && unique in base
      && (unique in listed <==> |base| == |listed|)
  {
    var listed := TokensOf(memberships);
    var unique := Trim(RemoveChar(token, '#'));
    KnownUserBase(username, token, memberships);
    AddIfAbsent(listed, unique);
  }

  lemma KnownUserBase(username: string, token: string, memberships: string)
    ensures var listed := TokensOf(memberships);
      var unique := Trim(RemoveChar(token, '#'));
      BaseTokens(username, Some(UserEntry(Some(token), Some(memberships)))) ==
        Ok(if unique in listed then listed else listed + [unique])
  {
  }

  lemma AddIfAbsent(listed: seq<string>, x: string)
    ensures var r := if x in listed then listed else listed + [x];
      |listed| <= |r| && r[..|listed|] == listed && x in r && (x in listed <==> |r| == |listed|)
  {
  }
}
