/** Java string operations the engine relies on, written out over `seq<char>`:
    `trim`, `contains`, `split` (with its trailing-empty-string rule), joining,
    character removal, ASCII case folding and decimal rendering of integers. */
module Text {

  /** `String.trim` removes every character whose code is at most U+0020. */
  predicate IsSpace(c: char) {
    c <= ' '
  }

  /** The index of the first non-space character at or after `i`, or `|s|` when there is none. */
  function SkipSpaces(s: string, i: nat): (j: nat)
    requires i <= |s|
    ensures i <= j <= |s| && (j == |s| || !IsSpace(s[j]))
    decreases |s| - i
  {
    if i < |s| && IsSpace(s[i]) then SkipSpaces(s, i + 1) else i
  }

  /** The index just past the last non-space character before `j`, or `lo` when there is none. */
  function SkipSpacesBack(s: string, lo: nat, j: nat): (k: nat)
    requires lo <= j <= |s|
    ensures lo <= k <= j && (k == lo || !IsSpace(s[k - 1]))
    decreases j
  {
    if j > lo && IsSpace(s[j - 1]) then SkipSpacesBack(s, lo, j - 1) else j
  }

  /** `String.trim`: the longest infix that neither starts nor ends with a space character. */
  function Trim(s: string): (r: string)
    ensures r == [] || (!IsSpace(r[0]) && !IsSpace(r[|r| - 1]))
  {
    var lo := SkipSpaces(s, 0);
    s[lo..SkipSpacesBack(s, lo, |s|)]
  }

  lemma {:induction false} SkipSpacesStops(s: string, i: nat)
    requires i < |s| && !IsSpace(s[|s| - 1])
    ensures SkipSpaces(s, i) < |s|
    decreases |s| - i
  {
    if IsSpace(s[i]) {
      SkipSpacesStops(s, i + 1);
    }
  }

  /** A string that ends in a non-space character does not trim to nothing. */
  lemma TrimNotBlank(s: string)
    requires |s| > 0 && !IsSpace(s[|s| - 1])
    ensures Trim(s) != ""
  {
    SkipSpacesStops(s, 0);
  }

  /** A string without leading or trailing spaces is its own trim. */
  lemma TrimOfTrimmed(s: string)
    requires s == [] || (!IsSpace(s[0]) && !IsSpace(s[|s| - 1]))
    ensures Trim(s) == s
  {
    assert s[0..|s|] == s;
  }

  /** Every character of the trimmed text occurs in the text. */
  lemma TrimIsInfix(s: string)
    ensures forall c :: c in Trim(s) ==> c in s
  {
    var lo := SkipSpaces(s, 0);
    var r := s[lo..SkipSpacesBack(s, lo, |s|)];
    assert forall c :: c in r ==> c in s;
  }

  /** `String.contains`: `sub` occurs somewhere in `s`. */
  predicate Contains(s: string, sub: string) {
    StartsWith(s, sub) || (|s| > 0 && Contains(s[1..], sub))
  }

  predicate StartsWith(s: string, prefix: string) {
    |prefix| <= |s| && s[..|prefix|] == prefix
  }

  predicate EndsWith(s: string, suffix: string) {
    |suffix| <= |s| && s[|s| - |suffix|..] == suffix
  }

  lemma StartsWithAppend(a: string, b: string)
    ensures StartsWith(a + b, a)
  {
    assert (a + b)[..|a|] == a;
  }

  lemma EndsWithAppend(a: string, b: string)
    ensures EndsWith(a + b, b)
  {
    assert (a + b)[|a|..] == b;
  }

  lemma Bracketed(a: string, b: string, c: string)
    ensures StartsWith(a + b + c, a) && EndsWith(a + b + c, c)
  {
    assert (a + b + c)[..|a|] == a;
    assert (a + b + c)[|a| + |b|..] == c;
  }

  lemma StartsWithTransitive(s: string, p: string, q: string)
    requires StartsWith(s, p) && StartsWith(p, q)
    ensures StartsWith(s, q)
  {
    assert s[..|q|] == s[..|p|][..|q|];
  }

  /** A character absent from every part and from the separator is absent from the joined text. */
  lemma {:induction false} JoinAbsent(parts: seq<string>, sep: string, c: char)
    requires c !in sep && forall k :: 0 <= k < |parts| ==> c !in parts[k]
    ensures c !in Join(parts, sep)
  {
    if |parts| > 1 {
      JoinAbsent(parts[1..], sep, c);
    }
  }

  /** No name occurs twice. */
  predicate NoDuplicates(names: seq<string>) {
    forall i, j :: 0 <= i < j < |names| ==> names[i] != names[j]
  }

  /** Appends, in order, every name not yet present: `List.contains` before `List.add`. */
  function AppendAbsent(acc: seq<string>, names: seq<string>): (r: seq<string>)
    ensures forall x :: x in r <==> x in acc || x in names
    ensures |acc| <= |r| && r[..|acc|] == acc
    ensures NoDuplicates(acc) ==> NoDuplicates(r)
    decreases |names|
  {
    if |names| == 0 then acc
    else
      var next := if names[0] in acc then acc else acc + [names[0]];
      assert next[..|acc|] == acc;
      AppendAbsent(next, names[1..])
  }

  /** The number of occurrences of `c` in `s`. */
  function CountChar(s: string, c: char): nat {
    if |s| == 0 then 0 else CountChar(s[..|s| - 1], c) + (if s[|s| - 1] == c then 1 else 0)
  }

  lemma {:induction false} CountCharAppend(a: string, b: string, c: char)
    ensures CountChar(a + b, c) == CountChar(a, c) + CountChar(b, c)
    decreases |b|
  {
    if |b| == 0 {
      assert a + b == a;
    } else {
      assert (a + b)[..|a + b| - 1] == a + b[..|b| - 1];
      CountCharAppend(a, b[..|b| - 1], c);
    }
  }

  lemma {:induction false} CountCharAbsent(s: string, c: char)
    requires c !in s
    ensures CountChar(s, c) == 0
    decreases |s|
  {
    if |s| > 0 {
      CountCharAbsent(s[..|s| - 1], c);
    }
  }

  /** Every piece between occurrences of the separator, empty ones included. */
  function SplitAll(s: string, sep: char): (parts: seq<string>)
    ensures |parts| >= 1
    ensures forall k :: 0 <= k < |parts| ==> sep !in parts[k]
  {
    if |s| == 0 then [""]
    else
      var rest := SplitAll(s[1..], sep);
      if s[0] == sep then [""] + rest else [[s[0]] + rest[0]] + rest[1..]
  }

  /** Joins the pieces with `sep` between neighbours. */
  function Join(parts: seq<string>, sep: string): string {
    if |parts| == 0 then ""
    else if |parts| == 1 then parts[0]
    else parts[0] + sep + Join(parts[1..], sep)
  }

  /** Splitting on a separator and joining with it again gives back the original text. */
  lemma {:induction false} SplitAllJoin(s: string, sep: char)
    ensures Join(SplitAll(s, sep), [sep]) == s
  {
    if |s| > 0 {
      var rest := SplitAll(s[1..], sep);
      SplitAllJoin(s[1..], sep);
      if s[0] == sep {
        assert SplitAll(s, sep) == [""] + rest;
        assert Join([""] + rest, [sep]) == [sep] + Join(rest, [sep]);
        assert [s[0]] + s[1..] == s;
      } else {
        var parts := [[s[0]] + rest[0]] + rest[1..];
        if |rest| == 1 {
          assert Join(parts, [sep]) == [s[0]] + rest[0];
          assert [s[0]] + s[1..] == s;
        } else {
          assert Join(parts, [sep]) == [s[0]] + rest[0] + [sep] + Join(rest[1..], [sep]);
          assert Join(rest, [sep]) == rest[0] + [sep] + Join(rest[1..], [sep]);
          assert [s[0]] + s[1..] == s;
        }
      }
    }
  }

  /** Splitting a text with no separator in it gives the text itself as the only piece. */
  lemma {:induction false} SplitAllNoSeparator(s: string, sep: char)
    requires sep !in s
    ensures SplitAll(s, sep) == [s]
  {
    if |s| > 0 {
      SplitAllNoSeparator(s[1..], sep);
      assert [s[0]] + s[1..] == s;
    }
  }

  lemma {:induction false} SplitAllAfterPiece(p: string, sep: char, rest: string)
    requires sep !in p
    ensures SplitAll(p + [sep] + rest, sep) == [p] + SplitAll(rest, sep)
  {
    if |p| == 0 {
      assert p + [sep] + rest == [sep] + rest;
      assert ([sep] + rest)[1..] == rest;
    } else {
      var s := p + [sep] + rest;
      assert s[0] == p[0];
      assert s[1..] == p[1..] + [sep] + rest;
      SplitAllAfterPiece(p[1..], sep, rest);
      assert [p[0]] + p[1..] == p;
    }
  }

  /** Joining pieces that do not contain the separator and splitting again gives back the pieces. */
  lemma {:induction false} SplitAllOfJoin(parts: seq<string>, sep: char)
    requires |parts| >= 1 && forall k :: 0 <= k < |parts| ==> sep !in parts[k]
    ensures SplitAll(Join(parts, [sep]), sep) == parts
  {
    if |parts| == 1 {
      SplitAllNoSeparator(parts[0], sep);
    } else {
      SplitAllOfJoin(parts[1..], sep);
      SplitAllAfterPiece(parts[0], sep, Join(parts[1..], [sep]));
      assert [parts[0]] + parts[1..] == parts;
    }
  }

  /** Every piece with `prefix` in front. */
  function Prefixed(parts: seq<string>, prefix: string): (r: seq<string>)
    ensures |r| == |parts| && forall k :: 0 <= k < |parts| ==> r[k] == prefix + parts[k]
  {
    if |parts| == 0 then [] else [prefix + parts[0]] + Prefixed(parts[1..], prefix)
  }

  lemma JoinPrefixFirst(x: string, a: string, rest: seq<string>, sep: string)
    ensures x + Join([a] + rest, sep) == Join([x + a] + rest, sep)
  {
    assert ([a] + rest)[1..] == rest;
    assert ([x + a] + rest)[1..] == rest;
  }

  /** A list joined with `", "` is the same text as the list with a space in front of every piece
      but the first, joined with `","`. */
  lemma {:induction false} JoinCommaSpace(names: seq<string>)
    requires |names| >= 1
    ensures Join(names, ", ") == Join([names[0]] + Prefixed(names[1..], " "), ",")
  {
    if |names| == 1 {
      assert [names[0]] + Prefixed(names[1..], " ") == [names[0]];
    } else {
      var rest := names[1..];
      JoinCommaSpace(rest);
      JoinPrefixFirst(" ", rest[0], Prefixed(rest[1..], " "), ",");
      assert Prefixed(rest, " ") == [" " + rest[0]] + Prefixed(rest[1..], " ");
      var r := [names[0]] + Prefixed(rest, " ");
      assert r[1..] == Prefixed(rest, " ");
      assert Join(r, ",") == names[0] + "," + Join(Prefixed(rest, " "), ",");
    }
  }

  function DropTrailingEmpty(parts: seq<string>): (r: seq<string>)
    ensures |r| <= |parts| && r == parts[..|r|]
    ensures r == [] || r[|r| - 1] != ""
    ensures forall k :: |r| <= k < |parts| ==> parts[k] == ""
  {
    if |parts| > 0 && parts[|parts| - 1] == "" then DropTrailingEmpty(parts[..|parts| - 1]) else parts
  }

  /** `String.split` with a one-character separator and no limit: without any occurrence of
      the separator the whole string (even the empty one) is the single piece; otherwise
      trailing empty pieces are removed. */
  function JavaSplit(s: string, sep: char): (parts: seq<string>)
    ensures forall k :: 0 <= k < |parts| ==> sep !in parts[k]
  {
    if sep !in s then [s] else DropTrailingEmpty(SplitAll(s, sep))
  }

  /** `n` copies of `s`. */
  function Repeat(s: string, n: nat): (r: seq<string>)
    ensures |r| == n && forall k :: 0 <= k < n ==> r[k] == s
  {
    if n == 0 then [] else [s] + Repeat(s, n - 1)
  }

  /** The comma-separated placeholder list `?, ?, ?` with `n` entries. */
  function Placeholders(n: nat): string {
    Join(Repeat("?", n), ", ")
  }

  lemma {:induction false} PlaceholdersCount(n: nat)
    ensures CountChar(Placeholders(n), '?') == n
  {
    if n == 1 {
      assert Placeholders(1) == "?";
      assert "?"[..0] == "";
    } else if n > 1 {
      assert Repeat("?", n)[1..] == Repeat("?", n - 1);
      assert Placeholders(n) == "?" + ", " + Placeholders(n - 1);
      PlaceholdersCount(n - 1);
      CountCharAppend("?" + ", ", Placeholders(n - 1), '?');
      CountCharAppend("?", ", ", '?');
      assert "?"[..0] == "";
      CountCharAbsent(", ", '?');
    }
  }

  /** `String.replace(c, "")`: every occurrence of `c` removed, the rest kept in order. */
  function RemoveChar(s: string, c: char): (r: string)
    ensures c !in r
    ensures |r| <= |s|
  {
    if |s| == 0 then "" else (if s[0] == c then "" else [s[0]]) + RemoveChar(s[1..], c)
  }

  /** ASCII case mapping (the engine's tokens and reserved names are ASCII). */
  function LowerChar(c: char): char {
    if 'A' <= c <= 'Z' then (c as int + 32) as char else c
  }

  function UpperChar(c: char): char {
    if 'a' <= c <= 'z' then (c as int - 32) as char else c
  }

  /** `String.toLowerCase` on ASCII letters. */
  function ToLower(s: string): (r: string)
    ensures |r| == |s| && forall i :: 0 <= i < |s| ==> r[i] == LowerChar(s[i])
  {
    if |s| == 0 then "" else [LowerChar(s[0])] + ToLower(s[1..])
  }

  /** `String.equalsIgnoreCase`: same length and every pair of characters equal after case mapping. */
  predicate EqualsIgnoreCase(a: string, b: string) {
    |a| == |b| &&
    forall i :: 0 <= i < |a| ==>
      a[i] == b[i] || UpperChar(a[i]) == UpperChar(b[i]) || LowerChar(a[i]) == LowerChar(b[i])
  }

  /** A name made of characters without case is compared case-insensitively exactly as with `equals`. */
  lemma CaselessNameEquality(a: string, b: string)
    requires forall i :: 0 <= i < |a| ==> !('a' <= a[i] <= 'z') && !('A' <= a[i] <= 'Z')
    ensures EqualsIgnoreCase(a, b) <==> a == b
  {
    if EqualsIgnoreCase(a, b) {
      forall i | 0 <= i < |a|
        ensures a[i] == b[i]
      {
      }
    }
  }

  function DigitChar(d: nat): char
    requires d < 10
  {
    "0123456789"[d]
  }

  /** Decimal rendering of a natural number, most significant digit first. */
  function NatToString(n: nat): (r: string)
    ensures |r| > 0
    ensures forall i :: 0 <= i < |r| ==> '0' <= r[i] <= '9'
  {
    if n < 10 then [DigitChar(n)] else NatToString(n / 10) + [DigitChar(n % 10)]
  }

  /** `Integer.toString`: a minus sign for negative numbers, then the digits. */
  function IntToString(i: int): (r: string)
    ensures |r| > 0
    ensures i >= 0 ==> forall k :: 0 <= k < |r| ==> '0' <= r[k] <= '9'
  {
    if i < 0 then "-" + NatToString(-i) else NatToString(i)
  }

  /** Reads a run of decimal digits back into its value. */
  function ParseNat(s: string): nat
    requires forall i :: 0 <= i < |s| ==> '0' <= s[i] <= '9'
  {
    if |s| == 0 then 0 else ParseNat(s[..|s| - 1]) * 10 + (s[|s| - 1] as int - '0' as int)
  }

  /** The rendering of a natural number is read back as the same number. */
  lemma {:induction false} NatToStringRoundTrip(n: nat)
    ensures ParseNat(NatToString(n)) == n
  {
    if n >= 10 {
      var s := NatToString(n);
      assert s[..|s| - 1] == NatToString(n / 10);
      NatToStringRoundTrip(n / 10);
    }
  }
}
