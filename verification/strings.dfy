/** Character classes and string helpers used by the parser, the printer and
    the importer. Strings are sequences of Unicode scalar values, as Rust `char`s. */
module Strings {
  import opened Outcomes

  /** Rust's `char::is_whitespace`: the characters with the Unicode White_Space property. */
  predicate IsWhitespace(c: char) {
    || ('\t' <= c <= '\r')
    || c == ' '
    || c == '\U{0085}'
    || c == '\U{00A0}'
    || c == '\U{1680}'
    || ('\U{2000}' <= c <= '\U{200A}')
    || c == '\U{2028}'
    || c == '\U{2029}'
    || c == '\U{202F}'
    || c == '\U{205F}'
    || c == '\U{3000}'
  }

  predicate AllWhitespace(s: string) {
    forall i :: 0 <= i < |s| ==> IsWhitespace(s[i])
  }

  predicate StartsWith(s: string, prefix: string) {
    |prefix| <= |s| && s[..|prefix|] == prefix
  }

  predicate EndsWith(s: string, suffix: string) {
    |suffix| <= |s| && s[|s| - |suffix|..] == suffix
  }

  /** A string that differs from `prefix` at some position does not start with it. */
  lemma DiffersAt(s: string, prefix: string, i: nat)
    requires i < |prefix| && i < |s| && s[i] != prefix[i]
    ensures !StartsWith(s, prefix)
  {
    if |prefix| <= |s| {
      assert s[..|prefix|][i] == s[i];
    }
  }

  /** `n` copies of `unit` one after another. */
  function Repeat(unit: string, n: nat): (r: string)
    ensures |r| == n * |unit|
  {
    if n == 0 then "" else unit + Repeat(unit, n - 1)
  }

  lemma {:induction false} RepeatWhitespace(unit: string, n: nat)
    requires AllWhitespace(unit)
    ensures AllWhitespace(Repeat(unit, n))
  {
    if n > 0 {
      RepeatWhitespace(unit, n - 1);
      var r := Repeat(unit, n - 1);
      assert Repeat(unit, n) == unit + r;
      forall i | 0 <= i < |unit + r|
        ensures IsWhitespace((unit + r)[i])
      {
        if i < |unit| {
          assert (unit + r)[i] == unit[i];
        } else {
          assert (unit + r)[i] == r[i - |unit|];
        }
      }
    }
  }

  /** The parts written one after another, appended from the left. */
  function Concat(parts: seq<string>): string {
    if |parts| == 0 then "" else Concat(parts[..|parts| - 1]) + parts[|parts| - 1]
  }

  /** The parts written one after another with `sep` between neighbours,
      appended from the left. */
  function Join(sep: string, parts: seq<string>): string {
    if |parts| == 0 then ""
    else if |parts| == 1 then parts[0]
    else Join(sep, parts[..|parts| - 1]) + sep + parts[|parts| - 1]
  }

  /** Concatenation can equally be taken apart from the front. */
  lemma {:induction false} ConcatCons(a: string, rest: seq<string>)
    ensures Concat([a] + rest) == a + Concat(rest)
    decreases |rest|
  {
    if |rest| > 0 {
      var all := [a] + rest;
      assert all[..|all| - 1] == [a] + rest[..|rest| - 1];
      ConcatCons(a, rest[..|rest| - 1]);
    } else {
      assert [a] + rest == [a];
      assert [a][..0] == [];
    }
  }

  /** Concatenation can be taken apart around any one part. */
  lemma {:induction false} ConcatSplit(parts: seq<string>, k: nat)
    requires k < |parts|
    ensures Concat(parts) == Concat(parts[..k]) + parts[k] + Concat(parts[k + 1..])
    decreases |parts|
  {
    var n := |parts|;
    if k == n - 1 {
      assert parts[k + 1..] == [];
    } else {
      var front := parts[..n - 1];
      ConcatSplit(front, k);
      assert front[..k] == parts[..k];
      assert front[k + 1..] == parts[k + 1..][..|parts[k + 1..]| - 1];
    }
  }

  /** Joining can equally be taken apart from the front. */
  lemma {:induction false} JoinCons(sep: string, a: string, rest: seq<string>)
    requires |rest| > 0
    ensures Join(sep, [a] + rest) == a + sep + Join(sep, rest)
    decreases |rest|
  {
    var all := [a] + rest;
    if |rest| == 1 {
      assert all[..1] == [a];
    } else {
      assert all[..|all| - 1] == [a] + rest[..|rest| - 1];
      JoinCons(sep, a, rest[..|rest| - 1]);
    }
  }

  /** Every character of `s` outside positions `i` to `j` is whitespace. */
  predicate PaddedOutside(s: string, i: int, j: int) {
    forall k :: 0 <= k < |s| && (k < i || j <= k) ==> IsWhitespace(s[k])
  }

  /** `str::trim_start`: drops leading whitespace. */
  function TrimStart(s: string): (r: string)
    ensures |r| <= |s| && r == s[|s| - |r|..]
    ensures PaddedOutside(s, |s| - |r|, |s|)
    ensures |r| > 0 ==> !IsWhitespace(r[0])
  {
    if |s| > 0 && IsWhitespace(s[0]) then
      var r := TrimStart(s[1..]);
      assert forall k :: 1 <= k < |s| ==> s[k] == s[1..][k - 1];
      r
    else
      s
  }

  /** `str::trim_end`: drops trailing whitespace. */
  function TrimEnd(s: string): (r: string)
    ensures |r| <= |s| && r == s[..|r|]
    ensures PaddedOutside(s, 0, |r|)
    ensures |r| > 0 ==> !IsWhitespace(r[|r| - 1])
  {
    if |s| > 0 && IsWhitespace(s[|s| - 1]) then
      var r := TrimEnd(s[..|s| - 1]);
      assert forall k :: 0 <= k < |s| - 1 ==> s[k] == s[..|s| - 1][k];
      r
    else
      s
  }

  /** `str::trim`: the text between the leading and the trailing whitespace. */
  function Trim(s: string): (r: string)
    ensures |r| <= |s|
    ensures exists i, j :: 0 <= i <= j <= |s| && r == s[i..j] && PaddedOutside(s, i, j)
    ensures |r| > 0 ==> !IsWhitespace(r[0]) && !IsWhitespace(r[|r| - 1])
  {
    var a := TrimStart(s);
    var r := TrimEnd(a);
    TrimParts(s, a, r);
    var i := |s| - |a|;
    var j := i + |r|;
    assert 0 <= i <= j <= |s| && r == s[i..j] && PaddedOutside(s, i, j);
    r
  }

  lemma TrimParts(s: string, a: string, r: string)
    requires |a| <= |s| && a == s[|s| - |a|..] && PaddedOutside(s, |s| - |a|, |s|)
    requires |r| <= |a| && r == a[..|r|] && PaddedOutside(a, 0, |r|)
    ensures var i := |s| - |a|; r == s[i..i + |r|] && PaddedOutside(s, i, i + |r|)
  {
    var i := |s| - |a|;
    assert s[i..i + |r|] == a[..|r|];
    forall k | 0 <= k < |s| && (k < i || i + |r| <= k)
      ensures IsWhitespace(s[k])
    {
      if k >= i {
        assert s[k] == a[k - i];
      }
    }
  }

  /** Position of the last occurrence of `c` in `s`. */
  function LastIndexOf(s: string, c: char): (r: Option<nat>)
    ensures r.Some? ==> r.value < |s| && s[r.value] == c && c !in s[r.value + 1..]
    ensures r.None? <==> c !in s
  {
    if |s| == 0 then None
    else if s[|s| - 1] == c then Some(|s| - 1)
    else
      var r := LastIndexOf(s[..|s| - 1], c);
      assert s == s[..|s| - 1] + [s[|s| - 1]];
      if r.Some? then
        assert s[r.value + 1..] == s[..|s| - 1][r.value + 1..] + [s[|s| - 1]];
        r
      else r
  }

  /** Text that neither starts nor ends with whitespace is its own trim. */
  lemma TrimUnpadded(s: string)
    requires |s| > 0 ==> !IsWhitespace(s[0]) && !IsWhitespace(s[|s| - 1])
    ensures Trim(s) == s
  {
    assert TrimStart(s) == s;
    assert TrimEnd(s) == s;
  }
}
