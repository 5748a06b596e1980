/** The .NET string operations the save system composes its file format,
    paths and type names from, each with the meaning the runtime gives it. */
module Strings {
  import opened Seqs

  predicate StartsWith(s: string, prefix: string) {
    |prefix| <= |s| && s[..|prefix|] == prefix
  }

  predicate EndsWith(s: string, suffix: string) {
    |suffix| <= |s| && s[|s| - |suffix|..] == suffix
  }

  /** `String.Split(char)`: the pieces between separators; never empty. */
  function Split(s: string, sep: char): (parts: seq<string>)
    ensures |parts| >= 1
    decreases |s|
  {
    if sep !in s then [s]
    else
      var i := IndexOf(s, sep);
      [s[..i]] + Split(s[i + 1..], sep)
  }

  /** `String.Join` with a one-character separator. */
  function Join(sep: char, parts: seq<string>): string {
    if |parts| == 0 then ""
    else if |parts| == 1 then parts[0]
    else parts[0] + [sep] + Join(sep, parts[1..])
  }

  /** `String.Replace(char, char)`. */
  function ReplaceChar(s: string, from: char, to: char): (r: string)
    ensures |r| == |s|
    ensures forall i :: 0 <= i < |s| ==> r[i] == (if s[i] == from then to else s[i])
  {
    seq(|s|, i requires 0 <= i < |s| => if s[i] == from then to else s[i])
  }

  /** `String.Replace(string, string)`: every non-overlapping occurrence of
      `pat`, scanning left to right, is replaced by `rep`. The runtime
      rejects an empty `pat`. */
  function ReplaceAll(s: string, pat: string, rep: string): string
    requires |pat| > 0
    decreases |s|
  {
    if |s| < |pat| then s
    else if s[..|pat|] == pat then rep + ReplaceAll(s[|pat|..], pat, rep)
    else [s[0]] + ReplaceAll(s[1..], pat, rep)
  }

  /** Decimal digits of a natural number. */
  function NatToString(n: nat): (r: string)
    ensures |r| > 0
    ensures forall c :: c in r ==> '0' <= c <= '9'
  {
    var d := ['0', '1', '2', '3', '4', '5', '6', '7', '8', '9'];
    if n < 10 then [d[n]] else NatToString(n / 10) + [d[n % 10]]
  }

  /** `Int32.ToString()` with the invariant culture: an optional minus sign
      followed by decimal digits. */
  function IntToString(n: int): (r: string)
    ensures |r| > 0
    ensures forall c :: c in r ==> c == '-' || '0' <= c <= '9'
  {
    if n < 0 then "-" + NatToString(-n) else NatToString(n)
  }

  /** A text holding the separator splits into the text before its first
      occurrence and the pieces of the text after it. */
  lemma SplitAtFirst(s: string, sep: char)
    requires sep in s
    ensures Split(s, sep) == [s[..IndexOf(s, sep)]] + Split(s[IndexOf(s, sep) + 1..], sep)
  {
  }

  /** Splitting at a first separator peels off the text before it. */
  lemma SplitCons(a: string, b: string, sep: char)
    requires sep !in a
    ensures Split(a + [sep] + b, sep) == [a] + Split(b, sep)
  {
    var s := a + [sep] + b;
    assert s[..|a|] == a;
    IndexOfAt(s, sep, |a|);
    assert s[|a| + 1..] == b;
  }

  /** Splitting at a last separator adds the text after it as a final piece. */
  lemma {:induction false} SplitSnoc(a: string, b: string, sep: char)
    requires sep !in b
    ensures Split(a + [sep] + b, sep) == Split(a, sep) + [b]
    decreases |a|
  {
    var s := a + [sep] + b;
    if sep !in a {
      SplitCons(a, b, sep);
    } else {
      var i := IndexOf(a, sep);
      var p, q := a[..i], a[i + 1..];
      assert a == p + [sep] + q;
      assert s == p + [sep] + (q + [sep] + b);
      SplitCons(p, q + [sep] + b, sep);
      SplitSnoc(q, b, sep);
      SplitCons(p, q, sep);
      calc {
        Split(s, sep);
        [p] + Split(q + [sep] + b, sep);
        [p] + (Split(q, sep) + [b]);
        ([p] + Split(q, sep)) + [b];
        Split(a, sep) + [b];
      }
    }
  }

  /** Joining the pieces of a split with the same separator restores the text. */
  lemma {:induction false} JoinSplit(s: string, sep: char)
    ensures Join(sep, Split(s, sep)) == s
    decreases |s|
  {
    if sep in s {
      var i := IndexOf(s, sep);
      JoinSplit(s[i + 1..], sep);
      assert s == s[..i] + [sep] + s[i + 1..];
    }
  }

  /** Joining after an empty first piece puts one separator in front. */
  lemma JoinEmptyHead(sep: char, parts: seq<string>)
    requires |parts| >= 1
    ensures Join(sep, [""] + parts) == [sep] + Join(sep, parts)
  {
    assert ([""] + parts)[1..] == parts;
  }

  /** Removing a one-character pattern that does not occur changes nothing. */
  lemma {:induction false} ReplaceAllAbsentChar(s: string, c: char, rep: string)
    requires c !in s
    ensures ReplaceAll(s, [c], rep) == s
    decreases |s|
  {
    if |s| >= 1 {
      assert s[..1] == [s[0]];
      ReplaceAllAbsentChar(s[1..], c, rep);
    }
  }

  /** Replacing a pattern by itself is the identity. */
  lemma {:induction false} ReplaceAllSame(s: string, pat: string)
    requires |pat| > 0
    ensures ReplaceAll(s, pat, pat) == s
    decreases |s|
  {
    if |s| >= |pat| {
      if s[..|pat|] == pat {
        ReplaceAllSame(s[|pat|..], pat);
        assert s == pat + s[|pat|..];
      } else {
        ReplaceAllSame(s[1..], pat);
        assert s == [s[0]] + s[1..];
      }
    }
  }

  /** No occurrence of `pat` in `n + pat` starts inside `n`. */
  predicate NoEarlyMatch(n: string, pat: string) {
    forall p :: 0 <= p < |n| ==> !MatchAt(n + pat, pat, p)
  }

  /** `pat` occurs in `s` at position `p`. */
  predicate MatchAt(s: string, pat: string, p: nat) {
    p + |pat| <= |s| && s[p..p + |pat|] == pat
  }

  /** A name ending in `pat`, with no earlier occurrence of it, has exactly
      that suffix replaced. */
  lemma {:induction false} ReplaceAllSuffix(n: string, pat: string, rep: string)
    requires |pat| > 0
    requires NoEarlyMatch(n, pat)
    ensures ReplaceAll(n + pat, pat, rep) == n + rep
    decreases |n|
  {
    if |n| == 0 {
      assert n + pat == pat;
      assert pat[|pat|..] == [];
    } else {
      NoEarlyMatchTail(n, pat);
      ReplaceAllSuffix(n[1..], pat, rep);
      ReplaceAllNoMatch(n + pat, pat, rep);
      assert (n + pat)[1..] == n[1..] + pat;
      assert n == [n[0]] + n[1..];
    }
  }

  /** Where `pat` does not start, `ReplaceAll` keeps the first character. */
  lemma ReplaceAllNoMatch(s: string, pat: string, rep: string)
    requires |pat| > 0 && |s| > 0
    requires !MatchAt(s, pat, 0)
    ensures ReplaceAll(s, pat, rep) == [s[0]] + ReplaceAll(s[1..], pat, rep)
  {
  }

  /** `NoEarlyMatch` carries over to the name without its first character. */
  lemma NoEarlyMatchTail(n: string, pat: string)
    requires |n| > 0
    requires NoEarlyMatch(n, pat)
    ensures !MatchAt(n + pat, pat, 0)
    ensures NoEarlyMatch(n[1..], pat)
  {
    assert !MatchAt(n + pat, pat, 0);
    forall p | 0 <= p < |n[1..]|
      ensures !MatchAt(n[1..] + pat, pat, p)
    {
      assert !MatchAt(n + pat, pat, p + 1);
      assert (n[1..] + pat)[p..p + |pat|] == (n + pat)[p + 1..p + 1 + |pat|];
    }
  }

  /** Replacing a character that does not occur changes nothing. */
  lemma ReplaceCharAbsent(s: string, from: char, to: char)
    requires from !in s
    ensures ReplaceChar(s, from, to) == s
  {
  }

  /** Replacing a character works piece by piece. */
  lemma ReplaceCharConcat(a: string, b: string, from: char, to: char)
    ensures ReplaceChar(a + b, from, to) == ReplaceChar(a, from, to) + ReplaceChar(b, from, to)
  {
  }
}
