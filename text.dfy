/**
 * The .NET string operations the core relies on, over `seq<char>`:
 * ordinal search, `Trim`, `Replace`, `Split`, `string.Join`, ASCII case
 * folding and `int.Parse`. Whitespace and case are the ASCII part of the
 * .NET rules (see README, "Left out").
 */
module Text {
  import opened Wrappers

  // ---------------------------------------------------------------------
  // Characters

  /** The ASCII characters `char.IsWhiteSpace` accepts. */
  predicate IsWhite(c: char) {
    c == ' ' || c == '\t' || c == '\n' || c == '\r' || c == '\U{000B}' || c == '\U{000C}'
  }

  /** `string.IsNullOrWhiteSpace` for a non-null string. */
  predicate AllWhite(s: string) {
    forall i :: 0 <= i < |s| ==> IsWhite(s[i])
  }

  /** ASCII lower-casing: `char.ToLowerInvariant` on the ASCII range. */
  function LowerChar(c: char): char {
    if 'A' <= c <= 'Z' then (c as int + 32) as char else c
  }

  /** `string.ToLower()` with ASCII case folding. */
  function Lower(s: string): (r: string)
    ensures |r| == |s| && forall i :: 0 <= i < |s| ==> r[i] == LowerChar(s[i])
  {
    seq(|s|, i requires 0 <= i < |s| => LowerChar(s[i]))
  }

  /** Lower-casing leaves whitespace as it is. */
  lemma LowerKeepsWhite(c: char)
    ensures IsWhite(c) ==> LowerChar(c) == c
  {
  }

  /** Lower-casing commutes with taking a slice. */
  lemma LowerSlice(s: string, a: int, b: int)
    requires 0 <= a <= b <= |s|
    ensures Lower(s[a..b]) == Lower(s)[a..b]
  {
  }

  /** `n` copies of `x`. */
  function Repeat<T>(x: T, n: nat): (r: seq<T>)
    ensures |r| == n
    ensures forall i :: 0 <= i < n ==> r[i] == x
  {
    seq(n, _ => x)
  }

  /** `new string(' ', n)`. */
  function Spaces(n: nat): string {
    Repeat(' ', n)
  }

  // ---------------------------------------------------------------------
  // Trimming

  /** The first index at or after `i` that does not hold whitespace, or `|s|`. */
  function SkipWhite(s: string, i: nat): (k: nat)
    requires i <= |s|
    ensures i <= k <= |s|
    ensures forall m :: i <= m < k ==> IsWhite(s[m])
    ensures k < |s| ==> !IsWhite(s[k])
    decreases |s| - i
  {
    if i < |s| && IsWhite(s[i]) then SkipWhite(s, i + 1) else i
  }

  /** The index just after the last non-whitespace character before `j`, or 0. */
  function SkipWhiteBack(s: string, j: nat): (k: nat)
    requires j <= |s|
    ensures k <= j
    ensures forall m :: k <= m < j ==> IsWhite(s[m])
    ensures k > 0 ==> !IsWhite(s[k - 1])
    decreases j
  {
    if j > 0 && IsWhite(s[j - 1]) then SkipWhiteBack(s, j - 1) else j
  }

  /** `TrimStart()`: drops the leading whitespace. */
  function TrimStart(s: string): (r: string)
    ensures |r| <= |s| && r == s[|s| - |r|..]
    ensures forall i :: 0 <= i < |s| - |r| ==> IsWhite(s[i])
    ensures |r| > 0 ==> !IsWhite(r[0])
    ensures AllWhite(s) ==> r == ""
  {
    s[SkipWhite(s, 0)..]
  }

  /** `TrimEnd()`: drops the trailing whitespace. */
  function TrimEnd(s: string): (r: string)
    ensures |r| <= |s| && r == s[..|r|]
    ensures forall i :: |r| <= i < |s| ==> IsWhite(s[i])
    ensures |r| > 0 ==> !IsWhite(r[|r| - 1])
    ensures |s| > 0 && !IsWhite(s[0]) ==> |r| > 0
  {
    s[..SkipWhiteBack(s, |s|)]
  }

  /** `Trim()`: drops whitespace at both ends. */
  function Trim(s: string): (r: string)
    ensures |r| <= |s|
    ensures |r| > 0 ==> !IsWhite(r[0]) && !IsWhite(r[|r| - 1])
    ensures AllWhite(s) <==> r == ""
  {
    TrimEnd(TrimStart(s))
  }

  /** Where `Trim(s)` sits inside `s`: it is `s[a..a + |Trim(s)|]` with only whitespace around it. */
  lemma TrimSpan(s: string) returns (a: nat)
    ensures a + |Trim(s)| <= |s|
    ensures Trim(s) == s[a..a + |Trim(s)|]
    ensures forall i :: 0 <= i < a ==> IsWhite(s[i])
    ensures forall i :: a + |Trim(s)| <= i < |s| ==> IsWhite(s[i])
  {
    var t := TrimStart(s);
    a := |s| - |t|;
    var r := TrimEnd(t);
    forall i | a + |r| <= i < |s| ensures IsWhite(s[i]) {
      assert s[i] == t[i - a];
    }
  }

  /** Trimming drops exactly the whitespace padding around a text that starts and ends with non-whitespace. */
  lemma TrimPadded(lead: string, t: string, trail: string)
    requires AllWhite(lead) && AllWhite(trail)
    requires |t| > 0 && !IsWhite(t[0]) && !IsWhite(t[|t| - 1])
    ensures Trim(lead + t + trail) == t
  {
    var s := lead + t + trail;
    assert forall m :: 0 <= m < |lead| ==> s[m] == lead[m];
    assert s[|lead|] == t[0];
    var u := TrimStart(s);
    assert u == s[SkipWhite(s, 0)..];
    assert SkipWhite(s, 0) == |lead|;
    assert u == t + trail;
    assert forall m :: |t| <= m < |u| ==> u[m] == trail[m - |t|];
    assert u[|t| - 1] == t[|t| - 1];
    assert SkipWhiteBack(u, |u|) == |t|;
    assert u[..|t|] == t;
  }

  /** `TrimEnd('\n', '\r')`. */
  function TrimLineBreaksEnd(s: string): (r: string)
    ensures |r| <= |s| && r == s[..|r|]
    ensures |r| > 0 ==> !IsLineBreak(r[|r| - 1])
  {
    if |s| > 0 && IsLineBreak(s[|s| - 1]) then TrimLineBreaksEnd(s[..|s| - 1]) else s
  }

  // ---------------------------------------------------------------------
  // Ordinal search

  /** `pat` occurs in `s` starting at index `i`. */
  predicate MatchAt(s: string, pat: string, i: int) {
    0 <= i && i + |pat| <= |s| && s[i..i + |pat|] == pat
  }

  /** An occurrence inside a slice is an occurrence in the whole. */
  lemma MatchInSlice(s: string, pat: string, a: int, b: int, j: int)
    requires 0 <= a <= b <= |s| && MatchAt(s[a..b], pat, j)
    ensures MatchAt(s, pat, a + j)
  {
    forall k | 0 <= k < |pat|
      ensures s[a + j + k] == pat[k]
    {
      MatchChar(s[a..b], pat, j, k);
    }
    assert s[a + j..a + j + |pat|] == pat;
  }

  /** The characters of an occurrence are those of the pattern. */
  lemma MatchChar(s: string, pat: string, j: int, k: int)
    requires MatchAt(s, pat, j) && 0 <= k < |pat|
    ensures s[j + k] == pat[k]
  {
    assert s[j..j + |pat|][k] == s[j + k];
  }

  /** An occurrence that lies inside a slice is an occurrence in the slice. */
  lemma MatchFromSlice(s: string, pat: string, a: int, b: int, j: int)
    requires 0 <= a <= j && j + |pat| <= b <= |s| && MatchAt(s, pat, j)
    ensures MatchAt(s[a..b], pat, j - a)
  {
    forall k | 0 <= k < |pat|
      ensures s[a..b][j - a + k] == pat[k]
    {
      MatchChar(s, pat, j, k);
    }
    assert s[a..b][j - a..j - a + |pat|] == pat;
  }

  function IndexOfFrom(s: string, pat: string, from: nat): (r: int)
    requires from <= |s|
    ensures r == -1 || (from <= r && MatchAt(s, pat, r))
    ensures r == -1 ==> forall j :: from <= j ==> !MatchAt(s, pat, j)
    ensures r != -1 ==> forall j :: from <= j < r ==> !MatchAt(s, pat, j)
    decreases |s| - from
  {
    if from + |pat| > |s| then -1
    else if s[from..from + |pat|] == pat then from
    else IndexOfFrom(s, pat, from + 1)
  }

  /** `s.IndexOf(pat)` (ordinal): the first index where `pat` occurs, or -1. */
  function IndexOf(s: string, pat: string): (r: int)
    ensures r == -1 <==> forall j :: !MatchAt(s, pat, j)
    ensures r != -1 ==> MatchAt(s, pat, r) && forall j :: 0 <= j < r ==> !MatchAt(s, pat, j)
  {
    IndexOfFrom(s, pat, 0)
  }

  function LastIndexOfUpTo(s: string, pat: string, upTo: int): (r: int)
    requires upTo >= -1
    ensures r == -1 || (r <= upTo && MatchAt(s, pat, r))
    ensures r == -1 ==> forall j :: j <= upTo ==> !MatchAt(s, pat, j)
    ensures r != -1 ==> forall j :: r < j <= upTo ==> !MatchAt(s, pat, j)
    decreases upTo + 1
  {
    if upTo < 0 then -1
    else if MatchAt(s, pat, upTo) then upTo
    else LastIndexOfUpTo(s, pat, upTo - 1)
  }

  /** `s.LastIndexOf(pat)` (ordinal): the last index where `pat` occurs, or -1. */
  function LastIndexOf(s: string, pat: string): (r: int)
    ensures r == -1 <==> forall j :: !MatchAt(s, pat, j)
    ensures r != -1 ==> MatchAt(s, pat, r) && forall j :: r < j ==> !MatchAt(s, pat, j)
  {
    LastIndexOfUpTo(s, pat, if |s| - |pat| < -1 then -1 else |s| - |pat|)
  }

  /** `s.Contains(pat)` (ordinal). */
  predicate Contains(s: string, pat: string) {
    IndexOf(s, pat) >= 0
  }

  lemma ContainsWitness(s: string, pat: string, i: int)
    requires MatchAt(s, pat, i)
    ensures Contains(s, pat)
  {
  }

  lemma ContainsGives(s: string, pat: string) returns (i: int)
    requires Contains(s, pat)
    ensures MatchAt(s, pat, i)
  {
    i := IndexOf(s, pat);
  }

  /** What a slice contains, the whole contains. */
  lemma ContainsInSlice(s: string, a: int, b: int, pat: string)
    requires 0 <= a <= b <= |s| && Contains(s[a..b], pat)
    ensures Contains(s, pat)
  {
    var j := ContainsGives(s[a..b], pat);
    MatchInSlice(s, pat, a, b, j);
    ContainsWitness(s, pat, a + j);
  }

  /** `s.Contains(pat, StringComparison.OrdinalIgnoreCase)` under ASCII folding. */
  predicate ContainsIgnoreCase(s: string, pat: string) {
    Contains(Lower(s), Lower(pat))
  }

  /**
   * Trimming before a case-insensitive search changes nothing when the
   * pattern starts and ends with non-whitespace.
   */
  lemma ContainsLowerTrim(s: string, pat: string)
    requires |pat| > 0 && !IsWhite(pat[0]) && !IsWhite(pat[|pat| - 1])
    ensures Contains(Lower(Trim(s)), pat) <==> Contains(Lower(s), pat)
  {
    var a := TrimSpan(s);
    var b := a + |Trim(s)|;
    assert Lower(Trim(s)) == Lower(s)[a..b] by {
      LowerSlice(s, a, b);
    }
    if Contains(Lower(s)[a..b], pat) {
      ContainsInSlice(Lower(s), a, b, pat);
    }
    if Contains(Lower(s), pat) {
      ContainsInsideTrim(s, pat, a, b);
    }
  }

  /** An occurrence in the lower-cased text lies inside the span that trimming keeps. */
  lemma ContainsInsideTrim(s: string, pat: string, a: int, b: int)
    requires 0 <= a <= b <= |s| && |pat| > 0 && !IsWhite(pat[0]) && !IsWhite(pat[|pat| - 1])
    requires forall i :: 0 <= i < a ==> IsWhite(s[i])
    requires forall i :: b <= i < |s| ==> IsWhite(s[i])
    requires Contains(Lower(s), pat)
    ensures Contains(Lower(s)[a..b], pat)
  {
    var j := ContainsGives(Lower(s), pat);
    MatchInsideTrim(s, pat, a, b, j);
    ContainsWitness(Lower(s)[a..b], pat, j - a);
  }

  /**
   * An occurrence, in the lower-cased text, of a pattern that starts and
   * ends with non-whitespace lies inside the span that trimming keeps.
   */
  lemma MatchInsideTrim(s: string, pat: string, a: int, b: int, j: int)
    requires 0 <= a <= b <= |s| && |pat| > 0 && !IsWhite(pat[0]) && !IsWhite(pat[|pat| - 1])
    requires forall i :: 0 <= i < a ==> IsWhite(s[i])
    requires forall i :: b <= i < |s| ==> IsWhite(s[i])
    requires MatchAt(Lower(s), pat, j)
    ensures MatchAt(Lower(s)[a..b], pat, j - a)
  {
    var lr := Lower(s);
    var e := j + |pat| - 1;
    MatchChar(lr, pat, j, 0);
    MatchChar(lr, pat, j, |pat| - 1);
    LowerKeepsWhite(s[j]);
    LowerKeepsWhite(s[e]);
    assert a <= j && e < b;
    MatchFromSlice(lr, pat, a, b, j);
  }

  /** `s.EndsWith(suffix)` (ordinal). */
  predicate EndsWith(s: string, suffix: string) {
    |suffix| <= |s| && s[|s| - |suffix|..] == suffix
  }

  // ---------------------------------------------------------------------
  // Replace

  /**
   * `s.Replace(pat, rep)`: every occurrence of `pat`, found left to right
   * without overlap, is replaced by `rep`.
   */
  function ReplaceAll(s: string, pat: string, rep: string): (r: string)
    requires |pat| > 0
    ensures |rep| <= |pat| ==> |r| <= |s|
    ensures forall i :: 0 <= i < |r| ==> r[i] in s || r[i] in rep
    decreases |s|
  {
    if |s| < |pat| then s
    else if s[..|pat|] == pat then rep + ReplaceAll(s[|pat|..], pat, rep)
    else [s[0]] + ReplaceAll(s[1..], pat, rep)
  }

  /** Text that does not contain the pattern is returned unchanged by `Replace`. */
  lemma {:induction false} ReplaceAllAbsent(s: string, pat: string, rep: string)
    requires |pat| > 0 && !Contains(s, pat)
    ensures ReplaceAll(s, pat, rep) == s
    decreases |s|
  {
    if |s| >= |pat| {
      assert !MatchAt(s, pat, 0);
      forall j ensures !MatchAt(s[1..], pat, j) {
        if MatchAt(s[1..], pat, j) {
          assert s[j + 1..j + 1 + |pat|] == s[1..][j..j + |pat|];
          assert MatchAt(s, pat, j + 1);
        }
      }
      ReplaceAllAbsent(s[1..], pat, rep);
    }
  }

  /** Replacing a one-character pattern removes every occurrence of that character. */
  lemma {:induction false} ReplaceAllRemovesChar(s: string, c: char, rep: string)
    requires c !in rep
    ensures c !in ReplaceAll(s, [c], rep)
    decreases |s|
  {
    if |s| >= 1 {
      ReplaceAllRemovesChar(s[1..], c, rep);
      if s[..1] != [c] {
        assert s[0] != c;
      }
    }
  }

  // ---------------------------------------------------------------------
  // Split and Join

  /** `string.Join(sep, parts)`. */
  function Join(parts: seq<string>, sep: string): string
    decreases |parts|
  {
    if |parts| == 0 then ""
    else if |parts| == 1 then parts[0]
    else parts[0] + sep + Join(parts[1..], sep)
  }

  /** The text before the first occurrence of `sep` does not contain `sep`. */
  lemma PrefixBeforeFirstMatch(s: string, sep: string, i: nat)
    requires |sep| > 0 && i <= |s| && forall j :: 0 <= j < i ==> !MatchAt(s, sep, j)
    ensures !Contains(s[..i], sep)
  {
    var head := s[..i];
    forall j | MatchAt(head, sep, j) ensures MatchAt(s, sep, j) {
      assert head[j..j + |sep|] == s[j..j + |sep|];
    }
  }

  /** `s.Split(sep)` with no options: the pieces between occurrences of `sep`, empty ones kept. */
  function SplitOn(s: string, sep: string): (r: seq<string>)
    requires |sep| > 0
    ensures |r| >= 1
    ensures forall k :: 0 <= k < |r| ==> !Contains(r[k], sep)
    decreases |s|
  {
    var i := IndexOf(s, sep);
    if i < 0 then [s]
    else
      PrefixBeforeFirstMatch(s, sep, i);
      [s[..i]] + SplitOn(s[i + |sep|..], sep)
  }

  /** Joining a piece in front of at least one more. */
  lemma JoinCons(p: string, tail: seq<string>, sep: string)
    requires |tail| >= 1
    ensures Join([p] + tail, sep) == p + sep + Join(tail, sep)
  {
    assert ([p] + tail)[1..] == tail;
  }

  /** The text around an occurrence of `sep`. */
  lemma AroundMatch(s: string, sep: string, i: int)
    requires MatchAt(s, sep, i)
    ensures s == s[..i] + sep + s[i + |sep|..]
  {
    assert s == s[..i] + s[i..i + |sep|] + s[i + |sep|..];
  }

  /** One step of `Split`: the piece before the first occurrence, then the split of the rest. */
  lemma SplitOnStep(s: string, sep: string)
    requires |sep| > 0 && IndexOf(s, sep) >= 0
    ensures var i := IndexOf(s, sep);
      i + |sep| <= |s| && SplitOn(s, sep) == [s[..i]] + SplitOn(s[i + |sep|..], sep)
  {
  }

  /** Joining the pieces of a split with the same separator gives back the text. */
  lemma {:induction false} JoinSplit(s: string, sep: string)
    requires |sep| > 0
    ensures Join(SplitOn(s, sep), sep) == s
    decreases |s|
  {
    var i := IndexOf(s, sep);
    if i >= 0 {
      var rest := s[i + |sep|..];
      SplitOnStep(s, sep);
      JoinSplit(rest, sep);
      JoinCons(s[..i], SplitOn(rest, sep), sep);
      AroundMatch(s, sep, i);
    }
  }

  /** The first occurrence of `c` in `p + [c] + q`, when `p` has none, is at `|p|`. */
  lemma IndexOfAfterPrefix(p: string, c: char, q: string)
    requires c !in p
    ensures IndexOf(p + [c] + q, [c]) == |p|
  {
    var s := p + [c] + q;
    assert MatchAt(s, [c], |p|);
    forall j | 0 <= j < |p| ensures !MatchAt(s, [c], j) {
      assert s[j..j + 1] == [p[j]];
    }
  }

  /** Splitting on a one-character separator undoes a join of pieces that do not contain it. */
  lemma {:induction false} SplitJoin(parts: seq<string>, c: char)
    requires |parts| >= 1
    requires forall k :: 0 <= k < |parts| ==> c !in parts[k]
    ensures SplitOn(Join(parts, [c]), [c]) == parts
    decreases |parts|
  {
    var p := parts[0];
    if |parts| == 1 {
      forall j | 0 <= j < |p| ensures !MatchAt(p, [c], j) {
        assert p[j..j + 1] == [p[j]];
      }
    } else {
      var tail := parts[1..];
      var rest := Join(tail, [c]);
      var s := p + [c] + rest;
      assert parts == [p] + tail;
      JoinCons(p, tail, [c]);
      IndexOfAfterPrefix(p, c, rest);
      SplitOnStep(s, [c]);
      assert s[..|p|] == p && s[|p| + 1..] == rest;
      SplitJoin(tail, c);
    }
  }

  /** `'\r'` or `'\n'`. */
  predicate IsLineBreak(c: char) {
    c == '\r' || c == '\n'
  }

  /** A non-empty piece of text without line breaks. */
  predicate IsLine(p: string) {
    |p| > 0 && forall i :: 0 <= i < |p| ==> !IsLineBreak(p[i])
  }

  /** The number of leading characters of `s` that are not line breaks. */
  function LeadingRun(s: string): (k: nat)
    ensures k <= |s|
    ensures forall i :: 0 <= i < k ==> !IsLineBreak(s[i])
    ensures k < |s| ==> IsLineBreak(s[k])
  {
    if |s| == 0 || IsLineBreak(s[0]) then 0 else 1 + LeadingRun(s[1..])
  }

  /**
   * `s.Split(new[] { '\r', '\n' }, StringSplitOptions.RemoveEmptyEntries)`:
   * the maximal runs of characters other than line breaks, in order.
   */
  function NonEmptyLines(s: string): (r: seq<string>)
    ensures forall k :: 0 <= k < |r| ==> IsLine(r[k])
    decreases |s|
  {
    if |s| == 0 then []
    else if IsLineBreak(s[0]) then NonEmptyLines(s[1..])
    else
      var k := LeadingRun(s);
      [s[..k]] + NonEmptyLines(s[k..])
  }

  lemma {:induction false} LeadingRunOfLine(p: string, rest: string)
    requires IsLine(p) && (|rest| == 0 || IsLineBreak(rest[0]))
    ensures LeadingRun(p + rest) == |p|
    decreases |p|
  {
    var s := p + rest;
    if |p| > 1 {
      assert IsLine(p[1..]) by {
        forall i | 0 <= i < |p[1..]| ensures !IsLineBreak(p[1..][i]) {
          assert p[1..][i] == p[i + 1];
        }
      }
      LeadingRunOfLine(p[1..], rest);
      assert s[1..] == p[1..] + rest;
    } else {
      assert s[1..] == rest;
    }
  }

  /** Breaking lines joined by `'\n'` back into non-empty lines gives the lines again. */
  lemma {:induction false} NonEmptyLinesJoin(lines: seq<string>)
    requires forall k :: 0 <= k < |lines| ==> IsLine(lines[k])
    ensures NonEmptyLines(Join(lines, "\n")) == lines
    decreases |lines|
  {
    if |lines| == 0 {
    } else if |lines| == 1 {
      var p := lines[0];
      LeadingRunOfLine(p, "");
      assert p + "" == p;
      assert p[|p|..] == [];
      assert p[..|p|] == p;
    } else {
      var p := lines[0];
      var rest := "\n" + Join(lines[1..], "\n");
      var s := p + rest;
      assert Join(lines, "\n") == s;
      LeadingRunOfLine(p, rest);
      assert s[..|p|] == p;
      assert s[|p|..] == rest;
      assert rest[1..] == Join(lines[1..], "\n");
      NonEmptyLinesJoin(lines[1..]);
      assert lines == [p] + lines[1..];
    }
  }

  /** All the strings of `ss`, concatenated in order. */
  function Concat(ss: seq<string>): string
    decreases |ss|
  {
    if |ss| == 0 then "" else Concat(ss[..|ss| - 1]) + ss[|ss| - 1]
  }

  lemma {:induction false} ConcatAppend(a: seq<string>, b: seq<string>)
    ensures Concat(a + b) == Concat(a) + Concat(b)
    decreases |b|
  {
    if |b| == 0 {
      assert a + b == a;
    } else {
      var init, last := b[..|b| - 1], b[|b| - 1];
      assert (a + b)[..|a + b| - 1] == a + init;
      assert (a + b)[|a + b| - 1] == last;
      assert Concat(a + b) == Concat(a + init) + last;
      ConcatAppend(a, init);
      assert Concat(b) == Concat(init) + last;
    }
  }

  // ---------------------------------------------------------------------
  // Integers

  predicate IsDigit(c: char) {
    '0' <= c <= '9'
  }

  predicate AllDigits(s: string) {
    forall i :: 0 <= i < |s| ==> IsDigit(s[i])
  }

  /** The value of a string of decimal digits. */
  function DigitsValue(s: string): nat
    requires AllDigits(s)
    decreases |s|
  {
    if |s| == 0 then 0 else DigitsValue(s[..|s| - 1]) * 10 + (s[|s| - 1] as int - '0' as int)
  }

  const Int32Min: int := -2147483648
  const Int32Max: int := 2147483647

  /**
   * `int.Parse(s)` (NumberStyles.Integer): optional surrounding whitespace,
   * an optional sign and at least one digit; `None` is the FormatException
   * or the OverflowException.
   */
  function ParseInt32(s: string): (r: Option<int>)
    ensures r.Some? ==> Int32Min <= r.value <= Int32Max
  {
    var t := Trim(s);
    var negative := |t| > 0 && t[0] == '-';
    var digits := if |t| > 0 && (t[0] == '-' || t[0] == '+') then t[1..] else t;
    if |digits| == 0 || !AllDigits(digits) then None
    else
      var v: int := if negative then -(DigitsValue(digits) as int) else DigitsValue(digits);
      if Int32Min <= v <= Int32Max then Some(v) else None
  }

  /** The decimal digits of `n`, most significant first, without leading zeros. */
  function Decimal(n: nat): (r: string)
    ensures |r| > 0 && AllDigits(r)
    decreases n
  {
    if n < 10 then [('0' as int + n) as char] else Decimal(n / 10) + [('0' as int + n % 10) as char]
  }

  lemma {:induction false} DecimalValue(n: nat)
    ensures DigitsValue(Decimal(n)) == n
    decreases n
  {
    if n >= 10 {
      DecimalValue(n / 10);
      var d := Decimal(n);
      assert d[..|d| - 1] == Decimal(n / 10);
    }
  }

  lemma TrimDigits(d: string)
    requires |d| > 0 && AllDigits(d)
    ensures Trim(d) == d
  {
    assert IsDigit(d[0]) && IsDigit(d[|d| - 1]);
    assert TrimStart(d) == d;
  }

  /** `int.Parse` reads back the decimal rendering of every non-negative 32-bit value. */
  lemma ParseDecimal(n: nat)
    requires n <= Int32Max
    ensures ParseInt32(Decimal(n)) == Some(n)
  {
    var d := Decimal(n);
    DecimalValue(n);
    TrimDigits(d);
    assert IsDigit(d[0]);
  }
}
