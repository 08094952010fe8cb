/**
 * The Python `str` operations the gene pathway generator relies on:
 * `isspace`, `upper`, `strip`, `split()` (on runs of whitespace),
 * `split(sep)` and `sep.join(...)`. A Python string is a `string`, that is
 * a sequence of Unicode scalar values.
 */
module Strings {

  /** Python's `str.isspace` for one character: the characters that
      `split()` and `strip()` treat as whitespace. */
  predicate IsSpace(c: char)
  {
    || c == ' '
    || ('\t' <= c <= '\r')
    || ('\U{1C}' <= c <= '\U{1F}')
    || c == '\U{85}' || c == '\U{A0}' || c == '\U{1680}'
    || ('\U{2000}' <= c <= '\U{200A}')
    || c == '\U{2028}' || c == '\U{2029}' || c == '\U{202F}'
    || c == '\U{205F}' || c == '\U{3000}'
  }

  predicate IsLower(c: char)
  {
    'a' <= c <= 'z'
  }

  /** A string with no whitespace character in it. */
  predicate NoSpace(s: string)
  {
    forall k :: 0 <= k < |s| ==> !IsSpace(s[k])
  }

  /** A string with no lower-case letter in it. */
  predicate NoLower(s: string)
  {
    forall k :: 0 <= k < |s| ==> !IsLower(s[k])
  }

  function UpperChar(c: char): (u: char)
    ensures !IsLower(u)
    ensures IsSpace(u) == IsSpace(c)
    ensures u == ',' <==> c == ','
    ensures !IsLower(c) ==> u == c
  {
    if IsLower(c) then (c as int - 32) as char else c
  }

  /** `s.upper()`, for the ASCII letters. */
  function Upper(s: string): (r: string)
    ensures |r| == |s|
  {
    seq(|s|, k requires 0 <= k < |s| => UpperChar(s[k]))
  }

  /** Upper-casing leaves no lower-case letter, keeps whitespace and commas
      where they were, and changes nothing in a string without lower case. */
  lemma UpperChars(s: string)
    ensures NoLower(Upper(s))
    ensures forall k :: 0 <= k < |s| ==> (IsSpace(Upper(s)[k]) <==> IsSpace(s[k]))
    ensures forall k :: 0 <= k < |s| ==> (Upper(s)[k] == ',' <==> s[k] == ',')
    ensures NoLower(s) ==> Upper(s) == s
  {
  }

  /** Upper-casing adds no comma. */
  lemma UpperNoComma(s: string)
    requires ',' !in s
    ensures ',' !in Upper(s)
  {
    var u := Upper(s);
    forall k | 0 <= k < |u| ensures u[k] != ',' {
      assert s[k] != ',';
    }
  }

  function TrimLeft(s: string): (r: string)
    ensures |r| <= |s| && r == s[|s| - |r|..]
    ensures forall k :: 0 <= k < |s| - |r| ==> IsSpace(s[k])
    ensures r == [] || !IsSpace(r[0])
  {
    if s != [] && IsSpace(s[0]) then TrimLeft(s[1..]) else s
  }

  function TrimRight(s: string): (r: string)
    ensures |r| <= |s| && r == s[..|r|]
    ensures forall k :: |r| <= k < |s| ==> IsSpace(s[k])
    ensures r == [] || !IsSpace(r[|r| - 1])
  {
    if s != [] && IsSpace(s[|s| - 1]) then TrimRight(s[..|s| - 1]) else s
  }

  /** `s.strip()`: the string without its leading and trailing whitespace. */
  function Strip(s: string): string
  {
    TrimRight(TrimLeft(s))
  }

  /** `strip()` empties exactly the all-whitespace strings, leaves no
      whitespace at either end, and leaves a string without whitespace as it is. */
  lemma StripSpaces(s: string)
    ensures Strip(s) == [] <==> forall k :: 0 <= k < |s| ==> IsSpace(s[k])
    ensures Strip(s) != [] ==> !IsSpace(Strip(s)[0]) && !IsSpace(Strip(s)[|Strip(s)| - 1])
    ensures NoSpace(s) ==> Strip(s) == s
  {
    StripBlank(s);
    StripEnds(s);
    StripNoSpace(s);
  }

  lemma StripEnds(s: string)
    ensures Strip(s) != [] ==> !IsSpace(Strip(s)[0]) && !IsSpace(Strip(s)[|Strip(s)| - 1])
  {
    var l := TrimLeft(s);
    var r := TrimRight(l);
    assert r != [] ==> r[0] == l[0];
  }

  lemma StripBlank(s: string)
    ensures Strip(s) == [] <==> forall k :: 0 <= k < |s| ==> IsSpace(s[k])
  {
    var l := TrimLeft(s);
    assert TrimRight(l) == [] ==> l == [] by {
      assert l != [] ==> !IsSpace(l[0]);
    }
    assert l == [] <==> forall k :: 0 <= k < |s| ==> IsSpace(s[k]) by {
      assert l != [] ==> l[0] == s[|s| - |l|];
    }
  }

  lemma StripNoSpace(s: string)
    ensures NoSpace(s) ==> Strip(s) == s
  {
    var l := TrimLeft(s);
    var r := TrimRight(l);
    assert NoSpace(s) ==> l == s by {
      assert |l| < |s| ==> IsSpace(s[0]);
    }
    assert NoSpace(s) ==> r == s by {
      assert |r| < |l| ==> IsSpace(l[|l| - 1]) && l[|l| - 1] == s[|s| - 1];
    }
  }

  /** The length of the longest prefix of `s` without whitespace. */
  function LeadingRun(s: string): (n: nat)
    ensures n <= |s|
    ensures forall k :: 0 <= k < n ==> !IsSpace(s[k])
    ensures n == |s| || IsSpace(s[n])
  {
    if s == [] || IsSpace(s[0]) then 0 else 1 + LeadingRun(s[1..])
  }

  /** `s.split()`: the maximal runs of non-whitespace characters, in order. */
  function Split(s: string): (r: seq<string>)
    ensures forall k :: 0 <= k < |r| ==> r[k] != [] && NoSpace(r[k])
    decreases |s|
  {
    if s == [] then []
    else if IsSpace(s[0]) then Split(s[1..])
    else
      var n := LeadingRun(s);
      [s[..n]] + Split(s[n..])
  }

  /** `s[i:j]` is one whitespace-separated token of `s`: a non-empty run
      of non-whitespace characters that cannot be extended either way. */
  ghost predicate IsToken(s: string, i: int, j: int)
  {
    && 0 <= i < j <= |s|
    && (forall k :: i <= k < j ==> !IsSpace(s[k]))
    && (i == 0 || IsSpace(s[i - 1]))
    && (j == |s| || IsSpace(s[j]))
  }

  /** A token of a suffix `s[m..]` is a token of `s`, unless it starts the
      suffix right after a non-whitespace character. */
  lemma TokenOfSuffix(s: string, m: nat, i: int, j: int)
    requires m <= |s| && IsToken(s[m..], i, j)
    requires i > 0 || m == 0 || IsSpace(s[m - 1])
    ensures IsToken(s, m + i, m + j) && s[m..][i..j] == s[m + i..m + j]
  {
    assert s[m..][i..j] == s[m + i..m + j];
  }

  /** A token of `s` that starts at or after `m` is a token of `s[m..]`. */
  lemma TokenInSuffix(s: string, m: nat, i: int, j: int)
    requires IsToken(s, i, j) && m <= i
    ensures IsToken(s[m..], i - m, j - m) && s[m..][i - m..j - m] == s[i..j]
  {
    assert s[m..][i - m..j - m] == s[i..j];
  }

  /** A run of non-whitespace ending at whitespace or at the end is the leading run. */
  lemma {:induction false} LeadingRunIs(s: string, j: nat)
    requires j <= |s|
    requires forall k :: 0 <= k < j ==> !IsSpace(s[k])
    requires j == |s| || IsSpace(s[j])
    ensures LeadingRun(s) == j
  {
    if j > 0 {
      LeadingRunIs(s[1..], j - 1);
    }
  }

  lemma {:induction false} SplitSound(s: string, t: string)
    requires t in Split(s)
    ensures exists i, j :: IsToken(s, i, j) && t == s[i..j]
    decreases |s|
  {
    if IsSpace(s[0]) {
      SplitSound(s[1..], t);
      var i, j :| IsToken(s[1..], i, j) && t == s[1..][i..j];
      TokenOfSuffix(s, 1, i, j);
    } else {
      var n := LeadingRun(s);
      if t == s[..n] {
        assert IsToken(s, 0, n);
      } else {
        SplitSound(s[n..], t);
        var i, j :| IsToken(s[n..], i, j) && t == s[n..][i..j];
        assert s[n..][0] == s[n];
        TokenOfSuffix(s, n, i, j);
      }
    }
  }

  lemma {:induction false} SplitComplete(s: string, i: int, j: int)
    requires IsToken(s, i, j)
    ensures s[i..j] in Split(s)
    decreases |s|, 1
  {
    if IsSpace(s[0]) {
      SplitCompleteSpace(s, i, j);
    } else if i == 0 {
      LeadingRunIs(s, j);
      LeadingInSplit(s);
    } else {
      SplitCompleteRun(s, i, j);
    }
  }

  /** A token after leading whitespace is a token of the rest. */
  lemma {:induction false} SplitCompleteSpace(s: string, i: int, j: int)
    requires IsToken(s, i, j) && IsSpace(s[0])
    ensures s[i..j] in Split(s)
    decreases |s|, 0
  {
    TokenInSuffix(s, 1, i, j);
    SplitComplete(s[1..], i - 1, j - 1);
    InSplitAfterSpace(s, s[i..j]);
  }

  /** A token that does not start the string lies past the leading run. */
  lemma {:induction false} SplitCompleteRun(s: string, i: int, j: int)
    requires IsToken(s, i, j) && !IsSpace(s[0]) && i > 0
    ensures s[i..j] in Split(s)
    decreases |s|, 0
  {
    var n := LeadingRun(s);
    RunBeforeSpace(s, i - 1);
    TokenInSuffix(s, n, i, j);
    SplitComplete(s[n..], i - n, j - n);
    InSplitAfterRun(s, s[i..j]);
  }

  lemma InSplitAfterSpace(s: string, t: string)
    requires s != [] && IsSpace(s[0]) && t in Split(s[1..])
    ensures t in Split(s)
  {
  }

  lemma LeadingInSplit(s: string)
    requires s != [] && !IsSpace(s[0])
    ensures s[..LeadingRun(s)] in Split(s)
  {
  }

  lemma InSplitAfterRun(s: string, t: string)
    requires s != [] && !IsSpace(s[0]) && t in Split(s[LeadingRun(s)..])
    ensures t in Split(s)
  {
  }

  /** The leading run stops at or before any whitespace. */
  lemma RunBeforeSpace(s: string, k: nat)
    requires k < |s| && IsSpace(s[k])
    ensures LeadingRun(s) <= k
  {
  }

  /** Every character of a piece of `split()` comes from the string split. */
  lemma SplitChars(s: string, t: string, c: char)
    requires t in Split(s) && c in t
    ensures c in s
  {
    SplitSound(s, t);
    var i, j :| IsToken(s, i, j) && t == s[i..j];
    var k :| 0 <= k < |t| && t[k] == c;
    assert s[i + k] == c;
  }

  /** The result of `split()` is exactly the set of whitespace-separated tokens. */
  lemma SplitTokens(s: string, t: string)
    ensures t in Split(s) <==> exists i, j :: IsToken(s, i, j) && t == s[i..j]
  {
    if t in Split(s) {
      SplitSound(s, t);
    }
    if exists i, j :: IsToken(s, i, j) && t == s[i..j] {
      var i, j :| IsToken(s, i, j) && t == s[i..j];
      SplitComplete(s, i, j);
    }
  }

  /** `sep.join(xs)` for a one-character separator. */
  function Join(xs: seq<string>, sep: char): string
  {
    if |xs| == 0 then []
    else if |xs| == 1 then xs[0]
    else xs[0] + [sep] + Join(xs[1..], sep)
  }

  /** Every character of a join is the separator or a character of a piece. */
  lemma {:induction false} JoinChars(xs: seq<string>, sep: char, c: char)
    requires c in Join(xs, sep)
    ensures c == sep || exists k :: 0 <= k < |xs| && c in xs[k]
  {
    if |xs| > 1 {
      if c !in xs[0] && c != sep {
        JoinChars(xs[1..], sep, c);
        var k :| 0 <= k < |xs[1..]| && c in xs[1..][k];
        assert c in xs[k + 1];
      }
    }
  }

  /** `s.split(sep)` for a one-character separator: always at least one
      piece, empty pieces kept. */
  function SplitOn(s: string, sep: char): (r: seq<string>)
    ensures |r| >= 1
  {
    if s == [] then [[]]
    else
      var rest := SplitOn(s[1..], sep);
      if s[0] == sep then [[]] + rest
      else [[s[0]] + rest[0]] + rest[1..]
  }

  /** Joining the pieces of a split gives the string back. */
  lemma {:induction false} JoinSplitOn(s: string, sep: char)
    ensures Join(SplitOn(s, sep), sep) == s
  {
    if s != [] {
      var rest := SplitOn(s[1..], sep);
      JoinSplitOn(s[1..], sep);
      if s[0] == sep {
        assert ([[]] + rest)[1..] == rest;
      } else {
        var r := [[s[0]] + rest[0]] + rest[1..];
        assert r[1..] == rest[1..];
        if |rest| > 1 {
          assert rest[1..] == rest[1..];
          assert Join(rest, sep) == rest[0] + [sep] + Join(rest[1..], sep);
        }
      }
    }
  }

  lemma {:induction false} SplitOnPrefix(x: string, t: string, sep: char)
    requires sep !in x
    ensures SplitOn(x + t, sep) == [x + SplitOn(t, sep)[0]] + SplitOn(t, sep)[1..]
  {
    if x != [] {
      var rest := SplitOn(x[1..] + t, sep);
      assert (x + t)[0] == x[0] && x[0] != sep;
      assert (x + t)[1..] == x[1..] + t;
      assert SplitOn(x + t, sep) == [[x[0]] + rest[0]] + rest[1..];
      SplitOnPrefix(x[1..], t, sep);
      assert rest[0] == x[1..] + SplitOn(t, sep)[0];
      assert rest[1..] == SplitOn(t, sep)[1..];
      assert [x[0]] + (x[1..] + SplitOn(t, sep)[0]) == x + SplitOn(t, sep)[0];
    } else {
      assert x + t == t;
      assert x + SplitOn(t, sep)[0] == SplitOn(t, sep)[0];
      assert SplitOn(t, sep) == [SplitOn(t, sep)[0]] + SplitOn(t, sep)[1..];
    }
  }

  /** Splitting a join gives the pieces back when no piece holds the separator. */
  lemma {:induction false} SplitOnJoin(xs: seq<string>, sep: char)
    requires |xs| >= 1
    requires forall k :: 0 <= k < |xs| ==> sep !in xs[k]
    ensures SplitOn(Join(xs, sep), sep) == xs
  {
    if |xs| == 1 {
      SplitOnPrefix(xs[0], [], sep);
      assert SplitOn([], sep) == [[]];
      assert xs[0] + [] == xs[0];
      assert Join(xs, sep) == xs[0];
    } else {
      var rest := Join(xs[1..], sep);
      SplitOnJoin(xs[1..], sep);
      assert xs[0] + [sep] + rest == xs[0] + ([sep] + rest);
      SplitOnPrefix(xs[0], [sep] + rest, sep);
      assert ([sep] + rest)[1..] == rest;
      var pieces := SplitOn([sep] + rest, sep);
      assert pieces == [[]] + xs[1..];
      assert pieces[0] == [] && pieces[1..] == xs[1..];
      assert xs[0] + pieces[0] == xs[0];
      assert Join(xs, sep) == xs[0] + ([sep] + rest);
      assert xs == [xs[0]] + xs[1..];
    }
  }

  /** Splitting a space-joined list of tokens on whitespace gives the tokens back. */
  lemma {:induction false} SplitJoin(xs: seq<string>)
    requires forall k :: 0 <= k < |xs| ==> xs[k] != [] && NoSpace(xs[k])
    ensures Split(Join(xs, ' ')) == xs
  {
    if |xs| == 1 {
      var x := xs[0];
      LeadingRunIs(x, |x|);
      assert x[..|x|] == x && x[|x|..] == [];
      assert Split(x) == [x] + Split([]);
    } else if |xs| > 1 {
      var x, rest := xs[0], Join(xs[1..], ' ');
      var s := x + [' '] + rest;
      assert s[|x|] == ' ';
      LeadingRunIs(s, |x|);
      assert s[..|x|] == x;
      assert s[|x|..] == [' '] + rest;
      assert Split([' '] + rest) == Split(rest) by {
        assert ([' '] + rest)[1..] == rest;
      }
      SplitJoin(xs[1..]);
      assert xs == [x] + xs[1..];
    }
  }
}
