/**
 * Python's `s.replace(p, r)` for a non-empty pattern: the occurrences of
 * `p` are found from left to right, none overlapping the previous one, and
 * each is replaced by `r`.
 */
module Substitution {
  import opened Strings

  /** `p` occurs in `s` starting at index `i`. */
  predicate OccursAt(s: string, p: string, i: int)
  {
    0 <= i && i + |p| <= |s| && s[i..i + |p|] == p
  }

  predicate Absent(s: string, p: string)
  {
    forall i :: 0 <= i <= |s| ==> !OccursAt(s, p, i)
  }

  function Replace(s: string, p: string, r: string): string
    requires p != []
    decreases |s|
  {
    if |s| < |p| then s
    else if s[..|p|] == p then r + Replace(s[|p|..], p, r)
    else [s[0]] + Replace(s[1..], p, r)
  }

  lemma ReplaceEmpty(p: string, r: string)
    requires p != []
    ensures Replace([], p, r) == []
  {
  }

  /** An occurrence in a suffix `s[m..]` is an occurrence in `s`, `m` further on. */
  lemma OccursInSuffix(s: string, p: string, m: nat, i: int)
    requires m <= |s| && 0 <= i
    ensures OccursAt(s[m..], p, i) <==> OccursAt(s, p, m + i)
  {
    if i + |p| <= |s| - m {
      assert s[m..][i..i + |p|] == s[m + i..m + i + |p|];
    }
  }

  /** Text without the pattern is left unchanged. */
  lemma {:induction false} ReplaceAbsent(s: string, p: string, r: string)
    requires p != [] && Absent(s, p)
    ensures Replace(s, p, r) == s
    decreases |s|
  {
    if |s| >= |p| {
      assert !OccursAt(s, p, 0);
      forall i | 0 <= i <= |s[1..]| ensures !OccursAt(s[1..], p, i) {
        OccursInSuffix(s, p, 1, i);
      }
      ReplaceAbsent(s[1..], p, r);
      assert s == [s[0]] + s[1..];
    }
  }

  /** Where the pattern does not start at the front, the front character is kept. */
  lemma ReplaceSkip(s: string, p: string, r: string)
    requires p != [] && |s| >= |p| && !OccursAt(s, p, 0)
    ensures Replace(s, p, r) == [s[0]] + Replace(s[1..], p, r)
  {
  }

  lemma NoEarlierInSuffix(s: string, p: string, k: nat)
    requires 0 < k && forall i :: 0 <= i < k ==> !OccursAt(s, p, i)
    requires k <= |s|
    ensures !OccursAt(s, p, 0)
    ensures forall i :: 0 <= i < k - 1 ==> !OccursAt(s[1..], p, i)
  {
    forall i | 0 <= i < k - 1 ensures !OccursAt(s[1..], p, i) {
      OccursInSuffix(s, p, 1, i);
    }
  }

  /** Where the pattern starts at the front, it is replaced and the scan
      goes on after it. */
  lemma ReplaceHit(s: string, p: string, r: string)
    requires p != [] && OccursAt(s, p, 0)
    ensures Replace(s, p, r) == r + Replace(s[|p|..], p, r)
  {
  }

  lemma Regroup(a: string, b: string, c: string, d: string)
    ensures a + (b + c + d) == (a + b) + c + d
  {
  }

  lemma ShiftSlices(s: string, k: nat, m: nat)
    requires 0 < k <= m <= |s|
    ensures [s[0]] + s[1..][..k - 1] == s[..k]
    ensures s[1..][m - 1..] == s[m..]
  {
  }

  /** The replacement of `s` consists of `s` up to `k`, then `r`, then the
      replacement of what follows the occurrence at `k`. */
  predicate SplitsAt(s: string, p: string, r: string, k: nat)
    requires p != [] && k + |p| <= |s|
  {
    Replace(s, p, r) == s[..k] + r + Replace(s[k + |p|..], p, r)
  }

  /** The leftmost occurrence is the first one replaced, and the scan goes
      on right after it. */
  lemma ReplaceLeftmost(s: string, p: string, r: string, k: nat)
    requires p != [] && OccursAt(s, p, k)
    requires forall i :: 0 <= i < k ==> !OccursAt(s, p, i)
    ensures Replace(s, p, r) == s[..k] + r + Replace(s[k + |p|..], p, r)
  {
    LeftmostSplits(s, p, r, k);
  }

  lemma {:induction false} LeftmostSplits(s: string, p: string, r: string, k: nat)
    requires p != [] && OccursAt(s, p, k)
    requires forall i :: 0 <= i < k ==> !OccursAt(s, p, i)
    ensures SplitsAt(s, p, r, k)
    decreases k
  {
    if k == 0 {
      ReplaceHit(s, p, r);
      assert s[..0] == [];
    } else {
      OccursInSuffix(s, p, 1, k - 1);
      NoEarlierInSuffix(s, p, k);
      LeftmostSplits(s[1..], p, r, k - 1);
      LeftmostStep(s, p, r, k);
    }
  }

  /** One step of `LeftmostSplits`: a character that starts no occurrence
      moves in front of the rest. */
  lemma LeftmostStep(s: string, p: string, r: string, k: nat)
    requires p != [] && 0 < k && k + |p| <= |s| && !OccursAt(s, p, 0)
    requires SplitsAt(s[1..], p, r, k - 1)
    ensures SplitsAt(s, p, r, k)
  {
    var t := s[1..];
    calc {
      Replace(s, p, r);
      { ReplaceSkip(s, p, r); }
      [s[0]] + Replace(t, p, r);
      [s[0]] + (t[..k - 1] + r + Replace(t[k - 1 + |p|..], p, r));
      { Regroup([s[0]], t[..k - 1], r, Replace(t[k - 1 + |p|..], p, r)); }
      ([s[0]] + t[..k - 1]) + r + Replace(t[k - 1 + |p|..], p, r);
      { ShiftSlices(s, k, k + |p|); }
      s[..k] + r + Replace(s[k + |p|..], p, r);
    }
  }

  /** The pattern itself becomes the replacement. */
  lemma ReplaceWhole(p: string, r: string)
    requires p != []
    ensures Replace(p, p, r) == r
  {
    assert p[..|p|] == p && p[|p|..] == [];
  }

  /** No occurrence of `p` in `a + b` that starts in `a` and ends in `b`. */
  ghost predicate NoStraddle(a: string, b: string, p: string)
  {
    forall i :: 0 <= i < |a| < i + |p| ==> !OccursAt(a + b, p, i)
  }

  lemma NoStraddleSuffix(a: string, b: string, p: string, m: nat)
    requires NoStraddle(a, b, p) && m <= |a|
    ensures NoStraddle(a[m..], b, p)
  {
    assert a[m..] + b == (a + b)[m..];
    forall i | 0 <= i < |a| - m < i + |p| ensures !OccursAt(a[m..] + b, p, i) {
      OccursInSuffix(a + b, p, m, i);
    }
  }

  /** Replacing in a concatenation replaces in each part, when no
      occurrence straddles the join. */
  lemma ReplaceConcat(a: string, b: string, p: string, r: string)
    requires p != [] && NoStraddle(a, b, p)
    ensures Replace(a + b, p, r) == Replace(a, p, r) + Replace(b, p, r)
  {
    ConcatSplits(a, b, p, r);
  }

  predicate ReplacesApart(a: string, b: string, p: string, r: string)
    requires p != []
  {
    Replace(a + b, p, r) == Replace(a, p, r) + Replace(b, p, r)
  }

  lemma {:induction false} ConcatSplits(a: string, b: string, p: string, r: string)
    requires p != [] && NoStraddle(a, b, p)
    ensures ReplacesApart(a, b, p, r)
    decreases |a|
  {
    if a == [] {
      assert a + b == b;
    } else if |a + b| < |p| {
    } else if (a + b)[..|p|] == p {
      assert OccursAt(a + b, p, 0);
      assert |a| >= |p|;
      NoStraddleSuffix(a, b, p, |p|);
      ConcatSplits(a[|p|..], b, p, r);
      ConcatHitStep(a, b, p, r);
    } else {
      NoStraddleSuffix(a, b, p, 1);
      ConcatSplits(a[1..], b, p, r);
      ConcatSkipStep(a, b, p, r);
    }
  }

  lemma ConcatHitStep(a: string, b: string, p: string, r: string)
    requires p != [] && |p| <= |a| && OccursAt(a, p, 0)
    requires ReplacesApart(a[|p|..], b, p, r)
    ensures ReplacesApart(a, b, p, r)
  {
    assert (a + b)[..|p|] == a[..|p|];
    assert (a + b)[|p|..] == a[|p|..] + b;
    calc {
      Replace(a + b, p, r);
      { ReplaceHit(a + b, p, r); }
      r + Replace(a[|p|..] + b, p, r);
      r + (Replace(a[|p|..], p, r) + Replace(b, p, r));
      { Associative(r, Replace(a[|p|..], p, r), Replace(b, p, r)); }
      (r + Replace(a[|p|..], p, r)) + Replace(b, p, r);
      { ReplaceHit(a, p, r); }
      Replace(a, p, r) + Replace(b, p, r);
    }
  }

  lemma ConcatSkipStep(a: string, b: string, p: string, r: string)
    requires p != [] && a != [] && |p| <= |a + b| && !OccursAt(a + b, p, 0)
    requires ReplacesApart(a[1..], b, p, r)
    ensures ReplacesApart(a, b, p, r)
  {
    assert (a + b)[1..] == a[1..] + b;
    assert (a + b)[0] == a[0];
    calc {
      Replace(a + b, p, r);
      { ReplaceSkip(a + b, p, r); }
      [a[0]] + Replace(a[1..] + b, p, r);
      [a[0]] + (Replace(a[1..], p, r) + Replace(b, p, r));
      { Associative([a[0]], Replace(a[1..], p, r), Replace(b, p, r)); }
      ([a[0]] + Replace(a[1..], p, r)) + Replace(b, p, r);
      { FrontKept(a, b, p, r); }
      Replace(a, p, r) + Replace(b, p, r);
    }
  }

  /** The front character of `a` starts no occurrence in `a + b`, so it is
      kept in front of the replacement of the rest of `a`. */
  lemma FrontKept(a: string, b: string, p: string, r: string)
    requires p != [] && a != [] && !OccursAt(a + b, p, 0)
    ensures Replace(a, p, r) == [a[0]] + Replace(a[1..], p, r)
  {
    if |a| >= |p| {
      assert a[..|p|] == (a + b)[..|p|];
      ReplaceSkip(a, p, r);
    } else {
      assert a == [a[0]] + a[1..];
    }
  }

  lemma Associative(x: string, y: string, z: string)
    ensures x + (y + z) == (x + y) + z
  {
  }

  /** A lower-case pattern cannot straddle a join with a character other
      than a lower-case letter on one side of it. */
  lemma BoundaryNoStraddle(a: string, b: string, p: string)
    requires a != [] && b != []
    requires forall k :: 0 <= k < |p| ==> IsLower(p[k])
    requires !IsLower(a[|a| - 1]) || !IsLower(b[0])
    ensures NoStraddle(a, b, p)
  {
    forall i | 0 <= i < |a| < i + |p| ensures !OccursAt(a + b, p, i) {
      if i + |p| <= |a + b| {
        var w := (a + b)[i..i + |p|];
        assert w[|a| - 1 - i] == a[|a| - 1];
        assert w[|a| - i] == b[0];
      }
    }
  }

  /** `s.replace(c, d)` for single characters maps every character on its own. */
  lemma {:induction false} ReplaceChar(s: string, c: char, d: char)
    ensures |Replace(s, [c], [d])| == |s|
    ensures forall k :: 0 <= k < |s| ==> Replace(s, [c], [d])[k] == if s[k] == c then d else s[k]
    decreases |s|
  {
    if s != [] {
      ReplaceChar(s[1..], c, d);
      assert s[..1] == [s[0]];
      var t := Replace(s, [c], [d]);
      assert t == [if s[0] == c then d else s[0]] + Replace(s[1..], [c], [d]);
    }
  }

  /** The pieces of `cs` written one after another. */
  function Flatten(cs: seq<string>): string
  {
    if cs == [] then [] else cs[0] + Flatten(cs[1..])
  }

  predicate LowerWord(p: string)
  {
    p != [] && forall k :: 0 <= k < |p| ==> IsLower(p[k])
  }

  /** Replacing in text cut into pieces replaces piece by piece, when no
      occurrence runs from a piece into the pieces after it. */
  lemma {:induction false} ReplaceEach(cs: seq<string>, ds: seq<string>, p: string, r: string)
    requires p != [] && |cs| == |ds|
    requires forall k :: 0 <= k < |cs| ==> Replace(cs[k], p, r) == ds[k]
    requires forall k :: 0 <= k < |cs| - 1 ==> NoStraddle(cs[k], Flatten(cs[k + 1..]), p)
    ensures Replace(Flatten(cs), p, r) == Flatten(ds)
    decreases |cs|
  {
    if cs != [] {
      var rest := Flatten(cs[1..]);
      forall k | 0 <= k < |cs| - 2
        ensures NoStraddle(cs[1..][k], Flatten(cs[1..][k + 1..]), p)
      {
        assert cs[1..][k] == cs[k + 1] && cs[1..][k + 1..] == cs[k + 2..];
      }
      ReplaceEach(cs[1..], ds[1..], p, r);
      if |cs| > 1 {
        assert cs[0 + 1..] == cs[1..];
      } else {
        assert rest == [];
      }
      ReplaceConcat(cs[0], rest, p, r);
    }
  }

  /** No occurrence runs out of `a` when, at every place one could start,
      the first two characters of `p` are not there. */
  lemma LeftBlocks(a: string, b: string, p: string)
    requires |p| >= 2
    requires forall i :: 0 <= i < |a| < i + |p| ==> a[i] != p[0] || (i + 1 < |a| && a[i + 1] != p[1])
    ensures NoStraddle(a, b, p)
  {
    forall i | 0 <= i < |a| < i + |p| ensures !OccursAt(a + b, p, i) {
      if i + |p| <= |a + b| {
        var u := (a + b)[i..i + |p|];
        assert a[i] != p[0] || (i + 1 < |a| && a[i + 1] != p[1]);
        assert u[0] == a[i];
        if i + 1 < |a| {
          assert u[1] == a[i + 1];
        }
      }
    }
  }

  /** No occurrence runs into `w + z` when the first two characters of `w`
      do not appear together anywhere in `p` after its first character. */
  lemma RightBlocks(a: string, w: string, z: string, p: string)
    requires |w| >= 2
    requires forall j :: 0 < j < |p| ==> p[j] != w[0] || (j + 1 < |p| && p[j + 1] != w[1])
    ensures NoStraddle(a, w + z, p)
  {
    forall i | 0 <= i < |a| < i + |p| ensures !OccursAt(a + (w + z), p, i) {
      if i + |p| <= |a + (w + z)| {
        var u := (a + (w + z))[i..i + |p|];
        var j := |a| - i;
        assert p[j] != w[0] || (j + 1 < |p| && p[j + 1] != w[1]);
        assert u[j] == w[0];
        if j + 1 < |p| {
          assert u[j + 1] == w[1];
        }
      }
    }
  }

  /** No occurrence runs out of `a` when its last character is not in `p`. */
  lemma LastBlocks(a: string, b: string, p: string)
    requires a != [] && a[|a| - 1] !in p
    ensures NoStraddle(a, b, p)
  {
    forall i | 0 <= i < |a| < i + |p| ensures !OccursAt(a + b, p, i) {
      if i + |p| <= |a + b| {
        assert (a + b)[i..i + |p|][|a| - 1 - i] == a[|a| - 1];
      }
    }
  }

  /** Two pieces a replacement leaves alone, joined where the lower-case
      word cannot run across the join, are left alone together. */
  lemma KeepsJoined(x: string, y: string, p: string, r: string)
    requires LowerWord(p) && x != [] && y != [] && (!IsLower(x[|x| - 1]) || !IsLower(y[0]))
    requires Replace(x, p, r) == x && Replace(y, p, r) == y
    ensures Replace(x + y, p, r) == x + y
  {
    BoundaryNoStraddle(x, y, p);
    ReplaceConcat(x, y, p, r);
  }
}
