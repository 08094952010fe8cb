/**
 * Python's ordering of strings (lexicographic by code point, a proper
 * prefix first) and `sorted(set(xs))` realised as insertion into a strictly
 * ascending sequence.
 */
module StringOrder {

  /** `a < b` on Python strings. */
  predicate Less(a: string, b: string)
  {
    if a == [] then b != []
    else if b == [] then false
    else if a[0] != b[0] then a[0] < b[0]
    else Less(a[1..], b[1..])
  }

  lemma {:induction false} LessIrreflexive(a: string)
    ensures !Less(a, a)
  {
    if a != [] {
      LessIrreflexive(a[1..]);
    }
  }

  lemma {:induction false} LessTransitive(a: string, b: string, c: string)
    requires Less(a, b) && Less(b, c)
    ensures Less(a, c)
  {
    if a != [] && a[0] == b[0] && b[0] == c[0] {
      LessTransitive(a[1..], b[1..], c[1..]);
    }
  }

  /** Two different strings are ordered one way or the other, never both. */
  lemma {:induction false} LessTrichotomy(a: string, b: string)
    ensures a == b || Less(a, b) || Less(b, a)
    ensures !(Less(a, b) && Less(b, a))
  {
    if a != [] && b != [] && a[0] == b[0] {
      LessTrichotomy(a[1..], b[1..]);
      assert a == [a[0]] + a[1..] && b == [b[0]] + b[1..];
    }
  }

  /** Ascending with no repeats: what `sorted` returns for a set. */
  predicate StrictlySorted(xs: seq<string>)
  {
    forall i, j :: 0 <= i < j < |xs| ==> Less(xs[i], xs[j])
  }

  lemma SortedCons(h: string, t: seq<string>)
    requires StrictlySorted(t)
    requires forall y :: y in t ==> Less(h, y)
    ensures StrictlySorted([h] + t)
  {
    var r := [h] + t;
    forall i, j | 0 <= i < j < |r| ensures Less(r[i], r[j]) {
      if i == 0 {
        assert r[j] == t[j - 1];
      } else {
        assert r[i] == t[i - 1] && r[j] == t[j - 1];
      }
    }
  }

  /** `xs` with `x` added, kept strictly ascending. */
  function Insert(xs: seq<string>, x: string): (r: seq<string>)
    requires StrictlySorted(xs)
    ensures StrictlySorted(r)
    ensures forall y :: y in r <==> y in xs || y == x
  {
    if xs == [] then [x]
    else if x == xs[0] then xs
    else if Less(x, xs[0]) then
      InsertFrontSorted(xs, x);
      [x] + xs
    else
      var rest := Insert(xs[1..], x);
      InsertAfterSorted(xs, x, rest);
      [xs[0]] + rest
  }

  lemma InsertFrontSorted(xs: seq<string>, x: string)
    requires StrictlySorted(xs) && xs != [] && Less(x, xs[0])
    ensures StrictlySorted([x] + xs)
  {
    forall y | y in xs ensures Less(x, y) {
      if y != xs[0] {
        LessTransitive(x, xs[0], y);
      }
    }
    SortedCons(x, xs);
  }

  lemma InsertAfterSorted(xs: seq<string>, x: string, rest: seq<string>)
    requires StrictlySorted(xs) && xs != [] && x != xs[0] && !Less(x, xs[0])
    requires StrictlySorted(rest)
    requires forall y :: y in rest <==> y in xs[1..] || y == x
    ensures StrictlySorted([xs[0]] + rest)
  {
    LessTrichotomy(x, xs[0]);
    forall y | y in rest ensures Less(xs[0], y) {
      if y != x {
        var k :| 0 <= k < |xs[1..]| && xs[1..][k] == y;
        assert y == xs[k + 1];
      }
    }
    SortedCons(xs[0], rest);
  }

  /** `sorted(set(xs))`: the distinct elements of `xs` in ascending order. */
  function SortedSet(xs: seq<string>): (r: seq<string>)
    ensures StrictlySorted(r)
    ensures forall y :: y in r <==> y in xs
  {
    if xs == [] then []
    else
      var init := xs[..|xs| - 1];
      assert xs == init + [xs[|xs| - 1]];
      Insert(SortedSet(init), xs[|xs| - 1])
  }

  /** A strictly ascending sequence is determined by its elements, so
      `SortedSet` yields the one sorted order of the set. */
  lemma {:induction false} SortedUnique(a: seq<string>, b: seq<string>)
    requires StrictlySorted(a) && StrictlySorted(b)
    requires forall y :: y in a <==> y in b
    ensures a == b
  {
    assert a != [] ==> a[0] in b;
    assert b != [] ==> b[0] in a;
    if a != [] && b != [] {
      assert a[0] in b && b[0] in a;
      var i :| 0 <= i < |b| && b[i] == a[0];
      var j :| 0 <= j < |a| && a[j] == b[0];
      if a[0] != b[0] {
        assert i > 0 && j > 0;
        assert Less(b[0], a[0]) && Less(a[0], b[0]);
        LessTrichotomy(a[0], b[0]);
        assert false;
      }
      forall y ensures y in a[1..] <==> y in b[1..] {
        if y in a[1..] {
          var k :| 0 <= k < |a[1..]| && a[1..][k] == y;
          assert Less(a[0], y);
          LessIrreflexive(y);
          assert y in b && y != b[0];
        }
        if y in b[1..] {
          var k :| 0 <= k < |b[1..]| && b[1..][k] == y;
          assert Less(b[0], y);
          LessIrreflexive(y);
          assert y in a && y != a[0];
        }
      }
      SortedUnique(a[1..], b[1..]);
      assert a == [a[0]] + a[1..] && b == [b[0]] + b[1..];
    }
  }
}
