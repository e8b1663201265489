/**
 * Python's `sorted` on a list of strings, as an insertion sort in the
 * code-point order of `Text.LessEq`, with the facts the response relies on:
 * the result is an ordered permutation of the input, it is strictly
 * ascending when the input has no duplicates, and a strictly ascending list
 * is determined by its elements alone.
 */
module Sorting {
  import opened Text

  /** No element occurs twice. */
  predicate NoDuplicates(s: seq<string>) {
    forall i, j :: 0 <= i < j < |s| ==> s[i] != s[j]
  }

  /** Non-decreasing in Python's string order. */
  predicate Ascending(s: seq<string>) {
    forall i, j :: 0 <= i < j < |s| ==> LessEq(s[i], s[j])
  }

  /** Ascending and duplicate-free. */
  predicate StrictlyAscending(s: seq<string>) {
    forall i, j :: 0 <= i < j < |s| ==> LessEq(s[i], s[j]) && s[i] != s[j]
  }

  /** Places `x` into an ascending list. */
  function Insert(x: string, s: seq<string>): (r: seq<string>)
    requires Ascending(s)
    ensures |r| == |s| + 1
    ensures Ascending(r)
    ensures multiset(r) == multiset(s) + multiset{x}
  {
    if s == [] then [x]
    else if LessEq(x, s[0]) then
      PrependBelowHead(x, s);
      [x] + s
    else
      var tail := Insert(x, s[1..]);
      LessEqTotal(x, s[0]);
      assert s == [s[0]] + s[1..];
      PrependBelowAll(s[0], s, tail, x);
      [s[0]] + tail
  }

  lemma PrependBelowHead(x: string, s: seq<string>)
    requires Ascending(s) && s != [] && LessEq(x, s[0])
    ensures Ascending([x] + s)
  {
    forall j | 0 <= j < |s| ensures LessEq(x, s[j]) {
      if j > 0 { LessEqTransitive(x, s[0], s[j]); }
    }
  }

  lemma PrependBelowAll(h: string, s: seq<string>, tail: seq<string>, x: string)
    requires Ascending(s) && s != [] && h == s[0] && LessEq(h, x)
    requires Ascending(tail) && multiset(tail) == multiset(s[1..]) + multiset{x}
    ensures Ascending([h] + tail)
  {
    forall j | 0 <= j < |tail| ensures LessEq(h, tail[j]) {
      assert tail[j] in multiset(tail);
      if tail[j] != x {
        assert tail[j] in multiset(s[1..]);
        var k :| 0 <= k < |s[1..]| && s[1..][k] == tail[j];
        assert s[k + 1] == tail[j];
      }
    }
  }

  /** `sorted(xs)`: an ascending permutation of `xs`. */
  function Sort(xs: seq<string>): (r: seq<string>)
    ensures |r| == |xs|
    ensures Ascending(r)
    ensures multiset(r) == multiset(xs)
  {
    if xs == [] then []
    else
      assert xs == [xs[0]] + xs[1..];
      Insert(xs[0], Sort(xs[1..]))
  }

  lemma {:induction false} InsertStrict(x: string, s: seq<string>)
    requires StrictlyAscending(s) && x !in s
    ensures StrictlyAscending(Insert(x, s))
  {
    if s == [] {
    } else if LessEq(x, s[0]) {
      assert Insert(x, s) == [x] + s;
      ConsStrict(x, s);
    } else {
      InsertStrict(x, s[1..]);
      var tail := Insert(x, s[1..]);
      assert Insert(x, s) == [s[0]] + tail;
      assert s == [s[0]] + s[1..];
      forall j | 0 <= j < |tail| ensures s[0] != tail[j] {
        assert tail[j] in multiset(tail);
      }
      ConsStrict(s[0], tail);
    }
  }

  lemma ConsStrict(h: string, t: seq<string>)
    requires Ascending([h] + t) && StrictlyAscending(t)
    requires forall j :: 0 <= j < |t| ==> h != t[j]
    ensures StrictlyAscending([h] + t)
  {
    var r := [h] + t;
    forall i, j | 0 <= i < j < |r| ensures r[i] != r[j] {
      if i == 0 {
        assert r[j] == t[j - 1];
      } else {
        assert r[i] == t[i - 1] && r[j] == t[j - 1];
      }
    }
  }

  /** Sorting a duplicate-free list gives a strictly ascending one. */
  lemma {:induction false} SortStrict(xs: seq<string>)
    requires NoDuplicates(xs)
    ensures StrictlyAscending(Sort(xs))
  {
    if xs != [] {
      SortStrict(xs[1..]);
      var rest := Sort(xs[1..]);
      assert xs[0] !in multiset(rest);
      InsertStrict(xs[0], rest);
    }
  }

  /** A duplicate-free list has as many elements as its set. */
  lemma {:induction false} DistinctCount(xs: seq<string>)
    requires NoDuplicates(xs)
    ensures |set s | s in xs| == |xs|
  {
    if xs != [] {
      DistinctCount(xs[1..]);
      assert (set s | s in xs) == {xs[0]} + (set s | s in xs[1..]);
      assert xs[0] !in (set s | s in xs[1..]);
    }
  }

  /**
   * Two strictly ascending lists with the same elements are equal, so the
   * sorted list of a set does not depend on the order the set was listed in.
   */
  lemma {:induction false} StrictlyAscendingUnique(a: seq<string>, b: seq<string>)
    requires StrictlyAscending(a) && StrictlyAscending(b)
    requires forall x :: x in a <==> x in b
    ensures a == b
  {
    if a == [] {
      DistinctCount(b);
      assert (set x | x in b) == {};
    } else {
      assert a[0] in b;
      assert b != [];
      assert b[0] in a;
      var i :| 0 <= i < |a| && a[i] == b[0];
      var j :| 0 <= j < |b| && b[j] == a[0];
      if i > 0 { } else { LessEqReflexive(a[0]); }
      if j > 0 { } else { LessEqReflexive(b[0]); }
      LessEqAntisymmetric(a[0], b[0]);
      forall x ensures x in a[1..] <==> x in b[1..] {
        if x in a[1..] {
          var k :| 0 <= k < |a[1..]| && a[1..][k] == x;
          assert a[k + 1] == x && x != a[0];
          assert x in b;
          var m :| 0 <= m < |b| && b[m] == x;
          assert m != 0;
          assert b[1..][m - 1] == x;
        }
        if x in b[1..] {
          var k :| 0 <= k < |b[1..]| && b[1..][k] == x;
          assert b[k + 1] == x && x != b[0];
          assert x in a;
          var m :| 0 <= m < |a| && a[m] == x;
          assert m != 0;
          assert a[1..][m - 1] == x;
        }
      }
      StrictlyAscendingUnique(a[1..], b[1..]);
      assert a == [a[0]] + a[1..];
      assert b == [b[0]] + b[1..];
    }
  }
}
