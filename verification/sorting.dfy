/** `sorted(...)` on strings: an insertion sort under Python's string
    order, and the fact that a sorted permutation is unique. */
module Sorting {

  import opened Strings

  predicate Sorted(s: seq<string>) {
    forall i, j :: 0 <= i < j < |s| ==> LexLeq(s[i], s[j])
  }

  /** `x` placed before the first element it does not follow. */
  function Insert(x: string, s: seq<string>): (r: seq<string>)
    requires Sorted(s)
    ensures Sorted(r)
    ensures multiset(r) == multiset(s) + multiset{x}
  {
    if |s| == 0 then [x]
    else if LexLeq(x, s[0]) then
      InsertFront(x, s);
      [x] + s
    else
      var tail := Insert(x, s[1..]);
      LexLeqTotal(x, s[0]);
      InsertBehind(s[0], x, s[1..], tail);
      assert s == [s[0]] + s[1..];
      [s[0]] + tail
  }

  lemma InsertFront(x: string, s: seq<string>)
    requires Sorted(s) && |s| > 0 && LexLeq(x, s[0])
    ensures Sorted([x] + s)
  {
    forall j | 0 < j < |[x] + s|
      ensures LexLeq(([x] + s)[0], ([x] + s)[j])
    {
      if j > 1 {
        LexLeqTransitive(x, s[0], s[j - 1]);
      }
    }
  }

  lemma InsertBehind(h: string, x: string, s: seq<string>, tail: seq<string>)
    requires Sorted([h] + s) && Sorted(tail) && LexLeq(h, x)
    requires multiset(tail) == multiset(s) + multiset{x}
    ensures Sorted([h] + tail)
  {
    forall j | 0 <= j < |tail|
      ensures LexLeq(h, tail[j])
    {
      assert tail[j] in multiset(tail);
      if tail[j] != x {
        assert tail[j] in multiset(s);
        var k :| 0 <= k < |s| && s[k] == tail[j];
        assert ([h] + s)[k + 1] == s[k];
        assert LexLeq(([h] + s)[0], ([h] + s)[k + 1]);
      }
    }
    forall i, j | 0 <= i < j < |[h] + tail|
      ensures LexLeq(([h] + tail)[i], ([h] + tail)[j])
    {
      if i > 0 {
        assert ([h] + tail)[i] == tail[i - 1] && ([h] + tail)[j] == tail[j - 1];
      }
    }
  }

  /** `sorted(names)`: the same names in ascending order. */
  function Sort(s: seq<string>): (r: seq<string>)
    ensures Sorted(r)
    ensures multiset(r) == multiset(s)
  {
    if |s| == 0 then []
    else
      assert s == [s[0]] + s[1..];
      Insert(s[0], Sort(s[1..]))
  }

  /** The first element of a sorted sequence is at most any of its elements. */
  lemma SortedHeadIsLeast(a: seq<string>, x: string)
    requires Sorted(a) && x in a
    ensures LexLeq(a[0], x)
  {
    var i :| 0 <= i < |a| && a[i] == x;
    if i == 0 {
      LexLeqReflexive(x);
    }
  }

  lemma SameHeadSameTail(a: seq<string>, b: seq<string>)
    requires |a| > 0 && |b| > 0 && a[0] == b[0]
    requires multiset(a) == multiset(b)
    ensures multiset(a[1..]) == multiset(b[1..])
  {
    assert a == [a[0]] + a[1..];
    assert b == [b[0]] + b[1..];
    assert multiset(a) == multiset{a[0]} + multiset(a[1..]);
    assert multiset(b) == multiset{b[0]} + multiset(b[1..]);
    assert (multiset{a[0]} + multiset(a[1..])) - multiset{a[0]} == multiset(a[1..]);
    assert (multiset{b[0]} + multiset(b[1..])) - multiset{b[0]} == multiset(b[1..]);
  }

  /** Two sorted sequences holding the same multiset are equal, so the sort
      result does not depend on the order of its input. */
  lemma {:induction false} SortedUnique(a: seq<string>, b: seq<string>)
    requires Sorted(a) && Sorted(b)
    requires multiset(a) == multiset(b)
    ensures a == b
  {
    if |a| == 0 {
      assert |multiset(b)| == 0;
    } else {
      assert a[0] in multiset(b) && |b| > 0 && b[0] in multiset(a);
      SortedHeadIsLeast(b, a[0]);
      SortedHeadIsLeast(a, b[0]);
      LexLeqAntisymmetric(a[0], b[0]);
      SameHeadSameTail(a, b);
      assert Sorted(a[1..]) && Sorted(b[1..]);
      SortedUnique(a[1..], b[1..]);
      assert a == [a[0]] + a[1..] && b == [b[0]] + b[1..];
    }
  }

  /** The input order of `sorted` is irrelevant. */
  lemma SortPermutationInvariant(s: seq<string>, t: seq<string>)
    requires multiset(s) == multiset(t)
    ensures Sort(s) == Sort(t)
  {
    SortedUnique(Sort(s), Sort(t));
  }
}
