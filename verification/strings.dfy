/** The handful of Python `str` operations the resource code relies on. */
module Strings {

  /** `s.endswith(suffix)` for a single suffix. */
  predicate EndsWith(s: string, suffix: string) {
    |suffix| <= |s| && s[|s| - |suffix|..] == suffix
  }

  /** `t in s`: `t` occurs as a contiguous piece of `s`. */
  predicate Contains(s: string, t: string) {
    exists i, j :: 0 <= i <= j <= |s| && s[i..j] == t
  }

  /** `sep.join(parts)`. */
  function Join(sep: string, parts: seq<string>): string
  {
    if |parts| == 0 then ""
    else if |parts| == 1 then parts[0]
    else parts[0] + sep + Join(sep, parts[1..])
  }

  /** Every part of a join occurs in the joined string, whatever the separator. */
  lemma {:induction false} JoinContainsParts(sep: string, parts: seq<string>)
    ensures forall i :: 0 <= i < |parts| ==> Contains(Join(sep, parts), parts[i])
  {
    forall i | 0 <= i < |parts|
      ensures Contains(Join(sep, parts), parts[i])
    {
      JoinContainsPart(sep, parts, i);
    }
  }

  lemma {:induction false} JoinContainsPart(sep: string, parts: seq<string>, i: nat)
    requires i < |parts|
    ensures Contains(Join(sep, parts), parts[i])
  {
    var s := Join(sep, parts);
    if |parts| == 1 {
      assert s[0..|s|] == parts[i];
    } else if i == 0 {
      assert s[0..|parts[0]|] == parts[0];
    } else {
      var rest := Join(sep, parts[1..]);
      JoinContainsPart(sep, parts[1..], i - 1);
      var a, b :| 0 <= a <= b <= |rest| && rest[a..b] == parts[1..][i - 1];
      var off := |parts[0] + sep|;
      assert s == (parts[0] + sep) + rest;
      assert s[off + a..off + b] == rest[a..b];
    }
  }

  /** Python's `a <= b` on `str`: code-point lexicographic order, a proper
      prefix sorting first. */
  predicate LexLeq(a: string, b: string)
    decreases |a|
  {
    |a| == 0 || (|b| > 0 && (a[0] < b[0] || (a[0] == b[0] && LexLeq(a[1..], b[1..]))))
  }

  lemma {:induction false} LexLeqReflexive(a: string)
    ensures LexLeq(a, a)
    decreases |a|
  {
    if |a| > 0 {
      LexLeqReflexive(a[1..]);
    }
  }

  lemma {:induction false} LexLeqTotal(a: string, b: string)
    ensures LexLeq(a, b) || LexLeq(b, a)
    decreases |a|
  {
    if |a| > 0 && |b| > 0 && a[0] == b[0] {
      LexLeqTotal(a[1..], b[1..]);
    }
  }

  lemma {:induction false} LexLeqAntisymmetric(a: string, b: string)
    requires LexLeq(a, b) && LexLeq(b, a)
    ensures a == b
    decreases |a|
  {
    if |a| > 0 {
      LexLeqAntisymmetric(a[1..], b[1..]);
      assert a == [a[0]] + a[1..];
      assert b == [b[0]] + b[1..];
    }
  }

  lemma {:induction false} LexLeqTransitive(a: string, b: string, c: string)
    requires LexLeq(a, b) && LexLeq(b, c)
    ensures LexLeq(a, c)
    decreases |a|
  {
    if |a| > 0 && a[0] == b[0] && b[0] == c[0] {
      LexLeqTransitive(a[1..], b[1..], c[1..]);
    }
  }
}
