/**
 Sequence operations shared by the components: duplicate-freeness, the
 insertion-ordered de-duplication that `[...new Set(xs)]` performs, the
 `xs.filter(x => x !== y)` removal, and order-preserving subsequences.
 Every recursive definition peels off the last element.
 */
module Seqs {

  predicate Distinct<T(==)>(s: seq<T>) {
    forall i, j :: 0 <= i < j < |s| ==> s[i] != s[j]
  }

  /** `a` can be obtained from `b` by deleting elements, keeping the order of the rest. */
  predicate IsSubseq<T(==)>(a: seq<T>, b: seq<T>)
    decreases |b|
  {
    if |a| == 0 then true
    else if |b| == 0 then false
    else (a[|a| - 1] == b[|b| - 1] && IsSubseq(a[..|a| - 1], b[..|b| - 1]))
         || IsSubseq(a, b[..|b| - 1])
  }

  /** `[...new Set(s)]`: each element once, at the position of its first occurrence. */
  function Dedup<T(==,!new)>(s: seq<T>): (r: seq<T>)
    ensures Distinct(r)
    ensures forall x :: x in r <==> x in s
    ensures |r| <= |s|
    ensures IsSubseq(r, s)
  {
    if |s| == 0 then []
    else
      var d := Dedup(s[..|s| - 1]);
      var x := s[|s| - 1];
      assert forall y :: y in s <==> y in s[..|s| - 1] || y == x by {
        assert s == s[..|s| - 1] + [x];
      }
      if x in d then
        SubseqExtend(d, s[..|s| - 1], x);
        d
      else
        SubseqAppend(d, s[..|s| - 1], x);
        d + [x]
  }

  /** `s.filter(x => x !== y)`: every occurrence of `y` removed, the rest kept in order. */
  function Without<T(==,!new)>(s: seq<T>, y: T): (r: seq<T>)
    ensures IsSubseq(r, s)
    ensures forall x :: multiset(r)[x] == if x == y then 0 else multiset(s)[x]
  {
    if |s| == 0 then []
    else
      var w := Without(s[..|s| - 1], y);
      var x := s[|s| - 1];
      assert s == s[..|s| - 1] + [x];
      if x == y then
        SubseqExtend(w, s[..|s| - 1], x);
        w
      else
        SubseqAppend(w, s[..|s| - 1], x);
        w + [x]
  }

  lemma SubseqExtend<T>(a: seq<T>, b: seq<T>, x: T)
    requires IsSubseq(a, b)
    ensures IsSubseq(a, b + [x])
  {
    assert (b + [x])[..|b|] == b;
  }

  lemma SubseqAppend<T>(a: seq<T>, b: seq<T>, x: T)
    requires IsSubseq(a, b)
    ensures IsSubseq(a + [x], b + [x])
  {
    assert (a + [x])[..|a|] == a;
    assert (b + [x])[..|b|] == b;
  }

  /** A subsequence only holds elements of the sequence it was taken from. */
  lemma {:induction false} SubseqMembers<T>(a: seq<T>, b: seq<T>)
    requires IsSubseq(a, b)
    ensures forall x :: x in a ==> x in b
  {
    if |a| > 0 {
      assert b == b[..|b| - 1] + [b[|b| - 1]];
      if a[|a| - 1] == b[|b| - 1] && IsSubseq(a[..|a| - 1], b[..|b| - 1]) {
        SubseqMembers(a[..|a| - 1], b[..|b| - 1]);
        assert a == a[..|a| - 1] + [a[|a| - 1]];
      } else {
        SubseqMembers(a, b[..|b| - 1]);
      }
    }
  }

  /** De-duplicating a sequence that has no duplicates changes nothing. */
  lemma {:induction false} DedupDistinct<T(!new)>(s: seq<T>)
    requires Distinct(s)
    ensures Dedup(s) == s
  {
    if |s| > 0 {
      DedupDistinct(s[..|s| - 1]);
      assert s == s[..|s| - 1] + [s[|s| - 1]];
    }
  }

  /** Elements of `r` appear in the order of their first occurrences in `s`:
      for `i < j`, some occurrence of `r[i]` in `s` comes before every occurrence of `r[j]`. */
  ghost predicate FirstOccurrenceOrder<T>(r: seq<T>, s: seq<T>) {
    forall i, j :: 0 <= i < j < |r| ==>
      exists a :: 0 <= a < |s| && s[a] == r[i] && r[j] !in s[..a + 1]
  }

  /** `Dedup` keeps each element where it first occurs, as a `Set` iterates in insertion order. */
  lemma {:induction false} DedupFirstOccurrence<T(!new)>(s: seq<T>)
    ensures FirstOccurrenceOrder(Dedup(s), s)
  {
    if |s| > 0 {
      var p := s[..|s| - 1];
      var x := s[|s| - 1];
      DedupFirstOccurrence(p);
      var d := Dedup(p);
      var r := Dedup(s);
      assert r == if x in d then d else d + [x];
      forall i, j | 0 <= i < j < |r|
        ensures exists a :: 0 <= a < |s| && s[a] == r[i] && r[j] !in s[..a + 1]
      {
        if j < |d| {
          var a :| 0 <= a < |p| && p[a] == d[i] && d[j] !in p[..a + 1];
          assert s[..a + 1] == p[..a + 1];
          assert s[a] == r[i] && r[j] !in s[..a + 1];
        } else {
          assert r[j] == x && x !in p;
          assert d[i] in p;
          var a :| 0 <= a < |p| && p[a] == d[i];
          assert s[..a + 1] == p[..a + 1];
          assert s[a] == r[i] && r[j] !in s[..a + 1];
        }
      }
    }
  }

  /** Removing an element that does not occur changes nothing. */
  lemma {:induction false} WithoutAbsent<T(!new)>(s: seq<T>, y: T)
    requires y !in s
    ensures Without(s, y) == s
  {
    if |s| > 0 {
      assert s == s[..|s| - 1] + [s[|s| - 1]];
      WithoutAbsent(s[..|s| - 1], y);
    }
  }

  /** Deleting elements from a duplicate-free sequence leaves it duplicate-free. */
  lemma {:induction false} SubseqDistinct<T>(a: seq<T>, b: seq<T>)
    requires IsSubseq(a, b)
    requires Distinct(b)
    ensures Distinct(a)
  {
    if |a| > 0 {
      var b' := b[..|b| - 1];
      if a[|a| - 1] == b[|b| - 1] && IsSubseq(a[..|a| - 1], b') {
        SubseqDistinct(a[..|a| - 1], b');
        SubseqMembers(a[..|a| - 1], b');
        assert forall i :: 0 <= i < |b'| ==> b'[i] == b[i] != b[|b| - 1];
        forall i, j | 0 <= i < j < |a|
          ensures a[i] != a[j]
        {
          if j == |a| - 1 {
            assert a[i] in a[..|a| - 1];
          } else {
            assert a[i] == a[..|a| - 1][i] && a[j] == a[..|a| - 1][j];
          }
        }
      } else {
        SubseqDistinct(a, b');
      }
    }
  }
}
