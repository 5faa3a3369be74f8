/**
 The order `Array.prototype.sort()` uses when given no comparator: strings
 compared lexicographically character by character, a proper prefix first.
 Sorting here is insertion sort on a duplicate-free list, which is all the
 technology filter needs (its tags are de-duplicated before sorting).
 */
module TagOrder {
  import opened Seqs

  /** Strict lexicographic order on strings. */
  predicate Less(a: string, b: string)
    decreases |a|
  {
    if |a| == 0 then |b| > 0
    else |b| > 0 && (a[0] < b[0] || (a[0] == b[0] && Less(a[1..], b[1..])))
  }

  predicate StrictlySorted(s: seq<string>) {
    forall i, j :: 0 <= i < j < |s| ==> Less(s[i], s[j])
  }

  lemma {:induction false} LessIrreflexive(a: string)
    ensures !Less(a, a)
  {
    if |a| > 0 {
      LessIrreflexive(a[1..]);
    }
  }

  lemma {:induction false} LessTransitive(a: string, b: string, c: string)
    requires Less(a, b) && Less(b, c)
    ensures Less(a, c)
    decreases |a|
  {
    if |a| > 0 && a[0] == b[0] && b[0] == c[0] {
      LessTransitive(a[1..], b[1..], c[1..]);
    }
  }

  lemma {:induction false} LessTotal(a: string, b: string)
    requires a != b
    ensures Less(a, b) || Less(b, a)
    decreases |a|
  {
    if |a| > 0 && |b| > 0 && a[0] == b[0] {
      assert a == [a[0]] + a[1..] && b == [b[0]] + b[1..];
      LessTotal(a[1..], b[1..]);
    }
  }

  lemma LessAsymmetric(a: string, b: string)
    requires Less(a, b)
    ensures !Less(b, a)
  {
    if Less(b, a) {
      LessTransitive(a, b, a);
      LessIrreflexive(a);
    }
  }

  lemma SortedDistinct(s: seq<string>)
    requires StrictlySorted(s)
    ensures Distinct(s)
  {
    forall i, j | 0 <= i < j < |s|
      ensures s[i] != s[j]
    {
      if s[i] == s[j] {
        LessIrreflexive(s[i]);
      }
    }
  }

  /** Insert a new string into a strictly sorted list at its place. */
  function Insert(x: string, s: seq<string>): (r: seq<string>)
    requires StrictlySorted(s)
    requires x !in s
    ensures StrictlySorted(r)
    ensures |r| == |s| + 1
    ensures forall y :: y in r <==> y in s || y == x
    decreases |s|
  {
    if |s| == 0 then [x]
    else if Less(s[|s| - 1], x) then
      assert forall i :: 0 <= i < |s| - 1 ==> Less(s[i], s[|s| - 1]);
      LessTransitiveFrom(s, x);
      s + [x]
    else
      var init := s[..|s| - 1];
      var last := s[|s| - 1];
      LessTotal(x, last);
      assert s == init + [last];
      var r' := Insert(x, init);
      assert forall y :: y in r' ==> Less(y, last) by {
        forall y | y in r'
          ensures Less(y, last)
        {
          if y != x {
            var i :| 0 <= i < |init| && init[i] == y;
            assert Less(s[i], s[|s| - 1]);
          }
        }
      }
      AppendGreatest(r', last);
      r' + [last]
  }

  lemma LessTransitiveFrom(s: seq<string>, x: string)
    requires StrictlySorted(s) && |s| > 0
    requires Less(s[|s| - 1], x)
    ensures StrictlySorted(s + [x])
  {
    forall i | 0 <= i < |s| - 1
      ensures Less(s[i], x)
    {
      LessTransitive(s[i], s[|s| - 1], x);
    }
  }

  lemma AppendGreatest(s: seq<string>, x: string)
    requires StrictlySorted(s)
    requires forall y :: y in s ==> Less(y, x)
    ensures StrictlySorted(s + [x])
  {
    forall i, j | 0 <= i < j < |s| + 1
      ensures Less((s + [x])[i], (s + [x])[j])
    {
      if j == |s| {
        assert s[i] in s;
      }
    }
  }

  /** `Array.from(set).sort()`: the same strings, in ascending order. */
  function Sort(s: seq<string>): (r: seq<string>)
    requires Distinct(s)
    ensures StrictlySorted(r)
    ensures |r| == |s|
    ensures forall y :: y in r <==> y in s
  {
    if |s| == 0 then []
    else
      var init := s[..|s| - 1];
      assert s == init + [s[|s| - 1]];
      assert s[|s| - 1] !in init;
      Insert(s[|s| - 1], Sort(init))
  }

  /** A strictly sorted list is determined by its elements: any two with the
      same elements are equal. */
  lemma {:induction false} SortedUnique(a: seq<string>, b: seq<string>)
    requires StrictlySorted(a) && StrictlySorted(b)
    requires forall y :: y in a <==> y in b
    ensures a == b
    decreases |a|
  {
    if |a| == 0 {
      LastIsMember(b);
    } else {
      assert |b| > 0 by {
        assert a[0] in a;
      }
      var la, lb := a[|a| - 1], b[|b| - 1];
      assert la == lb by {
        assert la in b && lb in a;
        var i :| 0 <= i < |b| && b[i] == la;
        var j :| 0 <= j < |a| && a[j] == lb;
        if la != lb {
          assert Less(lb, la) by {
            assert j < |a| - 1;
          }
          assert Less(la, lb) by {
            assert i < |b| - 1;
          }
          LessAsymmetric(la, lb);
        }
      }
      var a', b' := a[..|a| - 1], b[..|b| - 1];
      forall y
        ensures y in a' <==> y in b'
      {
        SortedDropLast(a, y);
        SortedDropLast(b, y);
      }
      SortedUnique(a', b');
      assert a == a' + [la] && b == b' + [lb];
    }
  }

  lemma LastIsMember(s: seq<string>)
    ensures |s| == 0 || s[|s| - 1] in s
  {
  }

  lemma SortedDropLast(s: seq<string>, y: string)
    requires StrictlySorted(s) && |s| > 0
    ensures y in s[..|s| - 1] <==> y in s && y != s[|s| - 1]
  {
    assert s == s[..|s| - 1] + [s[|s| - 1]];
    SortedDistinct(s);
    if y in s && y != s[|s| - 1] {
      var i :| 0 <= i < |s| && s[i] == y;
      assert s[..|s| - 1][i] == y;
    }
  }
}
