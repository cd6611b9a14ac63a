/** Facts about sequences as sets and multisets. */
module Collections {

  ghost predicate Distinct<T>(s: seq<T>) {
    forall i, j :: 0 <= i < j < |s| ==> s[i] != s[j]
  }

  ghost function Elements<T>(s: seq<T>): set<T> {
    set x | x in s
  }

  lemma {:induction false} OccursAtMostOnce<T>(s: seq<T>, x: T)
    requires Distinct(s)
    ensures multiset(s)[x] == if x in s then 1 else 0
  {
    if s != [] {
      assert s == [s[0]] + s[1..];
      OccursAtMostOnce(s[1..], x);
    }
  }

  lemma DistinctMultiset<T>(s: seq<T>, t: seq<T>)
    requires Distinct(s) && Distinct(t) && Elements(s) == Elements(t)
    ensures multiset(s) == multiset(t)
  {
    forall x ensures multiset(s)[x] == multiset(t)[x] {
      assert x in s <==> x in Elements(t);
      OccursAtMostOnce(s, x);
      OccursAtMostOnce(t, x);
    }
  }

  lemma {:induction false} DistinctCardinality<T>(s: seq<T>)
    requires Distinct(s)
    ensures |Elements(s)| == |s|
  {
    if s != [] {
      var n := |s| - 1;
      DistinctCardinality(s[..n]);
      assert Elements(s) == Elements(s[..n]) + {s[n]};
    }
  }

  lemma SubsetSize<T>(a: set<T>, b: set<T>)
    requires a <= b
    ensures |a| <= |b|
  {
    assert b == a + (b - a) && a !! (b - a);
  }
}
