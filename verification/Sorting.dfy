/** Stable sorting by a total preorder, and the uniqueness of sorted arrangements. */
module Sorting {

  ghost predicate TotalPreorder<T(!new)>(le: (T, T) -> bool) {
    && (forall a, b :: le(a, b) || le(b, a))
    && (forall a, b, c :: le(a, b) && le(b, c) ==> le(a, c))
  }

  ghost predicate Sorted<T>(s: seq<T>, le: (T, T) -> bool) {
    forall i, j :: 0 <= i < j < |s| ==> le(s[i], s[j])
  }

  ghost predicate AntisymmetricOn<T>(s: seq<T>, le: (T, T) -> bool) {
    forall i, j :: 0 <= i < |s| && 0 <= j < |s| && le(s[i], s[j]) && le(s[j], s[i]) ==> s[i] == s[j]
  }

  /** Puts `x` before the first element it does not exceed. */
  function InsertSorted<T>(x: T, s: seq<T>, le: (T, T) -> bool): seq<T> {
    if s == [] then [x]
    else if le(x, s[0]) then [x] + s
    else [s[0]] + InsertSorted(x, s[1..], le)
  }

  /** `sort_by` / `sort_by_key`: a stable sort. */
  function Sort<T>(s: seq<T>, le: (T, T) -> bool): seq<T> {
    if s == [] then [] else InsertSorted(s[0], Sort(s[1..], le), le)
  }

  lemma HeadTail<T>(s: seq<T>)
    requires s != []
    ensures multiset(s) == multiset{s[0]} + multiset(s[1..])
  {
    assert s == [s[0]] + s[1..];
  }

  lemma {:induction false} InsertSortedElements<T>(x: T, s: seq<T>, le: (T, T) -> bool)
    ensures multiset(InsertSorted(x, s, le)) == multiset{x} + multiset(s)
  {
    if s != [] {
      HeadTail(s);
      if !le(x, s[0]) {
        InsertSortedElements(x, s[1..], le);
      }
    }
  }

  lemma {:induction false} InsertSortedOrder<T(!new)>(x: T, s: seq<T>, le: (T, T) -> bool)
    requires TotalPreorder(le) && Sorted(s, le)
    ensures Sorted(InsertSorted(x, s, le), le)
  {
    if s != [] && !le(x, s[0]) {
      InsertSortedOrder(x, s[1..], le);
      InsertSortedElements(x, s[1..], le);
      var r := InsertSorted(x, s[1..], le);
      forall j | 0 <= j < |r| ensures le(s[0], r[j]) {
        assert r[j] in multiset(r);
        assert r[j] == x || r[j] in s[1..];
      }
    }
  }

  lemma {:induction false} SortProps<T(!new)>(s: seq<T>, le: (T, T) -> bool)
    requires TotalPreorder(le)
    ensures Sorted(Sort(s, le), le)
    ensures multiset(Sort(s, le)) == multiset(s)
    ensures |Sort(s, le)| == |s|
  {
    if s == [] {
    } else {
      SortProps(s[1..], le);
      InsertSortedOrder(s[0], Sort(s[1..], le), le);
      InsertSortedElements(s[0], Sort(s[1..], le), le);
      HeadTail(s);
    }
    assert |multiset(Sort(s, le))| == |multiset(s)|;
  }

  lemma SameFirst<T>(s: seq<T>, t: seq<T>, le: (T, T) -> bool)
    requires Sorted(s, le) && Sorted(t, le) && AntisymmetricOn(s, le)
    requires multiset(s) == multiset(t) && s != []
    ensures t != [] && s[0] == t[0]
  {
    assert |multiset(s)| == |s| && |multiset(t)| == |t|;
    assert s[0] in multiset(t) && t[0] in multiset(s);
    var j :| 0 <= j < |t| && t[j] == s[0];
    var i :| 0 <= i < |s| && s[i] == t[0];
  }

  lemma SameTail<T>(s: seq<T>, t: seq<T>)
    requires s != [] && t != [] && s[0] == t[0] && multiset(s) == multiset(t)
    ensures multiset(s[1..]) == multiset(t[1..])
  {
    HeadTail(s);
    HeadTail(t);
    assert multiset(s[1..]) == multiset(s) - multiset{s[0]};
    assert multiset(t[1..]) == multiset(t) - multiset{t[0]};
  }

  /** Two sorted arrangements of the same elements are equal when the order separates them. */
  lemma {:induction false} SortedUnique<T>(s: seq<T>, t: seq<T>, le: (T, T) -> bool)
    requires Sorted(s, le) && Sorted(t, le)
    requires multiset(s) == multiset(t)
    requires AntisymmetricOn(s, le)
    ensures s == t
  {
    if s == [] {
      assert |multiset(t)| == 0;
    } else {
      SameFirst(s, t, le);
      SameTail(s, t);
      SortedUnique(s[1..], t[1..], le);
      assert s == [s[0]] + s[1..] && t == [t[0]] + t[1..];
    }
  }
}
