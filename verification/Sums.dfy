/** Sums over finite sets and over the values of finite maps. */
module Sums {

  ghost function Sum<K>(s: set<K>, f: K -> nat): nat {
    if s == {} then 0
    else
      var x :| x in s;
      f(x) + Sum(s - {x}, f)
  }

  lemma {:induction false} SumRemove<K>(s: set<K>, f: K -> nat, x: K)
    requires x in s
    ensures Sum(s, f) == f(x) + Sum(s - {x}, f)
    decreases |s|
  {
    var y :| y in s && Sum(s, f) == f(y) + Sum(s - {y}, f);
    if y != x {
      SumRemove(s - {y}, f, x);
      SumRemove(s - {x}, f, y);
      assert s - {y} - {x} == s - {x} - {y};
    }
  }

  lemma SumAdd<K>(s: set<K>, f: K -> nat, x: K)
    requires x !in s
    ensures Sum(s + {x}, f) == f(x) + Sum(s, f)
  {
    SumRemove(s + {x}, f, x);
    assert s + {x} - {x} == s;
  }

  lemma {:induction false} SumAgree<K>(s: set<K>, f: K -> nat, g: K -> nat)
    requires forall x :: x in s ==> f(x) == g(x)
    ensures Sum(s, f) == Sum(s, g)
    decreases |s|
  {
    if s != {} {
      var x :| x in s;
      SumRemove(s, f, x);
      SumRemove(s, g, x);
      SumAgree(s - {x}, f, g);
    }
  }

  lemma {:induction false} SumSubset<K>(s: set<K>, t: set<K>, f: K -> nat)
    requires s <= t
    ensures Sum(s, f) <= Sum(t, f)
    decreases |t|
  {
    if t != {} {
      var x :| x in t;
      SumRemove(t, f, x);
      if x in s {
        SumRemove(s, f, x);
      }
      SumSubset(s - {x}, t - {x}, f);
      assert x !in s ==> s - {x} == s;
    }
  }

  /** A map read as a total function, absent keys being worth nothing. */
  ghost function Lookup<K>(m: map<K, nat>): K -> nat {
    x => if x in m then m[x] else 0
  }

  ghost function SumMap<K>(m: map<K, nat>): nat {
    Sum(m.Keys, Lookup(m))
  }

  lemma SumMapUpdate<K>(m: map<K, nat>, k: K, v: nat)
    ensures SumMap(m[k := v]) == SumMap(m) - Lookup(m)(k) + v
  {
    var m' := m[k := v];
    SumRemove(m'.Keys, Lookup(m'), k);
    if k in m {
      SumRemove(m.Keys, Lookup(m), k);
    }
    assert m'.Keys - {k} == m.Keys - {k};
    SumAgree(m.Keys - {k}, Lookup(m'), Lookup(m));
    assert k !in m ==> m.Keys - {k} == m.Keys;
  }

  lemma SumMapMember<K>(m: map<K, nat>, k: K)
    ensures Lookup(m)(k) <= SumMap(m)
  {
    if k in m {
      SumSubset({k}, m.Keys, Lookup(m));
      SumRemove({k}, Lookup(m), k);
      assert {k} - {k} == {};
    }
  }
}
