/** crates/aevum-p2p/src/dht.rs: what adding nodes leaves in the routing table. */
module DhtTable {
  import opened Integers
  import opened Collections
  import opened Bytes
  import opened Sorting
  import opened Routing = Dht

  ghost predicate SameOthers(b: Bucket, r: Bucket, id: Hash) {
    forall m: Node :: m.id != id ==> (m in r <==> m in b)
  }

  /** All nodes of other ids but one stay, and that one was seen no later than any of the bucket. */
  ghost predicate LosesOnly(b: Bucket, r: Bucket, id: Hash, victim: Node) {
    && victim in b && (forall m :: m in b ==> victim.lastSeen <= m.lastSeen)
    && (forall m: Node :: m.id != id ==> (m in r <==> m in b && m != victim))
  }

  lemma AddedToExactly(b: Bucket, n: Node)
    requires DistinctIds(b) && |b| <= K
    ensures forall m :: m in AddedTo(b, n) && m.id == n.id ==> m == n
    ensures n in AddedTo(b, n)
    ensures IndexOf(b, n.id) < |b| || |b| < K ==> SameOthers(b, AddedTo(b, n), n.id)
    ensures IndexOf(b, n.id) == |b| == K ==> exists victim :: LosesOnly(b, AddedTo(b, n), n.id, victim)
  {
    hide IndexOf, Sort;
    var i, r := IndexOf(b, n.id), AddedTo(b, n);
    if i < |b| {
      ReplacedInPlace(b, i, n);
    } else if |b| < K {
      assert r[|b|] == n;
    } else {
      ReplacedOldest(b, n);
    }
  }

  lemma ReplacedInPlace(b: Bucket, i: nat, n: Node)
    requires DistinctIds(b) && i < |b| && b[i].id == n.id
    ensures SameOthers(b, b[i := n], n.id) && n in b[i := n]
    ensures forall m :: m in b[i := n] && m.id == n.id ==> m == n
  {
    var r := b[i := n];
    assert r[i] == n;
    forall m: Node | m.id != n.id ensures m in r <==> m in b {
      if m in b {
        var j :| 0 <= j < |b| && b[j] == m;
        assert r[j] == m;
      }
      if m in r {
        var j :| 0 <= j < |r| && r[j] == m;
        assert b[j] == m;
      }
    }
  }

  lemma ReplacedOldest(b: Bucket, n: Node)
    requires DistinctIds(b) && |b| == K && IndexOf(b, n.id) == |b|
    ensures exists victim :: LosesOnly(b, AddedTo(b, n), n.id, victim)
    ensures n in AddedTo(b, n) && forall m :: m in AddedTo(b, n) && m.id == n.id ==> m == n
  {
    hide Sort, IndexOf;
    SeenOrder();
    SortProps(b, SeenLeq);
    var s := Sort(b, SeenLeq);
    DistinctIdsMultiset(b, s);
    forall m ensures m in s <==> m in b { assert m in multiset(s) <==> m in multiset(b); }
    FirstReplaced(s, n);
    assert LosesOnly(b, AddedTo(b, n), n.id, s[0]);
  }

  lemma FirstReplaced(s: Bucket, n: Node)
    requires DistinctIds(s) && s != [] && forall m :: m in s ==> m.id != n.id
    ensures n in s[0 := n] && forall m :: m in s[0 := n] && m.id == n.id ==> m == n
    ensures forall m: Node :: m.id != n.id ==> (m in s[0 := n] <==> m in s && m != s[0])
  {
    var r := s[0 := n];
    assert r[0] == n;
    forall m: Node | m.id != n.id ensures m in r <==> m in s && m != s[0] {
      if m in s && m != s[0] {
        var j :| 0 <= j < |s| && s[j] == m;
        assert r[j] == m;
      }
      if m in r {
        var j :| 0 <= j < |r| && r[j] == m;
        assert s[j] == m && s[j].id != s[0].id;
      }
    }
  }

  /** Adding a node leaves every other bucket alone; in its own, it is the only entry of its id, and
      nodes of other ids all stay, unless the bucket was full and one of the least recently seen
      makes room. */
  lemma AddedExactly(own: Hash, t: Table, n: Node)
    requires TableOk(own, t) && n.id != own
    ensures var c, u := Slot(own, n.id), Added(own, t, n);
            && (forall k :: 0 <= k < K_BUCKETS && k != c ==> u[k] == t[k])
            && n in u[c] && (forall m :: m in u[c] && m.id == n.id ==> m == n)
            && (IndexOf(t[c], n.id) < |t[c]| || |t[c]| < K ==> SameOthers(t[c], u[c], n.id))
            && (IndexOf(t[c], n.id) == |t[c]| == K ==> exists victim :: LosesOnly(t[c], u[c], n.id, victim))
  {
    hide Slot, IndexOf, AddedTo, LosesOnly, SameOthers;
    assert BucketOk(own, t[Slot(own, n.id)], Slot(own, n.id));
    AddedToExactly(t[Slot(own, n.id)], n);
  }

  // ---------- runs ----------

  /** The last node offered under an id. */
  function LastOffer(ops: seq<Op>, id: Hash): Option<Node> {
    if ops == [] then None
    else
      var op := ops[|ops| - 1];
      if op.AddOrUpdate? && op.node.id == id then Some(op.node) else LastOffer(ops[..|ops| - 1], id)
  }

  /** The ids offered for bucket k. */
  ghost function OfferedIds(own: Hash, ops: seq<Op>, k: nat): set<Hash> {
    set i | 0 <= i < |ops| && ops[i].AddOrUpdate? && ops[i].node.id != own && Slot(own, ops[i].node.id) == k
      :: ops[i].node.id
  }

  /** Nodes are only added, and no bucket is offered more than 8 ids. */
  ghost predicate FewOffers(own: Hash, ops: seq<Op>) {
    && (forall i :: 0 <= i < |ops| ==> ops[i].AddOrUpdate?)
    && (forall k :: 0 <= k < K_BUCKETS ==> |OfferedIds(own, ops, k)| <= K)
  }

  /** The table holds the last offer of every id but our own, and nothing else. */
  ghost predicate HoldsLastOffers(own: Hash, t: Table, ops: seq<Op>)
    requires |t| == K_BUCKETS
  {
    forall m: Node :: m in t[Slot(own, m.id)] <==> m.id != own && LastOffer(ops, m.id) == Some(m)
  }

  lemma OfferedGrow(own: Hash, ops: seq<Op>, k: nat)
    requires ops != []
    ensures OfferedIds(own, ops[..|ops| - 1], k) <= OfferedIds(own, ops, k)
    ensures var op := ops[|ops| - 1];
            op.AddOrUpdate? && op.node.id != own && Slot(own, op.node.id) == k ==> op.node.id in OfferedIds(own, ops, k)
  {
    hide Slot;
    var init := ops[..|ops| - 1];
    forall id | id in OfferedIds(own, init, k) ensures id in OfferedIds(own, ops, k) {
      var i :| 0 <= i < |init| && init[i].AddOrUpdate? && init[i].node.id == id
                && init[i].node.id != own && Slot(own, init[i].node.id) == k;
      assert ops[i] == init[i];
    }
  }

  lemma FewOffersBefore(own: Hash, ops: seq<Op>)
    requires FewOffers(own, ops) && ops != []
    ensures FewOffers(own, ops[..|ops| - 1])
  {
    hide OfferedIds;
    var init := ops[..|ops| - 1];
    forall k | 0 <= k < K_BUCKETS ensures |OfferedIds(own, init, k)| <= K {
      OfferedGrow(own, ops, k);
      SubsetSize(OfferedIds(own, init, k), OfferedIds(own, ops, k));
    }
  }

  lemma {:induction false} LastOfferOffered(own: Hash, ops: seq<Op>, id: Hash)
    requires id != own && LastOffer(ops, id).Some?
    ensures LastOffer(ops, id).value.id == id && id in OfferedIds(own, ops, Slot(own, id))
  {
    hide OfferedIds, Slot;
    var op := ops[|ops| - 1];
    OfferedGrow(own, ops, Slot(own, id));
    if !(op.AddOrUpdate? && op.node.id == id) {
      LastOfferOffered(own, ops[..|ops| - 1], id);
    }
  }

  ghost function Ids(b: Bucket): set<Hash> { set m | m in b :: m.id }

  lemma {:induction false} IdsSize(b: Bucket)
    requires DistinctIds(b)
    ensures |Ids(b)| == |b|
  {
    if b != [] {
      IdsSize(b[1..]);
      assert b == [b[0]] + b[1..];
      assert Ids(b) == {b[0].id} + Ids(b[1..]);
      assert b[0].id !in Ids(b[1..]);
    }
  }

  /** A bucket that is to take a new id still has room. */
  lemma RoomForNewId(own: Hash, t: Table, ops: seq<Op>)
    requires ops != [] && TableOk(own, t) && HoldsLastOffers(own, t, ops[..|ops| - 1]) && FewOffers(own, ops)
    requires ops[|ops| - 1].node.id != own
    ensures var id := ops[|ops| - 1].node.id;
            IndexOf(t[Slot(own, id)], id) == |t[Slot(own, id)]| ==> |t[Slot(own, id)]| < K
  {
    var init, id := ops[..|ops| - 1], ops[|ops| - 1].node.id;
    var c := Slot(own, id);
    var b := t[c];
    hide Slot, OfferedIds, LastOffer;
    assert BucketOk(own, b, c);
    IdsSize(b);
    OfferedGrow(own, ops, c);
    if IndexOf(b, id) == |b| {
      forall x | x in Ids(b) ensures x in OfferedIds(own, ops, c) && x != id {
        var m :| m in b && m.id == x;
        LastOfferOffered(own, init, x);
      }
      SubsetSize(Ids(b) + {id}, OfferedIds(own, ops, c));
    }
  }

  lemma AddKeepsLastOffers(own: Hash, t: Table, ops: seq<Op>)
    requires ops != [] && TableOk(own, t) && HoldsLastOffers(own, t, ops[..|ops| - 1]) && FewOffers(own, ops)
    ensures HoldsLastOffers(own, Added(own, t, ops[|ops| - 1].node), ops)
  {
    var init, n := ops[..|ops| - 1], ops[|ops| - 1].node;
    if n.id != own {
      AddedExactly(own, t, n);
      RoomForNewId(own, t, ops);
    }
    hide Slot, IndexOf, AddedTo, LosesOnly;
    var u := Added(own, t, n);
    forall m: Node ensures m in u[Slot(own, m.id)] <==> m.id != own && LastOffer(ops, m.id) == Some(m) {
      assert m in t[Slot(own, m.id)] <==> m.id != own && LastOffer(init, m.id) == Some(m);
    }
  }

  /** As long as no bucket is offered more than 8 ids and nothing is cleaned up, the table holds
      exactly the last offer of every id other than our own. */
  lemma {:induction false} EveryRunHoldsLastOffers(own: Hash, ops: seq<Op>)
    requires FewOffers(own, ops)
    ensures HoldsLastOffers(own, Run(own, ops), ops)
  {
    if ops != [] {
      hide HoldsLastOffers, Added;
      FewOffersBefore(own, ops);
      EveryRunHoldsLastOffers(own, ops[..|ops| - 1]);
      EveryRunTableOk(own, ops[..|ops| - 1]);
      AddKeepsLastOffers(own, Run(own, ops[..|ops| - 1]), ops);
    } else {
      hide Slot;
    }
  }
}
