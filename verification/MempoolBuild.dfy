/** crates/aevum-node/src/mempool.rs: `build_block` and the runs of the pool. */
module MempoolBuild {
  import opened Sums
  import opened Integers
  import opened Collections
  import opened Mempool

  // ---------- building a block ----------

  /** The loop state when `build_block` returns, or, with `stuck`, the state in which it pops and
      pushes back the same over-budget entry for ever. */
  datatype Built = Built(pool: Pool, out: seq<Transaction>, stuck: bool)

  function PopFront(p: Pool, b: nat): Pool
    requires b < |p.buckets| && p.buckets[b] != []
  {
    p.(buckets := p.buckets[b := p.buckets[b][1..]])
  }

  /** The two nested loops: buckets b-1 down to 0, each from its front. */
  ghost function BuildFrom(p: Pool, b: nat, out: seq<Transaction>, bytes: nat, maxTx: nat, maxBytes: nat): Built
    requires b <= |p.buckets|
    decreases b, if b == 0 then 0 else |p.buckets[b - 1]|
  {
    if b == 0 then Built(p, out, false)
    else if p.buckets[b - 1] == [] then BuildFrom(p, b - 1, out, bytes, maxTx, maxBytes)
    else
      var r, p1 := p.buckets[b - 1][0], PopFront(p, b - 1);
      if r.hash !in p.index then BuildFrom(p1, b, out, bytes, maxTx, maxBytes)
      else if bytes + r.size > maxBytes then Built(p, out, true)
      else if r.hash in p.store then
        var p2, out' := Include(p1, r), out + [p.store[r.hash]];
        if |out'| >= maxTx then Built(p2, out', false)
        else BuildFrom(p2, b, out', bytes + r.size, maxTx, maxBytes)
      else if |out| >= maxTx then Built(p1, out, false)
      else BuildFrom(p1, b, out, bytes, maxTx, maxBytes)
  }

  /** Moves the transaction of a popped entry out of the pool. */
  ghost function Include(p: Pool, r: TxRef): Pool
    requires r.hash in p.store
  {
    p.(store := p.store - {r.hash}, index := p.index - {r.hash},
       nullifiers := p.nullifiers - Elements(p.store[r.hash].inputs),
       totalBytes := SatSub(p.totalBytes, r.size))
  }

  ghost function Build(p: Pool, maxTx: nat, maxBytes: nat): Built
    requires |p.buckets| == FEE_BUCKETS
  {
    BuildFrom(p, FEE_BUCKETS, [], 0, maxTx, maxBytes)
  }

  /** Bucket entries in the order in which `build_block` pops them. */
  ghost function Queue(buckets: seq<seq<TxRef>>, b: nat): seq<TxRef>
    requires b <= |buckets|
  {
    if b == 0 then [] else buckets[b - 1] + Queue(buckets, b - 1)
  }

  /** The entries that count: the first one for each live hash. */
  ghost function Pending(refs: seq<TxRef>, live: set<HashId>): seq<TxRef>
    decreases |refs|
  {
    if refs == [] then []
    else if refs[0].hash in live then [refs[0]] + Pending(refs[1..], live - {refs[0].hash})
    else Pending(refs[1..], live)
  }

  ghost function Order(p: Pool): seq<TxRef>
    requires |p.buckets| == FEE_BUCKETS
  {
    Pending(Queue(p.buckets, FEE_BUCKETS), p.index.Keys)
  }

  ghost function Cost(refs: seq<TxRef>): nat {
    if refs == [] then 0 else refs[0].size + Cost(refs[1..])
  }

  ghost function Hashes(refs: seq<TxRef>): set<HashId> { set r | r in refs :: r.hash }

  /** How many transactions are asked for; the limit is looked at only after an inclusion. */
  function Limit(maxTx: nat): nat { if maxTx == 0 then 1 else maxTx }

  lemma PopFrontInv(W: World, p: Pool, b: nat)
    requires Inv(W, p) && b < FEE_BUCKETS && p.buckets[b] != []
    ensures BucketsOk(W, PopFront(p, b).buckets)
    ensures LiveRefs(PopFront(p, b).buckets, p.index - {p.buckets[b][0].hash})
  {
    var q := PopFront(p, b);
    forall c, k | 0 <= c < FEE_BUCKETS && 0 <= k < |q.buckets[c]| ensures RefOk(W, q.buckets[c][k], c) {
      assert c == b ==> q.buckets[c][k] == p.buckets[c][k + 1];
      assert RefOk(W, p.buckets[c][if c == b then k + 1 else k], c);
    }
    forall h | h in p.index && h != p.buckets[b][0].hash
      ensures p.index[h] in q.buckets[BucketOf(p.index[h].fee)]
    {
      var c := BucketOf(p.index[h].fee);
      assert p.index[h] in p.buckets[c];
      var k :| 0 <= k < |p.buckets[c]| && p.buckets[c][k] == p.index[h];
      if c == b {
        assert k > 0;
        assert q.buckets[c][k - 1] == p.index[h];
      }
    }
  }

  /** Dropping an entry for a hash that is not live keeps the invariant. */
  lemma GhostPopInv(W: World, p: Pool, b: nat)
    requires Inv(W, p) && b < FEE_BUCKETS && p.buckets[b] != [] && p.buckets[b][0].hash !in p.index
    ensures Inv(W, PopFront(p, b))
  {
    hide BucketsOk, StoreOk, NullifiersOk, BytesOk;
    PopFrontInv(W, p, b);
    assert p.index - {p.buckets[b][0].hash} == p.index;
  }

  /** Including a live transaction keeps the invariant, even when the popped entry is an old one
      left behind by a removal and re-insertion. */
  lemma IncludeInv(W: World, p: Pool, b: nat)
    requires Inv(W, p) && b < FEE_BUCKETS && p.buckets[b] != [] && p.buckets[b][0].hash in p.index
    ensures var h := p.buckets[b][0].hash;
            h in p.store && Inv(W, Include(PopFront(p, b), p.buckets[b][0]))
            && Include(PopFront(p, b), p.buckets[b][0]).index.Keys == p.index.Keys - {h}
            && Include(PopFront(p, b), p.buckets[b][0]).store == p.store - {h}
  {
    assert |p.buckets| == FEE_BUCKETS;
    hide BucketsOk, StoreOk, NullifiersOk, BytesOk, LiveRefs;
    var r := p.buckets[b][0];
    PopFrontInv(W, p, b);
    ForgetInv(W, p, r.hash);
    SameSize(W, p, b);
    var q := Include(PopFront(p, b), r);
    assert q == Forget(p, r.hash).(buckets := PopFront(p, b).buckets);
    assert (p.index - {r.hash}).Keys == p.index.Keys - {r.hash};
  }

  lemma SameSize(W: World, p: Pool, b: nat)
    requires Inv(W, p) && b < FEE_BUCKETS && p.buckets[b] != [] && p.buckets[b][0].hash in p.index
    ensures p.buckets[b][0].hash in p.store && p.index[p.buckets[b][0].hash].size == p.buckets[b][0].size
  {
    assert RefOk(W, p.buckets[b][0], b);
    RefSize(W, p.index, p.store, p.buckets[b][0].hash);
  }

  lemma {:induction false} QueueUpdate(buckets: seq<seq<TxRef>>, i: nat, refs: seq<TxRef>, b: nat)
    requires b <= i < |buckets|
    ensures Queue(buckets[i := refs], b) == Queue(buckets, b)
  {
    if b > 0 { QueueUpdate(buckets, i, refs, b - 1); }
  }

  lemma QueuePop(p: Pool, b: nat)
    requires 0 < b <= |p.buckets| && p.buckets[b - 1] != []
    ensures Queue(p.buckets, b) == [p.buckets[b - 1][0]] + Queue(PopFront(p, b - 1).buckets, b)
  {
    var front, rest := p.buckets[b - 1][0], p.buckets[b - 1][1..];
    QueueUpdate(p.buckets, b - 1, rest, b - 1);
    assert p.buckets[b - 1] == [front] + rest;
  }

  ghost function Txs(W: World, refs: seq<TxRef>): (txs: seq<Transaction>)
    ensures |txs| == |refs|
  {
    seq(|refs|, i requires 0 <= i < |refs| => W(refs[i].hash))
  }

  /** What a build from bucket b on must produce: the first n pending entries, if they fit. */
  ghost predicate BuiltOk(W: World, p: Pool, out: seq<Transaction>, bytes: nat, maxBytes: nat,
                          chosen: seq<TxRef>, r: Built) {
    && (r.stuck <==> bytes + Cost(chosen) > maxBytes)
    && (!r.stuck ==>
          && r.out == out + Txs(W, chosen)
          && Inv(W, r.pool)
          && r.pool.index.Keys == p.index.Keys - Hashes(chosen)
          && r.pool.store == p.store - Hashes(chosen))
  }

  lemma BuiltNothing(W: World, p: Pool, out: seq<Transaction>, bytes: nat, maxBytes: nat)
    requires Inv(W, p) && bytes <= maxBytes
    ensures BuiltOk(W, p, out, bytes, maxBytes, [], Built(p, out, false))
  {
    hide Inv;
    assert Hashes([]) == {} && p.store - {} == p.store;
    assert out + Txs(W, []) == out;
  }

  /** Including the first pending entry and then the rest is including them all. */
  lemma BuiltCons(W: World, p: Pool, p2: Pool, out: seq<Transaction>, bytes: nat, maxBytes: nat,
                  first: TxRef, rest: seq<TxRef>, r: Built)
    requires p2.index.Keys == p.index.Keys - {first.hash} && p2.store == p.store - {first.hash}
    requires BuiltOk(W, p2, out + [W(first.hash)], bytes + first.size, maxBytes, rest, r)
    ensures BuiltOk(W, p, out, bytes, maxBytes, [first] + rest, r)
  {
    hide Inv;
    var all := [first] + rest;
    assert all[1..] == rest;
    assert Hashes(all) == {first.hash} + Hashes(rest);
    assert p.store - {first.hash} - Hashes(rest) == p.store - Hashes(all);
    assert out + [W(first.hash)] + Txs(W, rest) == out + Txs(W, all);
  }

  lemma CostFirst(refs: seq<TxRef>, n: nat)
    requires 0 < n <= |refs|
    ensures Cost(refs[..n]) >= refs[0].size
  {
  }

  /** A build from bucket b on takes the first pending entries up to the limit. */
  ghost predicate BuildsFirst(W: World, p: Pool, b: nat, out: seq<Transaction>, bytes: nat, maxTx: nat, maxBytes: nat)
    requires b <= |p.buckets| && |out| < Limit(maxTx)
  {
    var pend := Pending(Queue(p.buckets, b), p.index.Keys);
    var n := Min(Limit(maxTx) - |out|, |pend|);
    BuiltOk(W, p, out, bytes, maxBytes, pend[..n], BuildFrom(p, b, out, bytes, maxTx, maxBytes))
  }

  lemma {:induction false} BuildSpec(
      W: World, p: Pool, b: nat, out: seq<Transaction>, bytes: nat, maxTx: nat, maxBytes: nat)
    requires Inv(W, p) && b <= FEE_BUCKETS && |out| < Limit(maxTx) && bytes <= maxBytes
    ensures BuildsFirst(W, p, b, out, bytes, maxTx, maxBytes)
    decreases b, if b == 0 then 0 else |p.buckets[b - 1]|
  {
    assert |p.buckets| == FEE_BUCKETS;
    hide Inv, BuildsFirst;
    if b == 0 {
      BuildSpecZero(W, p, out, bytes, maxTx, maxBytes);
    } else if p.buckets[b - 1] == [] {
      BuildSpec(W, p, b - 1, out, bytes, maxTx, maxBytes);
      BuildSpecEmptyBucket(W, p, b, out, bytes, maxTx, maxBytes);
    } else if p.buckets[b - 1][0].hash !in p.index {
      BuildSpecGhost(W, p, b, out, bytes, maxTx, maxBytes);
    } else if bytes + p.buckets[b - 1][0].size > maxBytes {
      BuildSpecStuck(W, p, b, out, bytes, maxTx, maxBytes);
    } else {
      BuildSpecInclude(W, p, b, out, bytes, maxTx, maxBytes);
    }
  }

  lemma BuildSpecZero(W: World, p: Pool, out: seq<Transaction>, bytes: nat, maxTx: nat, maxBytes: nat)
    requires Inv(W, p) && |out| < Limit(maxTx) && bytes <= maxBytes
    ensures BuildsFirst(W, p, 0, out, bytes, maxTx, maxBytes)
  {
    hide Inv, BuiltOk, Queue, Pending, BuildFrom;
    BuildFromZero(p, p.index.Keys, out, bytes, maxTx, maxBytes);
    BuiltNothing(W, p, out, bytes, maxBytes);
  }

  lemma BuildSpecEmptyBucket(W: World, p: Pool, b: nat, out: seq<Transaction>, bytes: nat, maxTx: nat, maxBytes: nat)
    requires 0 < b <= |p.buckets| && |out| < Limit(maxTx) && p.buckets[b - 1] == []
    requires BuildsFirst(W, p, b - 1, out, bytes, maxTx, maxBytes)
    ensures BuildsFirst(W, p, b, out, bytes, maxTx, maxBytes)
  {
    hide BuiltOk, Queue, Pending, BuildFrom;
    BuildFromEmptyBucket(p, b, out, bytes, maxTx, maxBytes);
  }

  /** The step that drops an entry whose transaction is no longer live. */
  lemma {:induction false} BuildSpecGhost(
      W: World, p: Pool, b: nat, out: seq<Transaction>, bytes: nat, maxTx: nat, maxBytes: nat)
    requires Inv(W, p) && 0 < b <= FEE_BUCKETS && |out| < Limit(maxTx) && bytes <= maxBytes
    requires p.buckets[b - 1] != [] && p.buckets[b - 1][0].hash !in p.index
    ensures BuildsFirst(W, p, b, out, bytes, maxTx, maxBytes)
    decreases b, |p.buckets[b - 1]|, 0
  {
    assert |p.buckets| == FEE_BUCKETS;
    hide Inv, BuiltOk, Include, Queue, Pending, BuildFrom, Cost;
    BuildFromGhost(p, b, out, bytes, maxTx, maxBytes);
    GhostPopInv(W, p, b - 1);
    var q := PopFront(p, b - 1);
    BuildSpec(W, q, b, out, bytes, maxTx, maxBytes);
    BuiltSameLive(W, p, q, out, bytes, maxBytes);
  }

  lemma BuildSpecStuck(W: World, p: Pool, b: nat, out: seq<Transaction>, bytes: nat, maxTx: nat, maxBytes: nat)
    requires 0 < b <= |p.buckets| && |out| < Limit(maxTx)
    requires p.buckets[b - 1] != [] && p.buckets[b - 1][0].hash in p.index
    requires bytes + p.buckets[b - 1][0].size > maxBytes
    ensures BuildsFirst(W, p, b, out, bytes, maxTx, maxBytes)
  {
    hide BuiltOk, Queue, Pending, BuildFrom, Cost;
    BuildFromStuck(p, b, out, bytes, maxTx, maxBytes);
    var pend := Pending(Queue(p.buckets, b), p.index.Keys);
    var n := Min(Limit(maxTx) - |out|, |pend|);
    CostFirst(pend, n);
    BuiltStuck(W, p, out, bytes, maxBytes, pend[..n]);
  }

  lemma BuildFromZero(p: Pool, live: set<HashId>, out: seq<Transaction>, bytes: nat, maxTx: nat, maxBytes: nat)
    ensures Pending(Queue(p.buckets, 0), live) == []
    ensures BuildFrom(p, 0, out, bytes, maxTx, maxBytes) == Built(p, out, false)
  {
  }

  lemma BuildFromEmptyBucket(p: Pool, b: nat, out: seq<Transaction>, bytes: nat, maxTx: nat, maxBytes: nat)
    requires 0 < b <= |p.buckets| && p.buckets[b - 1] == []
    ensures Queue(p.buckets, b) == Queue(p.buckets, b - 1)
    ensures BuildFrom(p, b, out, bytes, maxTx, maxBytes) == BuildFrom(p, b - 1, out, bytes, maxTx, maxBytes)
  {
  }

  lemma BuildFromGhost(p: Pool, b: nat, out: seq<Transaction>, bytes: nat, maxTx: nat, maxBytes: nat)
    requires 0 < b <= |p.buckets| && p.buckets[b - 1] != [] && p.buckets[b - 1][0].hash !in p.index
    ensures var q := PopFront(p, b - 1);
            && Pending(Queue(p.buckets, b), p.index.Keys) == Pending(Queue(q.buckets, b), p.index.Keys)
            && BuildFrom(p, b, out, bytes, maxTx, maxBytes) == BuildFrom(q, b, out, bytes, maxTx, maxBytes)
  {
    QueuePop(p, b);
  }

  lemma BuildFromStuck(p: Pool, b: nat, out: seq<Transaction>, bytes: nat, maxTx: nat, maxBytes: nat)
    requires 0 < b <= |p.buckets| && p.buckets[b - 1] != [] && p.buckets[b - 1][0].hash in p.index
    requires bytes + p.buckets[b - 1][0].size > maxBytes
    ensures var pend := Pending(Queue(p.buckets, b), p.index.Keys);
            && pend != [] && pend[0] == p.buckets[b - 1][0]
            && BuildFrom(p, b, out, bytes, maxTx, maxBytes) == Built(p, out, true)
  {
    QueuePop(p, b);
  }

  lemma BuiltStuck(W: World, p: Pool, out: seq<Transaction>, bytes: nat, maxBytes: nat, chosen: seq<TxRef>)
    requires bytes + Cost(chosen) > maxBytes
    ensures BuiltOk(W, p, out, bytes, maxBytes, chosen, Built(p, out, true))
  {
  }

  lemma BuiltSameLive(W: World, p: Pool, q: Pool, out: seq<Transaction>, bytes: nat, maxBytes: nat)
    requires q.index == p.index && q.store == p.store
    ensures forall chosen, r :: BuiltOk(W, q, out, bytes, maxBytes, chosen, r) ==>
            BuiltOk(W, p, out, bytes, maxBytes, chosen, r)
  {
    hide Inv;
  }

  /** The step that includes a live entry, given the result for what follows it. */
  lemma {:induction false} BuildSpecInclude(
      W: World, p: Pool, b: nat, out: seq<Transaction>, bytes: nat, maxTx: nat, maxBytes: nat)
    requires Inv(W, p) && 0 < b <= FEE_BUCKETS && |out| < Limit(maxTx) && p.buckets[b - 1] != []
    requires p.buckets[b - 1][0].hash in p.index && bytes + p.buckets[b - 1][0].size <= maxBytes
    ensures BuildsFirst(W, p, b, out, bytes, maxTx, maxBytes)
    decreases b, |p.buckets[b - 1]|, 0
  {
    hide Inv, BuiltOk, Include, Pending, Queue, BuildFrom;
    IncludeFirst(W, p, b);
    BuildFromInclude(p, b, out, bytes, maxTx, maxBytes);
    var r := p.buckets[b - 1][0];
    var h := r.hash;
    var p2 := Include(PopFront(p, b - 1), r);
    var pend := Pending(Queue(p.buckets, b), p.index.Keys);
    var rest := Pending(Queue(p2.buckets, b), p2.index.Keys);
    var n := Min(Limit(maxTx) - |out|, |pend|);
    if |out| + 1 >= maxTx {
      BuiltNothing(W, p2, out + [W(h)], bytes + r.size, maxBytes);
      BuiltCons(W, p, p2, out, bytes, maxBytes, r, [], Built(p2, out + [W(h)], false));
      assert pend[..n] == [r] + [];
    } else {
      BuildSpec(W, p2, b, out + [W(h)], bytes + r.size, maxTx, maxBytes);
      BuiltCons(W, p, p2, out, bytes, maxBytes, r, rest[..n - 1],
                BuildFrom(p2, b, out + [W(h)], bytes + r.size, maxTx, maxBytes));
      assert pend[..n] == [r] + rest[..n - 1];
    }
  }

  lemma IncludeFirst(W: World, p: Pool, b: nat)
    requires Inv(W, p) && 0 < b <= FEE_BUCKETS && p.buckets[b - 1] != [] && p.buckets[b - 1][0].hash in p.index
    ensures |p.buckets| == FEE_BUCKETS
    ensures var r := p.buckets[b - 1][0];
            && r.hash in p.store && p.store[r.hash] == W(r.hash)
            && var p2 := Include(PopFront(p, b - 1), r);
            && Inv(W, p2) && p2.index.Keys == p.index.Keys - {r.hash} && p2.store == p.store - {r.hash}
            && |p2.buckets| == FEE_BUCKETS && |p2.buckets[b - 1]| < |p.buckets[b - 1]|
            && Pending(Queue(p.buckets, b), p.index.Keys)
               == [r] + Pending(Queue(p2.buckets, b), p2.index.Keys)
  {
    assert p.index.Keys == p.store.Keys && |p.buckets| == FEE_BUCKETS;
    assert p.store[p.buckets[b - 1][0].hash] == W(p.buckets[b - 1][0].hash);
    hide Inv;
    IncludeInv(W, p, b - 1);
    QueuePop(p, b);
  }

  lemma BuildFromInclude(p: Pool, b: nat, out: seq<Transaction>, bytes: nat, maxTx: nat, maxBytes: nat)
    requires 0 < b <= |p.buckets| && p.buckets[b - 1] != []
    requires p.buckets[b - 1][0].hash in p.index && p.buckets[b - 1][0].hash in p.store
    requires bytes + p.buckets[b - 1][0].size <= maxBytes
    ensures var r := p.buckets[b - 1][0];
            var p2, out' := Include(PopFront(p, b - 1), r), out + [p.store[r.hash]];
            BuildFrom(p, b, out, bytes, maxTx, maxBytes)
            == if |out| + 1 >= maxTx then Built(p2, out', false)
               else BuildFrom(p2, b, out', bytes + r.size, maxTx, maxBytes)
  {
  }

  // ---------- the order in which transactions are taken ----------

  ghost predicate DistinctHashes(refs: seq<TxRef>) {
    forall i, j :: 0 <= i < j < |refs| ==> refs[i].hash != refs[j].hash
  }

  /** Fee buckets never rise along the list. */
  ghost predicate BucketsFall(refs: seq<TxRef>) {
    forall i, j :: 0 <= i < j < |refs| ==> BucketOf(refs[j].fee) <= BucketOf(refs[i].fee)
  }

  lemma {:induction false} PendingMembers(refs: seq<TxRef>, live: set<HashId>)
    ensures forall r :: r in Pending(refs, live) ==> r in refs && r.hash in live
    ensures forall r :: r in refs && r.hash in live ==> r.hash in Hashes(Pending(refs, live))
    ensures DistinctHashes(Pending(refs, live))
    decreases |refs|
  {
    if refs != [] {
      assert refs == [refs[0]] + refs[1..];
      var h := refs[0].hash;
      PendingMembers(refs[1..], if h in live then live - {h} else live);
      if h in live {
        var rest := Pending(refs[1..], live - {h});
        assert Pending(refs, live) == [refs[0]] + rest;
        assert forall j :: 0 <= j < |rest| ==> rest[j] in rest;
        assert refs[0] in Pending(refs, live);
        assert forall r :: r in rest ==> r in Pending(refs, live);
      }
    }
  }

  lemma {:induction false} PendingFalls(refs: seq<TxRef>, live: set<HashId>)
    requires BucketsFall(refs)
    ensures BucketsFall(Pending(refs, live))
    decreases |refs|
  {
    hide BucketOf;
    if refs != [] {
      var h := refs[0].hash;
      var rest := Pending(refs[1..], if h in live then live - {h} else live);
      PendingFalls(refs[1..], if h in live then live - {h} else live);
      PendingMembers(refs[1..], if h in live then live - {h} else live);
      FallsCons(refs, rest);
    }
  }

  lemma FallsCons(refs: seq<TxRef>, rest: seq<TxRef>)
    requires refs != [] && BucketsFall(refs) && BucketsFall(rest)
    requires forall r :: r in rest ==> r in refs[1..]
    ensures BucketsFall([refs[0]] + rest)
  {
    hide BucketOf;
    forall j | 0 <= j < |rest| ensures BucketOf(rest[j].fee) <= BucketOf(refs[0].fee) {
      assert rest[j] in refs[1..];
      var k :| 0 <= k < |refs[1..]| && refs[1..][k] == rest[j];
      assert refs[k + 1] == rest[j];
    }
  }

  lemma {:induction false} QueueFalls(W: World, buckets: seq<seq<TxRef>>, b: nat)
    requires BucketsOk(W, buckets) && b <= FEE_BUCKETS
    ensures BucketsFall(Queue(buckets, b))
    ensures forall r :: r in Queue(buckets, b) ==> BucketOf(r.fee) < b && RefOk(W, r, BucketOf(r.fee))
  {
    hide BucketOf;
    if b > 0 {
      QueueFalls(W, buckets, b - 1);
      var top, rest := buckets[b - 1], Queue(buckets, b - 1);
      forall k | 0 <= k < |top| ensures RefOk(W, top[k], b - 1) { }
      var q := top + rest;
      forall i, j | 0 <= i < j < |q| ensures BucketOf(q[j].fee) <= BucketOf(q[i].fee) {
        if j >= |top| {
          assert q[j] in rest;
          if i >= |top| { assert q[i] == rest[i - |top|] && q[j] == rest[j - |top|]; }
        }
      }
    }
  }

  lemma {:induction false} QueueHas(buckets: seq<seq<TxRef>>, b: nat, c: nat, r: TxRef)
    requires c < b <= |buckets| && r in buckets[c]
    ensures r in Queue(buckets, b)
  {
    if c < b - 1 { QueueHas(buckets, b - 1, c, r); }
  }

  /** The order lists every live transaction once, fee buckets never rising. */
  lemma OrderFacts(W: World, p: Pool)
    requires Inv(W, p)
    ensures Hashes(Order(p)) == p.index.Keys && DistinctHashes(Order(p)) && BucketsFall(Order(p))
    ensures forall r :: r in Order(p) ==> RefOk(W, r, BucketOf(r.fee))
  {
    var q := Queue(p.buckets, FEE_BUCKETS);
    PendingMembers(q, p.index.Keys);
    QueueFalls(W, p.buckets, FEE_BUCKETS);
    PendingFalls(q, p.index.Keys);
    forall h | h in p.index ensures h in Hashes(Order(p)) {
      assert p.index[h] in p.buckets[BucketOf(p.index[h].fee)];
      QueueHas(p.buckets, FEE_BUCKETS, BucketOf(p.index[h].fee), p.index[h]);
      assert p.index[h].hash == h;
    }
  }

  lemma {:induction false} CostIsSum(W: World, refs: seq<TxRef>)
    requires DistinctHashes(refs) && forall r :: r in refs ==> RefOk(W, r, BucketOf(r.fee))
    ensures Cost(refs) == Sum(Hashes(refs), SizeOf(W)) && |Hashes(refs)| == |refs|
    decreases |refs|
  {
    if refs != [] {
      var first, rest := refs[0], refs[1..];
      assert refs == [first] + rest;
      CostIsSum(W, rest);
      assert first in refs;
      assert Hashes(refs) == Hashes(rest) + {first.hash};
      assert first.hash !in Hashes(rest);
      SumAdd(Hashes(rest), SizeOf(W), first.hash);
    } else {
      assert Hashes(refs) == {};
    }
  }

  /** A prefix of the order weighs what its transactions weigh, at most the whole pool. */
  lemma PrefixCost(W: World, p: Pool, n: nat)
    requires Inv(W, p) && n <= |Order(p)|
    ensures Cost(Order(p)[..n]) == Sum(Hashes(Order(p)[..n]), SizeOf(W)) <= p.totalBytes
    ensures |Hashes(Order(p)[..n])| == n && |Order(p)| == |p.index|
  {
    OrderFacts(W, p);
    var o := Order(p);
    CostIsSum(W, o);
    CostIsSum(W, o[..n]);
    SumSubset(Hashes(o[..n]), p.index.Keys, SizeOf(W));
  }

  // ---------- what build_block guarantees ----------

  /** The transactions a call is to take. */
  ghost function Chosen(p: Pool, maxTx: nat): seq<TxRef>
    requires |p.buckets| == FEE_BUCKETS
  {
    Order(p)[..Min(Limit(maxTx), |Order(p)|)]
  }

  /** `build_block` returns exactly when the transactions to take fit the byte budget; it then
      returns them in order, and the old pool is the disjoint union of output and new pool. */
  lemma BuildBlockExact(W: World, p: Pool, maxTx: nat, maxBytes: nat)
    requires Inv(W, p)
    ensures var r, c := Build(p, maxTx, maxBytes), Chosen(p, maxTx);
            && (r.stuck <==> Cost(c) > maxBytes)
            && (!r.stuck ==>
                  && r.out == Txs(W, c) && |r.out| == Min(Limit(maxTx), |p.index|)
                  && Inv(W, r.pool)
                  && Hashes(c) <= p.index.Keys
                  && r.pool.index.Keys == p.index.Keys - Hashes(c)
                  && r.pool.store == p.store - Hashes(c))
  {
    assert |p.buckets| == FEE_BUCKETS;
    hide Inv, Build, Order, Cost, Chosen;
    BuildIsSpec(W, p, maxTx, maxBytes);
    ChosenFacts(W, p, maxTx);
    assert [] + Txs(W, Chosen(p, maxTx)) == Txs(W, Chosen(p, maxTx));
  }

  lemma BuildIsSpec(W: World, p: Pool, maxTx: nat, maxBytes: nat)
    requires Inv(W, p)
    ensures BuiltOk(W, p, [], 0, maxBytes, Chosen(p, maxTx), Build(p, maxTx, maxBytes))
  {
    assert |p.buckets| == FEE_BUCKETS;
    hide Inv, BuildFrom, Pending, Queue, Cost, BuiltOk;
    BuildSpec(W, p, FEE_BUCKETS, [], 0, maxTx, maxBytes);
  }

  lemma ChosenFacts(W: World, p: Pool, maxTx: nat)
    requires Inv(W, p)
    ensures |Chosen(p, maxTx)| == Min(Limit(maxTx), |p.index|) && Hashes(Chosen(p, maxTx)) <= p.index.Keys
  {
    assert |p.buckets| == FEE_BUCKETS;
    hide Inv, Order, Cost;
    PrefixCost(W, p, |Chosen(p, maxTx)|);
    OrderFacts(W, p);
    assert forall r :: r in Chosen(p, maxTx) ==> r in Order(p);
  }

  /** When the live bytes fit the budget the call always returns, with `max_tx` transactions or
      the whole pool. */
  lemma BuildBlockReturns(W: World, p: Pool, maxTx: nat, maxBytes: nat)
    requires Inv(W, p) && p.totalBytes <= maxBytes && maxTx >= 1
    ensures var r := Build(p, maxTx, maxBytes);
            !r.stuck && (|r.out| == maxTx || (|r.out| == |p.index| && r.pool.index == map[]))
  {
    assert |p.buckets| == FEE_BUCKETS;
    ChosenCost(W, p, maxTx);
    hide *;
    BuildBlockExact(W, p, maxTx, maxBytes);
    LimitFacts(maxTx, |p.index|);
  }

  lemma LimitFacts(maxTx: nat, n: nat)
    requires maxTx >= 1
    ensures Min(Limit(maxTx), n) == maxTx || Min(Limit(maxTx), n) == n < maxTx
  {
  }

  /** The chosen transactions weigh at most the live bytes; when fewer are live than
      asked for, everything is chosen. */
  lemma ChosenCost(W: World, p: Pool, maxTx: nat)
    requires Inv(W, p)
    ensures |p.buckets| == FEE_BUCKETS && Cost(Chosen(p, maxTx)) <= p.totalBytes
    ensures |p.index| < Limit(maxTx) ==> Hashes(Chosen(p, maxTx)) == p.index.Keys
  {
    assert |p.buckets| == FEE_BUCKETS;
    var o := Order(p);
    var n := |Chosen(p, maxTx)|;
    assert Chosen(p, maxTx) == o[..n] && n == Min(Limit(maxTx), |o|);
    hide Inv, Order, Cost, RefOk, BucketsFall, DistinctHashes, Hashes, Chosen;
    PrefixCost(W, p, n);
    OrderFacts(W, p);
    if |p.index| < Limit(maxTx) {
      assert o[..|o|] == o;
    }
  }

  /** Fees fall by buckets: a later transaction pays less than twice any earlier one. */
  lemma BuildBlockFees(W: World, p: Pool, maxTx: nat, maxBytes: nat, i: nat, j: nat)
    requires Inv(W, p) && !Build(p, maxTx, maxBytes).stuck && i < j < |Build(p, maxTx, maxBytes).out|
    ensures Build(p, maxTx, maxBytes).out[j].fee < 2 * Build(p, maxTx, maxBytes).out[i].fee
  {
    hide *;
    BuildBlockExact(W, p, maxTx, maxBytes);
    ChosenFees(W, p, maxTx, i, j);
  }

  lemma ChosenFees(W: World, p: Pool, maxTx: nat, i: nat, j: nat)
    requires Inv(W, p) && i < j < |Chosen(p, maxTx)|
    ensures Txs(W, Chosen(p, maxTx))[j].fee < 2 * Txs(W, Chosen(p, maxTx))[i].fee
  {
    assert forall h :: h in p.index ==> W(h).fee >= 1;
    OrderFacts(W, p);
    hide Inv, Order, BucketOf;
    var c := Chosen(p, maxTx);
    assert c[i] in Order(p) && c[j] in Order(p);
    assert c[i].hash in p.index;
    BucketRatio(c[i].fee, c[j].fee);
  }

  /** No two transactions of a block spend the same nullifier, and none is repeated. */
  lemma BuildBlockConflictFree(W: World, p: Pool, maxTx: nat, maxBytes: nat, i: nat, j: nat)
    requires Inv(W, p) && !Build(p, maxTx, maxBytes).stuck && i < j < |Build(p, maxTx, maxBytes).out|
    ensures var out := Build(p, maxTx, maxBytes).out;
            out[i].txHash != out[j].txHash && Elements(out[i].inputs) !! Elements(out[j].inputs)
  {
    hide *;
    BuildBlockExact(W, p, maxTx, maxBytes);
    ChosenConflictFree(W, p, maxTx, i, j);
  }

  lemma ChosenConflictFree(W: World, p: Pool, maxTx: nat, i: nat, j: nat)
    requires Inv(W, p) && i < j < |Chosen(p, maxTx)|
    ensures var txs := Txs(W, Chosen(p, maxTx));
            txs[i].txHash != txs[j].txHash && Elements(txs[i].inputs) !! Elements(txs[j].inputs)
  {
    assert p.index.Keys == p.store.Keys;
    assert forall h :: h in p.store ==> p.store[h] == W(h) && W(h).txHash == h;
    OrderFacts(W, p);
    hide Inv, Order, BucketOf, RefOk, NullifiersOk;
    var c := Chosen(p, maxTx);
    assert c[i] in Order(p) && c[j] in Order(p);
    assert c[i].hash in p.index && c[j].hash in p.index;
    InvNullifiers(W, p);
    InputsDisjoint(p.nullifiers, p.store, c[i].hash, c[j].hash);
  }

  lemma InvNullifiers(W: World, p: Pool)
    requires Inv(W, p)
    ensures NullifiersOk(p.nullifiers, p.store)
  {
  }

  lemma InputsDisjoint(nullifiers: map<HashId, HashId>, store: map<HashId, Transaction>, g: HashId, h: HashId)
    requires NullifiersOk(nullifiers, store) && g in store && h in store && g != h
    ensures Elements(store[g].inputs) !! Elements(store[h].inputs)
  {
    forall n | n in store[g].inputs ensures n !in store[h].inputs {
      assert nullifiers[n] == g;
    }
  }

  /** What the inner loop works on. */
  datatype LoopState = LoopState(pool: Pool, out: seq<Transaction>, bytes: nat)

  /** One iteration of the inner loop on bucket b: pop the front entry, then drop it, push it back or
      include its transaction. */
  ghost function Iteration(s: LoopState, b: nat, maxBytes: nat): LoopState
    requires b < |s.pool.buckets| && s.pool.buckets[b] != []
  {
    var r, p := s.pool.buckets[b][0], PopFront(s.pool, b);
    if r.hash !in p.index then s.(pool := p)
    else if s.bytes + r.size > maxBytes then s.(pool := PushFront(p, b, r))
    else if r.hash in p.store then LoopState(Include(p, r), s.out + [p.store[r.hash]], s.bytes + r.size)
    else s.(pool := p)
  }

  function PushFront(p: Pool, b: nat, r: TxRef): Pool
    requires b < |p.buckets|
  {
    p.(buckets := p.buckets[b := [r] + p.buckets[b]])
  }

  /** An iteration leaves everything as it was, so that the loop goes on for ever, if and only if the
      front entry is live and over the byte budget; that is when the call counts as stuck. */
  lemma StuckIffIterationRepeats(s: LoopState, b: nat, maxTx: nat, maxBytes: nat)
    requires b < |s.pool.buckets| && s.pool.buckets[b] != []
    ensures var r := s.pool.buckets[b][0];
            && (Iteration(s, b, maxBytes) == s <==> r.hash in s.pool.index && s.bytes + r.size > maxBytes)
            && (Iteration(s, b, maxBytes) == s ==>
                  BuildFrom(s.pool, b + 1, s.out, s.bytes, maxTx, maxBytes) == Built(s.pool, s.out, true))
  {
    PushedBack(s.pool, b);
    assert |PopFront(s.pool, b).buckets[b]| < |s.pool.buckets[b]|;
  }

  lemma PushedBack(p: Pool, b: nat)
    requires b < |p.buckets| && p.buckets[b] != []
    ensures PushFront(PopFront(p, b), b, p.buckets[b][0]) == p
  {
    assert [p.buckets[b][0]] + p.buckets[b][1..] == p.buckets[b];
  }

  /** Any other iteration is a step of the specified loop: the call returns after it, or goes on. */
  lemma IterationAdvances(s: LoopState, b: nat, maxTx: nat, maxBytes: nat)
    requires b < |s.pool.buckets| && s.pool.buckets[b] != [] && Iteration(s, b, maxBytes) != s
    ensures var t := Iteration(s, b, maxBytes);
            && |t.pool.buckets| == |s.pool.buckets| && |t.pool.buckets[b]| < |s.pool.buckets[b]|
            && BuildFrom(s.pool, b + 1, s.out, s.bytes, maxTx, maxBytes)
               == if s.pool.buckets[b][0].hash in s.pool.index && |t.out| >= maxTx then Built(t.pool, t.out, false)
                  else BuildFrom(t.pool, b + 1, t.out, t.bytes, maxTx, maxBytes)
  {
    StuckIffIterationRepeats(s, b, maxTx, maxBytes);
  }

  // ---------- every run ----------

  datatype Op =
    | OpInsert(tx: Transaction, pohTick: u64, now: nat)
    | OpBuild(maxTx: nat, maxBytes: nat)
    | OpRemove(hashes: seq<HashId>)
    | OpEvict(now: nat)
    | OpAdjust(congestion: bool)

  /** The pool after one call, for calls that return. */
  ghost function Step(p: Pool, op: Op): Pool
    requires |p.buckets| == FEE_BUCKETS
  {
    if op.OpInsert? then Insert(p, op.tx, op.pohTick, op.now)
    else if op.OpBuild? then Build(p, op.maxTx, op.maxBytes).pool
    else if op.OpRemove? then ForgetAll(p, op.hashes)
    else if op.OpEvict? then Evicted(p, op.now)
    else Adjusted(p, op.congestion)
  }

  ghost predicate Allowed(W: World, p: Pool, op: Op)
    requires |p.buckets| == FEE_BUCKETS
  {
    && (op.OpInsert? ==> W(op.tx.txHash) == op.tx)
    && (op.OpBuild? ==> !Build(p, op.maxTx, op.maxBytes).stuck)
  }

  ghost predicate StepsTo(W: World, p: Pool, op: Op, q: Pool) {
    |p.buckets| == FEE_BUCKETS && Allowed(W, p, op) && q == Step(p, op)
  }

  /** The states of a run of calls on a new pool. */
  ghost predicate IsRun(W: World, ops: seq<Op>, states: seq<Pool>) {
    && |states| == |ops| + 1 && states[0] == NewPool()
    && forall i :: 0 <= i < |ops| ==> StepsTo(W, states[i], ops[i], states[i + 1])
  }

  lemma StepInv(W: World, p: Pool, op: Op)
    requires Inv(W, p) && Allowed(W, p, op)
    ensures Inv(W, Step(p, op))
  {
    match op
    case OpInsert(tx, tick, now) => InsertInv(W, p, tx, tick, now);
    case OpBuild(maxTx, maxBytes) => BuildBlockExact(W, p, maxTx, maxBytes);
    case OpRemove(hs) => ForgetAllInv(W, p, hs);
    case OpEvict(now) => EvictInv(W, p, now);
    case OpAdjust(c) =>
  }

  /** The four indexes agree after every call of every run. */
  lemma {:induction false} EveryRunKeepsInv(W: World, ops: seq<Op>, states: seq<Pool>, i: nat)
    requires IsRun(W, ops, states) && i < |states|
    ensures Inv(W, states[i])
  {
    if i == 0 {
      EmptyInv(W);
    } else {
      EveryRunKeepsInv(W, ops, states, i - 1);
      assert StepsTo(W, states[i - 1], ops[i - 1], states[i]);
      StepInv(W, states[i - 1], ops[i - 1]);
    }
  }
}
