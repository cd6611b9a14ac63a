/** crates/aevum-node/src/mempool.rs: the fee-bucketed transaction pool. This module has the
    operations as functions of the pool and their invariants; `MempoolInner` is the mutable pool. */
module Mempool {
  import opened Integers
  import opened Collections
  import opened Sums

  /** The pool compares hashes and never looks inside one: they are identifiers here. */
  type HashId = int

  const FEE_BUCKETS: nat := 64
  const MIN_FEE: u64 := 1
  const MAX_MEMPOOL_TX: nat := 50_000
  const MAX_MEMPOOL_BYTES: nat := 134_217_728
  const TX_TTL: nat := 3600

  /** Of a transaction the pool reads its hash, fee, input nullifiers and the sizes of its parts. */
  datatype Transaction = Transaction(
    txHash: HashId, fee: u64, inputs: seq<HashId>, outputCount: nat, witnessLengths: seq<nat>)

  datatype TxRef = TxRef(hash: HashId, fee: u64, size: nat, pohTick: u64, insertedAt: nat)

  datatype Pool = Pool(
    buckets: seq<seq<TxRef>>, index: map<HashId, TxRef>, nullifiers: map<HashId, HashId>,
    store: map<HashId, Transaction>, totalBytes: nat, watermark: u64)

  /** "The hash determines the transaction": every transaction offered to the pool is the one its
      hash names. The pool itself never recomputes a hash. */
  type World = HashId -> Transaction

  // ---------- buckets and sizes ----------

  /** 63 minus the number of leading zeros, zero fees counting as bucket 0. */
  function BucketOf(fee: u64): (b: nat)
    ensures b < FEE_BUCKETS
  {
    Min(Log2(fee), FEE_BUCKETS - 1)
  }

  function WitnessBytes(lens: seq<nat>): nat {
    if lens == [] then 0 else 4 + lens[0] + WitnessBytes(lens[1..])
  }

  function Size(tx: Transaction): nat {
    Min(63 + 204 * |tx.inputs| + 174 * tx.outputCount + WitnessBytes(tx.witnessLengths), MAX_MEMPOOL_BYTES)
  }

  /** A fee in the same or a lower bucket is below twice the other fee. */
  lemma BucketRatio(earlier: u64, later: u64)
    requires earlier >= 1 && BucketOf(later) <= BucketOf(earlier)
    ensures later < 2 * earlier
  {
    if later >= 1 {
      Widths();
      Log2Below(earlier, 64);
      Log2Below(later, 64);
      Log2Bounds(earlier);
      Log2Bounds(later);
      Pow2Monotone(Log2(later), Log2(earlier));
    }
  }

  // ---------- the invariant ----------

  /** A bucket entry that describes the transaction its hash names, in the right bucket. */
  ghost predicate RefOk(W: World, r: TxRef, b: nat) {
    r.fee == W(r.hash).fee && r.size == Size(W(r.hash)) && BucketOf(r.fee) == b
  }

  ghost predicate BucketsOk(W: World, buckets: seq<seq<TxRef>>) {
    && |buckets| == FEE_BUCKETS
    && forall b, k :: 0 <= b < FEE_BUCKETS && 0 <= k < |buckets[b]| ==> RefOk(W, buckets[b][k], b)
  }

  ghost predicate StoreOk(W: World, index: map<HashId, TxRef>, store: map<HashId, Transaction>) {
    && index.Keys == store.Keys
    && (forall h :: h in store ==> store[h] == W(h) && W(h).txHash == h && W(h).fee >= 1)
    && (forall h :: h in index ==> index[h].hash == h && RefOk(W, index[h], BucketOf(W(h).fee)))
  }

  /** Every live transaction has its own entry in its fee bucket. */
  ghost predicate LiveRefs(buckets: seq<seq<TxRef>>, index: map<HashId, TxRef>) {
    && |buckets| == FEE_BUCKETS
    && forall h :: h in index ==> index[h] in buckets[BucketOf(index[h].fee)]
  }

  /** The nullifier index holds exactly the inputs of stored transactions, each with its one owner. */
  ghost predicate NullifiersOk(nullifiers: map<HashId, HashId>, store: map<HashId, Transaction>) {
    && (forall n :: n in nullifiers ==> nullifiers[n] in store && n in store[nullifiers[n]].inputs)
    && (forall h, n :: h in store && n in store[h].inputs ==> n in nullifiers && nullifiers[n] == h)
  }

  ghost function SizeOf(W: World): HashId -> nat { (h: HashId) => Size(W(h)) }

  ghost predicate BytesOk(W: World, live: set<HashId>, totalBytes: nat) {
    totalBytes == Sum(live, SizeOf(W)) && totalBytes <= MAX_MEMPOOL_BYTES && |live| <= MAX_MEMPOOL_TX
  }

  ghost predicate Inv(W: World, p: Pool) {
    && BucketsOk(W, p.buckets)
    && StoreOk(W, p.index, p.store)
    && LiveRefs(p.buckets, p.index)
    && NullifiersOk(p.nullifiers, p.store)
    && BytesOk(W, p.index.Keys, p.totalBytes)
    && p.watermark >= MIN_FEE
  }

  function NewPool(): Pool {
    Pool(seq(FEE_BUCKETS, _ => []), map[], map[], map[], 0, MIN_FEE)
  }

  lemma EmptyInv(W: World)
    ensures Inv(W, NewPool())
  {
  }

  // ---------- insert ----------

  function OwnedBy(inputs: seq<HashId>, owner: HashId): map<HashId, HashId> { map n | n in inputs :: owner }

  predicate Admissible(p: Pool, tx: Transaction) {
    && tx.fee >= p.watermark
    && tx.txHash !in p.index
    && (forall i :: 0 <= i < |tx.inputs| ==> tx.inputs[i] !in p.nullifiers)
    && |p.index| < MAX_MEMPOOL_TX
    && p.totalBytes + Size(tx) <= MAX_MEMPOOL_BYTES
  }

  ghost function Inserted(p: Pool, tx: Transaction, pohTick: u64, now: nat): Pool
    requires |p.buckets| == FEE_BUCKETS
  {
    var r := TxRef(tx.txHash, tx.fee, Size(tx), pohTick, now);
    var b := BucketOf(tx.fee);
    p.(index := p.index[tx.txHash := r],
       buckets := p.buckets[b := p.buckets[b] + [r]],
       nullifiers := p.nullifiers + OwnedBy(tx.inputs, tx.txHash),
       store := p.store[tx.txHash := tx],
       totalBytes := p.totalBytes + Size(tx))
  }

  ghost function Insert(p: Pool, tx: Transaction, pohTick: u64, now: nat): Pool
    requires |p.buckets| == FEE_BUCKETS
  {
    if Admissible(p, tx) then Inserted(p, tx, pohTick, now) else p
  }

  lemma InsertInv(W: World, p: Pool, tx: Transaction, pohTick: u64, now: nat)
    requires Inv(W, p) && W(tx.txHash) == tx
    ensures Inv(W, Insert(p, tx, pohTick, now))
  {
    assert |p.buckets| == FEE_BUCKETS && p.index.Keys == p.store.Keys;
    hide BucketsOk, LiveRefs, NullifiersOk, StoreOk, BytesOk, Inserted;
    if Admissible(p, tx) {
      var r := TxRef(tx.txHash, tx.fee, Size(tx), pohTick, now);
      InsertStore(W, p.index, p.store, tx, r);
      InsertNullifiers(p.nullifiers, p.store, tx);
      InsertBuckets(W, p.buckets, p.index, r);
      InsertBytes(W, p.index.Keys, p.totalBytes, tx);
      InsertedShape(p, tx, pohTick, now);
    }
  }

  lemma InsertedShape(p: Pool, tx: Transaction, pohTick: u64, now: nat)
    requires |p.buckets| == FEE_BUCKETS
    ensures var r, q := TxRef(tx.txHash, tx.fee, Size(tx), pohTick, now), Inserted(p, tx, pohTick, now);
            && q.index == p.index[tx.txHash := r] && q.index.Keys == p.index.Keys + {tx.txHash}
            && q.store == p.store[tx.txHash := tx] && q.totalBytes == p.totalBytes + Size(tx)
            && q.nullifiers == p.nullifiers + OwnedBy(tx.inputs, tx.txHash)
            && q.buckets == p.buckets[BucketOf(r.fee) := p.buckets[BucketOf(r.fee)] + [r]]
            && q.watermark == p.watermark
  {
  }

  lemma InsertStore(W: World, index: map<HashId, TxRef>, store: map<HashId, Transaction>, tx: Transaction, r: TxRef)
    requires StoreOk(W, index, store) && W(tx.txHash) == tx && tx.fee >= 1
    requires r.hash == tx.txHash && r.fee == tx.fee && r.size == Size(tx)
    ensures StoreOk(W, index[tx.txHash := r], store[tx.txHash := tx]) && RefOk(W, r, BucketOf(r.fee))
  {
  }

  lemma InsertBytes(W: World, live: set<HashId>, totalBytes: nat, tx: Transaction)
    requires BytesOk(W, live, totalBytes) && W(tx.txHash) == tx && tx.txHash !in live
    requires |live| < MAX_MEMPOOL_TX && totalBytes + Size(tx) <= MAX_MEMPOOL_BYTES
    ensures BytesOk(W, live + {tx.txHash}, totalBytes + Size(tx))
  {
    SumAdd(live, SizeOf(W), tx.txHash);
  }

  lemma InsertNullifiers(nullifiers: map<HashId, HashId>, store: map<HashId, Transaction>, tx: Transaction)
    requires NullifiersOk(nullifiers, store) && tx.txHash !in store
    requires forall i :: 0 <= i < |tx.inputs| ==> tx.inputs[i] !in nullifiers
    ensures NullifiersOk(nullifiers + OwnedBy(tx.inputs, tx.txHash), store[tx.txHash := tx])
  {
    var ns, st := nullifiers + OwnedBy(tx.inputs, tx.txHash), store[tx.txHash := tx];
    forall n | n in ns ensures ns[n] in st && n in st[ns[n]].inputs {
      if n !in tx.inputs { assert n in nullifiers; }
    }
    forall h, n | h in st && n in st[h].inputs ensures n in ns && ns[n] == h {
      if h != tx.txHash {
        assert n in nullifiers && nullifiers[n] == h;
        assert n !in tx.inputs;
      }
    }
  }

  lemma InsertBuckets(W: World, buckets: seq<seq<TxRef>>, index: map<HashId, TxRef>, r: TxRef)
    requires BucketsOk(W, buckets) && LiveRefs(buckets, index) && RefOk(W, r, BucketOf(r.fee))
    ensures var bs := buckets[BucketOf(r.fee) := buckets[BucketOf(r.fee)] + [r]];
            BucketsOk(W, bs) && LiveRefs(bs, index[r.hash := r])
  {
    var bs, ix := buckets[BucketOf(r.fee) := buckets[BucketOf(r.fee)] + [r]], index[r.hash := r];
    forall b, k | 0 <= b < FEE_BUCKETS && 0 <= k < |bs[b]| ensures RefOk(W, bs[b][k], b) {
      if k < |buckets[b]| { assert RefOk(W, buckets[b][k], b); }
    }
    forall h | h in ix ensures ix[h] in bs[BucketOf(ix[h].fee)] {
      if h != r.hash { assert index[h] in buckets[BucketOf(index[h].fee)]; }
    }
  }

  /** Which transactions are admitted, in terms of the transactions held: those that pay the floor,
      are not held already, spend nothing that a held transaction spends, and fit both caps. */
  lemma AdmissibleExactly(W: World, p: Pool, tx: Transaction)
    requires Inv(W, p)
    ensures Admissible(p, tx) <==>
            && tx.fee >= p.watermark && tx.txHash !in p.store
            && (forall h :: h in p.store ==> Elements(p.store[h].inputs) * Elements(tx.inputs) == {})
            && |p.store.Keys| < MAX_MEMPOOL_TX
            && Sum(p.store.Keys, SizeOf(W)) + Size(tx) <= MAX_MEMPOOL_BYTES
  {
    assert p.index.Keys == p.store.Keys && |p.index| == |p.index.Keys|;
    assert p.totalBytes == Sum(p.store.Keys, SizeOf(W));
    SpendsNothingHeld(p.nullifiers, p.store, tx.inputs);
    hide Inv, Sum, NullifiersOk, Elements;
  }

  lemma SpendsNothingHeld(nullifiers: map<HashId, HashId>, store: map<HashId, Transaction>, inputs: seq<HashId>)
    requires NullifiersOk(nullifiers, store)
    ensures (forall i :: 0 <= i < |inputs| ==> inputs[i] !in nullifiers)
            <==> forall h :: h in store ==> Elements(store[h].inputs) * Elements(inputs) == {}
  {
    forall i | 0 <= i < |inputs| && inputs[i] in nullifiers
      ensures exists h :: h in store && Elements(store[h].inputs) * Elements(inputs) != {} {
      OwnerSpends(nullifiers, store, inputs[i]);
      var h := nullifiers[inputs[i]];
      assert inputs[i] in Elements(store[h].inputs) * Elements(inputs);
    }
    forall h | h in store && (forall i :: 0 <= i < |inputs| ==> inputs[i] !in nullifiers)
      ensures Elements(store[h].inputs) * Elements(inputs) == {} {
      forall n | n in store[h].inputs ensures n !in inputs {
        SpentIsIndexed(nullifiers, store, h, n);
      }
    }
  }

  lemma SpentIsIndexed(nullifiers: map<HashId, HashId>, store: map<HashId, Transaction>, h: HashId, n: HashId)
    requires NullifiersOk(nullifiers, store) && h in store && n in store[h].inputs
    ensures n in nullifiers
  {
  }

  lemma OwnerSpends(nullifiers: map<HashId, HashId>, store: map<HashId, Transaction>, n: HashId)
    requires NullifiersOk(nullifiers, store) && n in nullifiers
    ensures nullifiers[n] in store && n in store[nullifiers[n]].inputs
  {
    assert nullifiers[n] in store;
  }

  // ---------- removal ----------

  /** Takes one hash out of the index, the store and the nullifier index; bucket entries stay. */
  ghost function Forget(p: Pool, h: HashId): Pool {
    var p1 := if h in p.index
              then p.(totalBytes := SatSub(p.totalBytes, p.index[h].size), index := p.index - {h})
              else p;
    if h in p1.store
    then p1.(store := p1.store - {h}, nullifiers := p1.nullifiers - Elements(p1.store[h].inputs))
    else p1
  }

  ghost function ForgetAll(p: Pool, hs: seq<HashId>): Pool {
    if hs == [] then p else Forget(ForgetAll(p, hs[..|hs| - 1]), hs[|hs| - 1])
  }

  lemma ForgetInv(W: World, p: Pool, h: HashId)
    requires Inv(W, p)
    ensures Inv(W, Forget(p, h))
    ensures Forget(p, h).index == p.index - {h} && Forget(p, h).store == p.store - {h}
  {
    assert p.index.Keys == p.store.Keys;
    ForgetShape(p, h);
    hide BucketsOk, LiveRefs, NullifiersOk, RefOk, StoreOk, BytesOk, Size, Forget;
    if h in p.index {
      ForgetStore(W, p.index, p.store, h);
      ForgetNullifiers(p.nullifiers, p.store, h);
      ForgetRefs(p.buckets, p.index, h);
      ForgetBytes(W, p.index.Keys, p.totalBytes, h);
      assert p.index[h].size == Size(W(h)) by { RefSize(W, p.index, p.store, h); }
      assert (p.index - {h}).Keys == p.index.Keys - {h};
    }
  }

  lemma ForgetShape(p: Pool, h: HashId)
    requires p.index.Keys == p.store.Keys
    ensures h in p.index ==>
            Forget(p, h) == Pool(p.buckets, p.index - {h}, p.nullifiers - Elements(p.store[h].inputs),
                                 p.store - {h}, SatSub(p.totalBytes, p.index[h].size), p.watermark)
    ensures h !in p.index ==> Forget(p, h) == p && p.index - {h} == p.index && p.store - {h} == p.store
  {
    if h !in p.index {
      assert h !in p.store;
      assert p.index - {h} == p.index && p.store - {h} == p.store;
    }
  }

  lemma ForgetStore(W: World, index: map<HashId, TxRef>, store: map<HashId, Transaction>, h: HashId)
    requires StoreOk(W, index, store)
    ensures StoreOk(W, index - {h}, store - {h})
  {
    assert (index - {h}).Keys == index.Keys - {h} && (store - {h}).Keys == store.Keys - {h};
  }

  lemma RefSize(W: World, index: map<HashId, TxRef>, store: map<HashId, Transaction>, h: HashId)
    requires StoreOk(W, index, store) && h in index
    ensures index[h].size == Size(W(h))
  {
    assert RefOk(W, index[h], BucketOf(W(h).fee));
  }

  lemma ForgetRefs(buckets: seq<seq<TxRef>>, index: map<HashId, TxRef>, h: HashId)
    requires LiveRefs(buckets, index)
    ensures LiveRefs(buckets, index - {h})
  {
  }

  lemma ForgetBytes(W: World, live: set<HashId>, totalBytes: nat, h: HashId)
    requires BytesOk(W, live, totalBytes) && h in live
    ensures Size(W(h)) <= totalBytes && BytesOk(W, live - {h}, totalBytes - Size(W(h)))
  {
    var rest := live - {h};
    SumRemove(live, SizeOf(W), h);
    SumSubset({}, rest, SizeOf(W));
  }

  lemma ForgetNullifiers(nullifiers: map<HashId, HashId>, store: map<HashId, Transaction>, h: HashId)
    requires NullifiersOk(nullifiers, store) && h in store
    ensures NullifiersOk(nullifiers - Elements(store[h].inputs), store - {h})
  {
    var ns, st := nullifiers - Elements(store[h].inputs), store - {h};
    assert forall n :: n in store[h].inputs ==> nullifiers[n] == h;
    forall n | n in ns ensures ns[n] in st && n in st[ns[n]].inputs {
      assert n in nullifiers && n !in store[h].inputs;
    }
    forall g, n | g in st && n in st[g].inputs ensures n in ns && ns[n] == g {
      assert n in nullifiers && nullifiers[n] == g;
    }
  }

  /** Removing a list of hashes removes exactly those, keeps the rest and keeps the invariant. */
  lemma {:induction false} ForgetAllInv(W: World, p: Pool, hs: seq<HashId>)
    requires Inv(W, p)
    ensures Inv(W, ForgetAll(p, hs))
    ensures ForgetAll(p, hs).index == p.index - Elements(hs)
    ensures ForgetAll(p, hs).store == p.store - Elements(hs)
    ensures ForgetAll(p, hs).buckets == p.buckets && ForgetAll(p, hs).watermark == p.watermark
  {
    hide Inv;
    if hs == [] {
      assert Elements(hs) == {};
      assert p.index - {} == p.index && p.store - {} == p.store;
    } else {
      var init, last := hs[..|hs| - 1], hs[|hs| - 1];
      ForgetAllInv(W, p, init);
      ForgetInv(W, ForgetAll(p, init), last);
      assert Elements(hs) == Elements(init) + {last};
      assert p.index - Elements(init) - {last} == p.index - Elements(hs);
      assert p.store - Elements(init) - {last} == p.store - Elements(hs);
    }
  }

  // ---------- eviction ----------

  predicate Stale(r: TxRef, now: nat) { SatSub(now, r.insertedAt) > TX_TTL }

  function Fresh(refs: seq<TxRef>, now: nat): seq<TxRef> {
    if refs == [] then []
    else if Stale(refs[|refs| - 1], now) then Fresh(refs[..|refs| - 1], now)
    else Fresh(refs[..|refs| - 1], now) + [refs[|refs| - 1]]
  }

  function StaleHashes(refs: seq<TxRef>, now: nat): seq<HashId> {
    if refs == [] then []
    else if Stale(refs[|refs| - 1], now) then StaleHashes(refs[..|refs| - 1], now) + [refs[|refs| - 1].hash]
    else StaleHashes(refs[..|refs| - 1], now)
  }

  function FreshBuckets(buckets: seq<seq<TxRef>>, now: nat): (kept: seq<seq<TxRef>>)
    ensures |kept| == |buckets|
  {
    seq(|buckets|, b requires 0 <= b < |buckets| => Fresh(buckets[b], now))
  }

  function AllStale(buckets: seq<seq<TxRef>>, now: nat): seq<HashId> {
    if buckets == [] then []
    else AllStale(buckets[..|buckets| - 1], now) + StaleHashes(buckets[|buckets| - 1], now)
  }

  ghost function Evicted(p: Pool, now: nat): Pool {
    ForgetAll(p.(buckets := FreshBuckets(p.buckets, now)), AllStale(p.buckets, now))
  }

  lemma {:induction false} FreshMember(refs: seq<TxRef>, now: nat)
    ensures forall r :: r in Fresh(refs, now) <==> r in refs && !Stale(r, now)
    ensures forall h :: h in StaleHashes(refs, now) <==> exists r :: r in refs && Stale(r, now) && r.hash == h
  {
    if refs != [] {
      var init, last := refs[..|refs| - 1], refs[|refs| - 1];
      assert refs == init + [last];
      FreshMember(init, now);
      forall h | h in StaleHashes(refs, now) ensures exists r :: r in refs && Stale(r, now) && r.hash == h {
        if h in StaleHashes(init, now) {
          var r :| r in init && Stale(r, now) && r.hash == h;
          assert r in refs;
        } else {
          assert last in refs;
        }
      }
    }
  }

  ghost predicate HasStaleRef(buckets: seq<seq<TxRef>>, h: HashId, now: nat) {
    exists b, r :: 0 <= b < |buckets| && r in buckets[b] && Stale(r, now) && r.hash == h
  }

  lemma {:induction false} AllStaleMember(buckets: seq<seq<TxRef>>, now: nat, h: HashId)
    ensures h in AllStale(buckets, now) <==> HasStaleRef(buckets, h, now)
  {
    if buckets != [] {
      var n := |buckets| - 1;
      AllStaleMember(buckets[..n], now, h);
      FreshMember(buckets[n], now);
      StaleRefLast(buckets, now, h);
    }
  }

  lemma StaleRefLast(buckets: seq<seq<TxRef>>, now: nat, h: HashId)
    requires buckets != []
    ensures HasStaleRef(buckets, h, now) <==>
            HasStaleRef(buckets[..|buckets| - 1], h, now)
            || exists r :: r in buckets[|buckets| - 1] && Stale(r, now) && r.hash == h
  {
    var n := |buckets| - 1;
    if HasStaleRef(buckets[..n], h, now) {
      var b, r :| 0 <= b < n && r in buckets[..n][b] && Stale(r, now) && r.hash == h;
      assert r in buckets[b];
    }
    if HasStaleRef(buckets, h, now) {
      var b, r :| 0 <= b < |buckets| && r in buckets[b] && Stale(r, now) && r.hash == h;
      if b < n { assert r in buckets[..n][b]; }
    }
  }

  lemma {:induction false} ForgetAllBuckets(p: Pool, bs: seq<seq<TxRef>>, hs: seq<HashId>)
    ensures ForgetAll(p.(buckets := bs), hs) == ForgetAll(p, hs).(buckets := bs)
  {
    if hs != [] { ForgetAllBuckets(p, bs, hs[..|hs| - 1]); }
  }

  /** Eviction keeps the invariant and drops exactly the transactions whose hash has a stale entry
      in some bucket: every live transaction past its time, and any live one that was re-inserted
      while an old entry for it was still queued. */
  lemma EvictInv(W: World, p: Pool, now: nat)
    requires Inv(W, p)
    ensures Inv(W, Evicted(p, now))
    ensures forall h :: h in Evicted(p, now).index <==> h in p.index && !HasStaleRef(p.buckets, h, now)
    ensures forall h :: h in Evicted(p, now).index ==> !Stale(p.index[h], now)
  {
    assert forall h :: h in p.index ==> p.index[h].hash == h;
    hide BucketsOk, StoreOk, NullifiersOk, BytesOk, ForgetAll;
    var hs, bs := AllStale(p.buckets, now), FreshBuckets(p.buckets, now);
    ForgetAllInv(W, p, hs);
    ForgetAllBuckets(p, bs, hs);
    forall h ensures h in hs <==> HasStaleRef(p.buckets, h, now) {
      AllStaleMember(p.buckets, now, h);
    }
    EvictRefs(p.buckets, p.index, hs, now);
    FreshBucketsOk(W, p.buckets, now);
  }

  lemma EvictRefs(buckets: seq<seq<TxRef>>, index: map<HashId, TxRef>, hs: seq<HashId>, now: nat)
    requires LiveRefs(buckets, index)
    requires forall h :: h in hs <==> HasStaleRef(buckets, h, now)
    requires forall h :: h in index ==> index[h].hash == h
    ensures LiveRefs(FreshBuckets(buckets, now), index - Elements(hs))
    ensures forall h :: h in index && h !in hs ==> !Stale(index[h], now)
  {
    var bs := FreshBuckets(buckets, now);
    forall h | h in index && h !in hs ensures !Stale(index[h], now) && index[h] in bs[BucketOf(index[h].fee)] {
      var b := BucketOf(index[h].fee);
      assert index[h] in buckets[b];
      FreshMember(buckets[b], now);
    }
  }

  /** Eviction is not by the age of the live transaction: one that is removed, offered again and
      admitted afresh is evicted with its first, stale entry. */
  lemma EvictsReinserted(W: World, tx: Transaction)
    requires W(tx.txHash) == tx && tx.fee >= 1
    ensures var p1 := Insert(NewPool(), tx, 0, 0);
            var p2 := ForgetAll(p1, [tx.txHash]);
            && |p2.buckets| == FEE_BUCKETS
            && var p3 := Insert(p2, tx, 0, 3601);
            && tx.txHash in p3.index && !Stale(p3.index[tx.txHash], 3700)
            && tx.txHash !in Evicted(p3, 3700).index
  {
    hide Inv, Insert, Evicted, ForgetAll, BucketOf;
    var h, p0 := tx.txHash, NewPool();
    EmptyInv(W);
    InsertIntoEmpty(W, p0, tx, 0);
    var p1 := Insert(p0, tx, 0, 0);
    ForgetAllInv(W, p1, [h]);
    var p2 := ForgetAll(p1, [h]);
    assert p2.index == map[];
    InsertIntoEmpty(W, p2, tx, 3601);
    var p3 := Insert(p2, tx, 0, 3601);
    var b, first := BucketOf(tx.fee), TxRef(h, tx.fee, Size(tx), 0, 0);
    assert first in p3.buckets[b] && Stale(first, 3700);
    EvictInv(W, p3, 3700);
  }

  lemma InsertIntoEmpty(W: World, p: Pool, tx: Transaction, now: nat)
    requires Inv(W, p) && p.index == map[] && p.watermark == MIN_FEE && W(tx.txHash) == tx && tx.fee >= 1
    ensures |p.buckets| == FEE_BUCKETS && Inv(W, Insert(p, tx, 0, now))
    ensures var q, r, b := Insert(p, tx, 0, now), TxRef(tx.txHash, tx.fee, Size(tx), 0, now), BucketOf(tx.fee);
            && q.index == map[tx.txHash := r] && q.watermark == MIN_FEE
            && |q.buckets| == FEE_BUCKETS && q.buckets[b] == p.buckets[b] + [r]
  {
    InsertInv(W, p, tx, 0, now);
    assert p.store.Keys == {};
    SmallPoolAdmits(p, tx);
  }

  lemma OwnerStored(nullifiers: map<HashId, HashId>, store: map<HashId, Transaction>, n: HashId)
    requires NullifiersOk(nullifiers, store) && n in nullifiers
    ensures store.Keys != {}
  {
    assert nullifiers[n] in store;
  }

  lemma SmallPoolAdmits(p: Pool, tx: Transaction)
    requires p.index == map[] && p.store.Keys == {} && NullifiersOk(p.nullifiers, p.store)
    requires p.totalBytes == 0 && p.watermark == MIN_FEE && tx.fee >= 1
    ensures Admissible(p, tx)
  {
    hide NullifiersOk;
    forall i | 0 <= i < |tx.inputs| ensures tx.inputs[i] !in p.nullifiers {
      if tx.inputs[i] in p.nullifiers {
        OwnerStored(p.nullifiers, p.store, tx.inputs[i]);
      }
    }
  }

  lemma FreshBucketsOk(W: World, buckets: seq<seq<TxRef>>, now: nat)
    requires BucketsOk(W, buckets)
    ensures BucketsOk(W, FreshBuckets(buckets, now))
  {
    var bs := FreshBuckets(buckets, now);
    forall b, k | 0 <= b < FEE_BUCKETS && 0 <= k < |bs[b]| ensures RefOk(W, bs[b][k], b) {
      FreshMember(buckets[b], now);
      assert bs[b][k] in buckets[b];
      var j :| 0 <= j < |buckets[b]| && buckets[b][j] == bs[b][k];
      assert RefOk(W, buckets[b][j], b);
    }
  }

  // ---------- the fee floor ----------

  function Adjusted(p: Pool, congestion: bool): Pool {
    p.(watermark := if congestion then (if p.watermark + 1 < U64 then p.watermark + 1 else p.watermark)
                    else if SatSub(p.watermark, 1) >= MIN_FEE then SatSub(p.watermark, 1) else MIN_FEE)
  }

  /** Congestion raises the floor by one and quiet lowers it by one, within its bounds; nothing else
      changes. */
  lemma FloorMoves(p: Pool, congestion: bool)
    requires p.watermark >= MIN_FEE
    ensures var f := Adjusted(p, congestion).watermark;
            && f >= MIN_FEE && Adjusted(p, congestion) == p.(watermark := f)
            && (congestion ==> f >= p.watermark && (f > p.watermark <==> p.watermark < U64 - 1))
            && (!congestion ==> f <= p.watermark && (f < p.watermark <==> p.watermark > MIN_FEE))
            && -1 <= f - p.watermark <= 1
  {
  }
}
