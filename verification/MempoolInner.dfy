/** crates/aevum-node/src/mempool.rs: `MempoolInner`, the pool updated in place, proved against the
    operations of modules Mempool and MempoolBuild. */
module MempoolState {
  import opened Integers
  import opened Collections
  import opened Mempool
  import opened MempoolBuild

  class MempoolInner {
    var buckets: seq<seq<TxRef>>
    var index: map<HashId, TxRef>
    var nullifiers: map<HashId, HashId>
    var txStore: map<HashId, Transaction>
    var totalBytes: nat
    var minFeeWatermark: u64

    ghost function P(): Pool
      reads this
    {
      Pool(buckets, index, nullifiers, txStore, totalBytes, minFeeWatermark)
    }

    ghost predicate Valid()
      reads this
    {
      |buckets| == FEE_BUCKETS && index.Keys == txStore.Keys
    }

    constructor ()
      ensures Valid() && P() == NewPool()
    {
      buckets := NewPool().buckets;
      index, nullifiers, txStore := map[], map[], map[];
      totalBytes, minFeeWatermark := 0, MIN_FEE;
    }

    /** Admits a transaction or leaves the pool as it was. */
    method Insert(tx: Transaction, pohTick: u64, now: nat) returns (ok: bool)
      requires Valid()
      modifies this
      ensures Valid()
      ensures ok <==> old(Admissible(P(), tx))
      ensures P() == Mempool.Insert(old(P()), tx, pohTick, now)
    {
      hide Inserted, Size;
      if tx.fee < minFeeWatermark {
        return false;
      }
      if tx.txHash in index {
        return false;
      }
      var free := NullifiersFree(tx.inputs);
      if !free {
        return false;
      }
      if |index| >= MAX_MEMPOOL_TX {
        return false;
      }
      if totalBytes + Size(tx) > MAX_MEMPOOL_BYTES {
        return false;
      }
      Admit(tx, pohTick, now);
      return true;
    }

    method NullifiersFree(inputs: seq<HashId>) returns (free: bool)
      ensures free <==> forall i :: 0 <= i < |inputs| ==> inputs[i] !in nullifiers
    {
      for i := 0 to |inputs|
        invariant forall k :: 0 <= k < i ==> inputs[k] !in nullifiers
      {
        if inputs[i] in nullifiers {
          return false;
        }
      }
      return true;
    }

    /** The five updates of an admission. */
    method Admit(tx: Transaction, pohTick: u64, now: nat)
      requires Valid()
      modifies this
      ensures Valid()
      ensures P() == Inserted(old(P()), tx, pohTick, now)
    {
      hide Size, BucketOf;
      var r := TxRef(tx.txHash, tx.fee, Size(tx), pohTick, now);
      var b := BucketOf(tx.fee);
      index := index[tx.txHash := r];
      buckets := buckets[b := buckets[b] + [r]];
      AddNullifiers(tx.inputs, tx.txHash);
      txStore := txStore[tx.txHash := tx];
      totalBytes := totalBytes + Size(tx);
    }

    method AddNullifiers(inputs: seq<HashId>, owner: HashId)
      modifies this`nullifiers
      ensures nullifiers == old(nullifiers) + OwnedBy(inputs, owner)
    {
      for i := 0 to |inputs|
        invariant nullifiers == old(nullifiers) + OwnedBy(inputs[..i], owner)
      {
        nullifiers := nullifiers[inputs[i] := owner];
      }
      assert inputs[..|inputs|] == inputs;
    }

    method DropNullifiers(inputs: seq<HashId>)
      modifies this`nullifiers
      ensures nullifiers == old(nullifiers) - Elements(inputs)
    {
      for i := 0 to |inputs|
        invariant nullifiers == old(nullifiers) - Elements(inputs[..i])
      {
        nullifiers := nullifiers - {inputs[i]};
      }
      assert inputs[..|inputs|] == inputs;
    }

    /** Takes transactions from the highest fee bucket down. An entry over the byte budget goes
        back to the front of its bucket and is popped again with nothing changed, so the source's
        loop never ends from there; the method then reports `stuck`. */
    method BuildBlock(maxTx: nat, maxBytes: nat) returns (out: seq<Transaction>, stuck: bool)
      requires Valid()
      modifies this
      ensures Valid()
      ensures Built(P(), out, stuck) == old(Build(P(), maxTx, maxBytes))
    {
      out, stuck := [], false;
      hide BuildFrom, Include;
      var bytes: nat := 0;
      var b: nat := FEE_BUCKETS;
      while b > 0
        invariant Valid() && b <= FEE_BUCKETS
        invariant BuildFrom(P(), b, out, bytes, maxTx, maxBytes) == old(Build(P(), maxTx, maxBytes))
      {
        while buckets[b - 1] != []
          invariant Valid()
          invariant BuildFrom(P(), b, out, bytes, maxTx, maxBytes) == old(Build(P(), maxTx, maxBytes))
          decreases |buckets[b - 1]|
        {
          ghost var p := P();
          var r := buckets[b - 1][0];
          buckets := buckets[b - 1 := buckets[b - 1][1..]];
          if r.hash !in index {
            BuildFromGhost(p, b, out, bytes, maxTx, maxBytes);
            continue;
          }
          if bytes + r.size > maxBytes {
            buckets := buckets[b - 1 := [r] + buckets[b - 1]];
            BuildFromStuck(p, b, out, bytes, maxTx, maxBytes);
            PushedBack(p, b - 1);
            stuck := true;
            return;
          }
          BuildFromInclude(p, b, out, bytes, maxTx, maxBytes);
          var tx := TakeOut(r);
          bytes := bytes + r.size;
          out := out + [tx];
          if |out| >= maxTx {
            return;
          }
        }
        BuildFromEmptyBucket(P(), b, out, bytes, maxTx, maxBytes);
        b := b - 1;
      }
      BuildFromZero(P(), {}, out, bytes, maxTx, maxBytes);
    }

    /** Removes the transaction of a popped entry from the store and its indexes. */
    method TakeOut(r: TxRef) returns (tx: Transaction)
      requires Valid() && r.hash in txStore
      modifies this
      ensures Valid() && buckets == old(buckets)
      ensures tx == old(txStore[r.hash]) && P() == Include(old(P()), r)
    {
      tx := txStore[r.hash];
      txStore := txStore - {r.hash};
      index := index - {r.hash};
      DropNullifiers(tx.inputs);
      totalBytes := SatSub(totalBytes, r.size);
    }

    method RemoveTransactions(hashes: seq<HashId>)
      requires Valid()
      modifies this
      ensures Valid()
      ensures P() == ForgetAll(old(P()), hashes)
    {
      for i := 0 to |hashes|
        invariant Valid()
        invariant P() == ForgetAll(old(P()), hashes[..i])
      {
        assert hashes[..i + 1][..i] == hashes[..i];
        RemoveOne(hashes[i]);
      }
      assert hashes[..|hashes|] == hashes;
    }

    method RemoveOne(h: HashId)
      requires Valid()
      modifies this
      ensures Valid()
      ensures P() == Forget(old(P()), h)
    {
      if h in index {
        totalBytes := SatSub(totalBytes, index[h].size);
        index := index - {h};
        if h in txStore {
          var tx := txStore[h];
          txStore := txStore - {h};
          DropNullifiers(tx.inputs);
        }
      }
    }

    /** The fee floor never falls below the minimum fee. */
    method AdjustFeeFloor(congestion: bool)
      modifies this`minFeeWatermark
      ensures P() == Adjusted(old(P()), congestion)
      ensures old(minFeeWatermark) >= MIN_FEE ==> minFeeWatermark >= MIN_FEE
    {
      if congestion {
        minFeeWatermark := if minFeeWatermark + 1 < U64 then minFeeWatermark + 1 else minFeeWatermark;
      } else {
        var lowered := SatSub(minFeeWatermark, 1);
        minFeeWatermark := if lowered >= MIN_FEE then lowered else MIN_FEE;
      }
    }

    /** Drops stale bucket entries, then every hash one of them named. */
    method EvictStale(now: nat) returns (evicted: nat)
      requires Valid()
      modifies this
      ensures Valid()
      ensures P() == Evicted(old(P()), now)
      ensures evicted == |AllStale(old(buckets), now)|
    {
      ghost var before := buckets;
      var stale: seq<HashId> := [];
      for b := 0 to FEE_BUCKETS
        invariant Valid()
        invariant stale == AllStale(before[..b], now)
        invariant forall c :: 0 <= c < b ==> buckets[c] == Fresh(before[c], now)
        invariant forall c :: b <= c < FEE_BUCKETS ==> buckets[c] == before[c]
        invariant P() == old(P()).(buckets := buckets)
      {
        var kept, dropped := Retain(buckets[b], now);
        assert before[..b + 1][..b] == before[..b];
        stale := stale + dropped;
        buckets := buckets[b := kept];
      }
      assert before[..FEE_BUCKETS] == before && buckets == FreshBuckets(before, now);
      evicted := |stale|;
      RemoveTransactions(stale);
    }
  }

  /** `retain`, collecting the hashes of what it drops. */
  method Retain(refs: seq<TxRef>, now: nat) returns (kept: seq<TxRef>, dropped: seq<HashId>)
    ensures kept == Fresh(refs, now) && dropped == StaleHashes(refs, now)
  {
    kept, dropped := [], [];
    for i := 0 to |refs|
      invariant kept == Fresh(refs[..i], now) && dropped == StaleHashes(refs[..i], now)
    {
      assert refs[..i + 1][..i] == refs[..i];
      if Stale(refs[i], now) {
        dropped := dropped + [refs[i].hash];
      } else {
        kept := kept + [refs[i]];
      }
    }
    assert refs[..|refs|] == refs;
  }
}
