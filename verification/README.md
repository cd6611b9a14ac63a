# Aevum: a Dafny model of the node's algorithms and state machines

This project models the algorithmic core of the Aevum node and proves what its parts promise each
other: commitments that bind whole states and chains, fast algorithms that agree with a simple
specification, and invariants of state machines over every run. There is one module per source file,
except that the mempool, the peer registry and the routing table each have more than one: `Mempool`
and `MempoolBuild` specify the operations of the mutable pool in `MempoolState`, `PeersOverlap` adds to
`Peers` what overlapping calls do, and `DhtTable` and `DhtGeometry` add to `Dht` what runs leave in the
table and how buckets relate to distances.
`Integers`, `Collections`, `Bytes`, `Sorting`, `Sums` and `Merkle` hold what several of them share.
Objects that the source updates in place are classes; each method is proved against a function of the
old state, and the theorems are about those functions and about all runs of them. `dafny verify
dfyconfig.toml` checks everything.

How the outside world is modelled:

- **Hashing.** The hash function is a parameter `H` from bytes to 32-byte strings. Encodings are
  modelled byte for byte. Where a theorem needs an ideal hash it asks only that `H` has no collision
  among the byte strings actually hashed in the runs being compared (`CollisionFree`).
- **Signatures, `consensus_bytes`, the Bloom key hash, the state transition** are parameters: any
  functions of their arguments.
- **Time** is a number passed in.
- **Integers** are unbounded, with 64-bit wrap-around or saturation written out wherever the source's
  operator can reach it (escrow arithmetic, epoch counters, peer counters, liveness of DHT nodes, L2
  balances and nonces). Where a plain operator overflows, the wrapped value is modelled; a build with
  overflow checks panics there instead.

What the code does where its documentation or tests suggest something else:

- `emitted` reaches `MAX_SUPPLY` at height 37,100, inside the first halving period, so the assertion at
  `crates/aevum-core/src/economics.rs:110` that less is emitted by height 500,000 is false
  (`Economics.CapReachedEarly`).
- `build_block` never returns when the next transaction does not fit the byte budget: it pushes the
  entry back to the front and pops it again. `MempoolBuild.BuildBlockExact` gives the exact condition.
- `evict_stale` evicts by the age of bucket entries, so a transaction that was removed and admitted
  again is evicted with its first entry (`Mempool.EvictsReinserted`; exact rule in `Mempool.EvictInv`).
- `verify_dag_acyclic` reads the record's own parents from the map, so it must be called after the
  insertion. Asked earlier, it always passes (`Presence.AbsentRecordAlwaysPasses`); that answer is right
  exactly when no parent already reaches the record (`Presence.EarlyCheckRightIff`).
- The hash of a presence record does not mark where its transactions end and its parents begin
  (`Presence.HashFixesParentsIffSameCount`): two accepted records with different parents share a hash
  under every hash function (`Presence.AcceptedRecordsShareAHash`).
- `find_closest` stops at the first window of buckets that holds enough nodes, and bucket numbers do
  not follow distances, so the nodes it returns need not be the closest (`Dht.MissesTheClosest`). They
  are exactly when the closest nodes of the table lie in that window
  (`DhtGeometry.GloballyClosestIffInWindow`), for example whenever the target's own bucket holds enough
  living nodes (`DhtGeometry.OwnBucketSuffices`).
- The trust quorum is described as two thirds of the network, but is capped at nine: two quorums are
  sure to share a voter exactly up to 17 delegates (`Trust.OverlapIffAtMost17`).
- The two connection counters survive every interleaving, but per-IP counts do not: a removal that
  overlaps a registration can lose a count (`Peers.OverlapLosesIpCount`) or leave one behind for ever
  (`PeersOverlap.OverlapGainsIpCount`). With no call in flight a count is right exactly when its mistimed
  steps cancel out (`PeersOverlap.QuiescentIpExactIff`), and there are none if calls that touch the same
  address never overlap (`PeersOverlap.AloneNeverDrifts`).
- L2 conservation holds for a number of credited units exactly when it is below 2^64 - 1
  (`L2State.ConservesIffBelow`).
- `ReorgTooDeep` and `AmountZero` are errors that no input can cause.

## Model

| member | source | states |
|---|---|---|
| `Merkle.ComputeRoot` | crates/aevum-core/src/settlement.rs:152-167 | the layer-by-layer loop computes the root of the recursively defined tree in which an odd last node is paired with itself |
| `Merkle.RootInjectiveSameLength` | crates/aevum-core/src/settlement.rs:152-167 | leaf lists of one length with one root are equal |
| `Merkle.RootInjective` | crates/aevum-core/src/state_root.rs:101-116 | lists of distinct leaf hashes of any two lengths with one root are equal: odd-leaf duplication confuses no two of them |
| `Merkle.OddLeafAmbiguous` | crates/aevum-core/src/state_root.rs:106-115 | without distinct leaves two different lists share a root, for every hash function |
| `StateRoot.CheckedSupply` | crates/aevum-core/src/state_root.rs:54-54 | the running checked addition fails exactly when the whole sum overflows 64 bits |
| `StateRoot.FindDuplicate` | crates/aevum-core/src/state_root.rs:56-57 | the `seen` loop finds nothing exactly on distinct lists, and otherwise the first repeated element |
| `StateRoot.ComputeStateRoot` | crates/aevum-core/src/state_root.rs:50-65 | succeeds exactly on consistent input and then returns the specified hash and the inputs; otherwise the error of the first failing check with its payload |
| `StateRoot.ComputeStatePreview` | crates/aevum-core/src/state_root.rs:67-78 | same verdict, same error and the same root as the full path |
| `StateRoot.ErrorDetermined` | crates/aevum-core/src/state_root.rs:54-57 | an input has at most one error, payload included |
| `StateRoot.TreeRootOrderFree` | crates/aevum-core/src/state_root.rs:101-105 | any arrangement of the same entries has the same tree root, for every hash function |
| `StateRoot.TreeRootInjective` | crates/aevum-core/src/state_root.rs:101-116 | a tree root determines the multiset of entries, the empty tree included |
| `StateRoot.SameStateSameRoot` | crates/aevum-core/src/state_root.rs:50-65 | two accepted inputs with the same state, listed in any order, have the same root for every hash function |
| `StateRoot.SameRootSameState` | crates/aevum-core/src/state_root.rs:80-99 | two accepted inputs with one root have equal height, supply, DNA and oracle roots, UTXO set and spent-nullifier set |
| `StateRoot.StateRootCanonical` | crates/aevum-core/src/state_root.rs:50-99 | the root is a canonical commitment: equal if and only if the states are |
| `StateRoot.GenesisRoot` | crates/aevum-core/src/state_root.rs:45-48 | the genesis root is the root of the empty state at height 0 |
| `Settlement.FindFree` | crates/aevum-core/src/settlement.rs:122-131 | the inner loop finds the first unused key that verifies the signature |
| `Settlement.VerifyCommitteeSignatures` | crates/aevum-core/src/settlement.rs:117-133 | the nested loops answer exactly the specified predicate |
| `Settlement.AcceptedMeansEndorsed` | crates/aevum-core/src/settlement.rs:117-133 | acceptance implies at least threshold distinct committee keys matched one-to-one with verifying signatures |
| `Settlement.SignaturesExact` | crates/aevum-core/src/settlement.rs:117-133 | when no signature verifies under two committee keys, greedy matching accepts if and only if enough committee keys signed |
| `Settlement.VerifiedMeansEndorsed` | crates/aevum-core/src/settlement.rs:83-149 | a fully verified block carries signatures of at least threshold distinct committee keys on commitment and block hash |
| `Settlement.VerifyFullIff` | crates/aevum-core/src/settlement.rs:135-149 | which blocks pass: linked field by field, unchanged by finalizing, and signed by enough committee keys |
| `Settlement.ChainIsEndorsed` | crates/aevum-core/src/settlement.rs:135-149 | every block of a valid chain is endorsed by its own committee |
| `Settlement.SettlementCell.Finalize` | crates/aevum-core/src/settlement.rs:90-94 | assigns the three derived fields in order, so that the result verifies internally |
| `Settlement.VerifiedIffFinalized` | crates/aevum-core/src/settlement.rs:90-100 | a block verifies internally exactly when finalizing it changes nothing |
| `Settlement.BlockBytesDetermine` | crates/aevum-core/src/settlement.rs:67-81 | the bytes hashed for a block determine the ten fields written into them |
| `Settlement.CommitmentBytesDetermine` | crates/aevum-core/src/settlement.rs:53-65 | the bytes hashed for a commitment determine the epoch root and all counts |
| `Settlement.EpochRootDetermines` | crates/aevum-core/src/settlement.rs:41-51 | the epoch root determines the six data roots |
| `Settlement.BlockHashDetermines` | crates/aevum-core/src/settlement.rs:41-100 | the block hash commits, through the nested commitments, to every field but the signatures |
| `Settlement.EpochNumbers` | crates/aevum-core/src/settlement.rs:102-115 | block k of a valid chain has epoch id k and height k + 1 modulo 2^64, on the genesis chain id |
| `Settlement.GenesisIsNoSettlement` | crates/aevum-core/src/settlement.rs:110-115 | a genesis hash is never a settlement block's hash |
| `Settlement.AgreeBack` | crates/aevum-core/src/settlement.rs:102-108 | counting back from equal tips, blocks agree for as long as both chains last |
| `Settlement.SameTipSameChain` | crates/aevum-core/src/settlement.rs:96-149 | two chains that pass `verify_full` link by link and end in one block hash are equal block for block except for signatures, and share the genesis hash |
| `Presence.VerifyDagAcyclic` | crates/aevum-core/src/presence.rs:139-156 | the search ends on every finite map and answers false exactly when parent edges lead from the record back to itself |
| `Presence.CheckedInsertKeepsAcyclic` | crates/aevum-core/src/presence.rs:139-156 | inserting a record whose check passes afterwards closes no cycle anywhere |
| `Presence.GrownIsAcyclic` | crates/aevum-core/src/presence.rs:139-156 | a map grown through the check is acyclic, whatever records were offered |
| `Presence.AbsentRecordAlwaysPasses` | crates/aevum-core/src/presence.rs:148-152 | a record not yet in the map always passes |
| `Presence.CheckBeforeInsertMissesCycle` | crates/aevum-core/src/presence.rs:148-152 | checking before inserting misses a record that is its own parent |
| `Presence.InsertClosesCycleIff` | crates/aevum-core/src/presence.rs:138-156 | for every map and record: the inserted record lies on a cycle if and only if one of its parents already reaches it |
| `Presence.EarlyCheckRightIff` | crates/aevum-core/src/presence.rs:138-156 | for an absent record the answer before insertion is right if and only if no parent reaches the record |
| `Presence.UnnamedHashIsSafe` | crates/aevum-core/src/presence.rs:138-156 | in particular when neither the record nor any record of the map names its hash as a parent |
| `Presence.CanonicalProps` | crates/aevum-core/src/presence.rs:105-123 | sorted and deduplicated parents: ascending, no repeats, the same set |
| `Presence.CanonicalUnique` | crates/aevum-core/src/presence.rs:105-123 | the canonical list depends on the set of parents only |
| `Presence.RecordCell.Finalize` | crates/aevum-core/src/presence.rs:105-123 | a rejected record is untouched, an accepted one becomes its finalized form |
| `Presence.FinalizeExactly` | crates/aevum-core/src/presence.rs:105-127 | which records are accepted, and that an accepted one has canonical parents, the hash of its new content and nothing else changed |
| `Presence.FinalizeOrderFree` | crates/aevum-core/src/presence.rs:105-123 | records that list the same parents in any order or multiplicity finalize to one record |
| `Presence.FinalizeIdempotent` | crates/aevum-core/src/presence.rs:105-123 | finalizing twice is finalizing once |
| `Presence.RecordBytesDetermine` | crates/aevum-core/src/presence.rs:84-103 | the hashed bytes agree exactly when header and the joined list of transactions and parents agree |
| `Presence.HashFixesParentsIffSameCount` | crates/aevum-core/src/presence.rs:84-103 | equal hashes mean equal transactions and parents exactly when the transaction counts agree |
| `Presence.AcceptedRecordsShareAHash` | crates/aevum-core/src/presence.rs:84-123 | two records that finalize successfully share a hash under every hash function and have different parents |
| `Merge.PrecedesMeaning` | crates/aevum-db/src/merge.rs:21-27 | the reversed heap order is key ascending, sequence descending, source descending |
| `Merge.PrecedesOrder` | crates/aevum-db/src/merge.rs:21-27 | that order is total and transitive |
| `Merge.MergedIsPermutation` | crates/aevum-db/src/merge.rs:47-70 | the merge delivers every item once and nothing else |
| `Merge.MergedIsSorted` | crates/aevum-db/src/merge.rs:47-70 | sorted inputs merge into output sorted by key, sequence and source |
| `Merge.FirstEntryIsNewest` | crates/aevum-db/src/merge.rs:47-70 | the first entry returned for a key is the newest any source holds |
| `Merge.ErrorFreeIffOrderly` | crates/aevum-db/src/merge.rs:58-70 | the ordering error is raised if and only if some source's keys go backwards |
| `Merge.ErrorFreeRunIsMerge` | crates/aevum-db/src/merge.rs:58-70 | without an error the results are exactly the merge |
| `Merge.ReturnedKeysAscend` | crates/aevum-db/src/merge.rs:58-70 | even on unordered inputs the returned keys never go backwards |
| `Merge.AtMostOneErrorPerSource` | crates/aevum-db/src/merge.rs:58-70 | a source that raised the ordering error is never read again |
| `Merge.MergeOfSortedInputs` | crates/aevum-db/src/merge.rs:39-71 | for any number of sorted inputs: no error, sorted, a permutation of all items |
| `Merge.UsableExact` | crates/aevum-db/src/merge.rs:47-56 | what is read of an input is every item before its first error, in place |
| `Merge.InputQueuesExact` | crates/aevum-db/src/merge.rs:40-56 | the queues of a new iterator, item by item of its inputs |
| `Merge.MergingIterator.constructor` | crates/aevum-db/src/merge.rs:40-45 | a new iterator has each input's items before its first error pending |
| `Merge.MergingIterator.PushNext` | crates/aevum-db/src/merge.rs:47-56 | refills one source's place in the heap, or marks it exhausted, and touches no other source |
| `Merge.MergingIterator.PopMax` | crates/aevum-db/src/merge.rs:58-60 | removes the entry that precedes all others in the heap |
| `Merge.MergingIterator.NextEntry` | crates/aevum-db/src/merge.rs:58-70 | returns the best pending entry of all sources, the end, or the ordering error, and says what is pending afterwards |
| `Merge.MergingIterator.Drain` | crates/aevum-db/src/merge.rs:73-82 | the results of repeated calls are the specified run |
| `Merge.MergeAll` | crates/aevum-db/src/merge.rs:39-82 | end to end, on the inputs themselves: every item before its input's first error exactly once, in order, no error, and the first entry of each key newest of all inputs |
| `Wire.ParseEncoded` | crates/aevum-core/src/wire_zero_copy.rs:195-221 | a buffer that begins with an encoded transaction parses to its fields and exact length, whatever follows |
| `Wire.ParsedIsEncoded` | crates/aevum-core/src/wire_zero_copy.rs:195-221 | whatever parses begins with the encoding of a well-formed transaction |
| `Wire.ParseIffEncoded` | crates/aevum-core/src/wire_zero_copy.rs:195-221 | parsing succeeds exactly on buffers with such a prefix |
| `Wire.EncodeInjective` | crates/aevum-core/src/wire_zero_copy.rs:101-140 | the grammar is unambiguous |
| `Wire.EncodingsArePrefixFree` | crates/aevum-core/src/wire_zero_copy.rs:101-140 | no encoding is a proper prefix of another |
| `Wire.ParsedLenAtLeast` | crates/aevum-core/src/wire_zero_copy.rs:101-140 | `parsed_len` is at least 79 + 144 per input + 240 per output, and within the buffer |
| `Wire.FastFeeIsStart` | crates/aevum-core/src/wire_zero_copy.rs:270-286 | on every buffer, whether it parses or not, the fast walk and the parser's first half find the same fee or fail together |
| `Wire.FastFeeIffPrefix` | crates/aevum-core/src/wire_zero_copy.rs:270-286 | the fast walk finds fee f exactly when the buffer begins with a well-formed transaction of fee f cut anywhere after its fee |
| `Wire.FastFeeAgrees` | crates/aevum-core/src/wire_zero_copy.rs:270-286 | on a buffer that parses, the fast check is the comparison with the parsed fee |
| `Wire.FastFeeIgnoresTheRest` | crates/aevum-core/src/wire_zero_copy.rs:270-286 | bytes after the fee never change the fast check's answer |
| `Wire.IterateEncoded` | crates/aevum-core/src/wire_zero_copy.rs:244-259 | over n encoded transactions and any tail the iterator yields their n views in order and stops at the right offset |
| `Wire.Cursor.Read` | crates/aevum-core/src/wire_zero_copy.rs:48-54 | reads exactly the next n bytes or fails without moving |
| `Wire.Cursor.ReadUInt` | crates/aevum-core/src/wire_zero_copy.rs:57-75 | reads the little-endian integer at the position, within its width |
| `Wire.Cursor.Skip` | crates/aevum-core/src/wire_zero_copy.rs:93-98 | moves by n or fails without moving |
| `Wire.Cursor.SkipInputs` | crates/aevum-core/src/wire_zero_copy.rs:101-109 | ends where the specified skip of that many inputs ends |
| `Wire.Cursor.SkipOutputs` | crates/aevum-core/src/wire_zero_copy.rs:112-130 | ends where the specified skip of that many outputs ends |
| `Wire.Cursor.SkipWitnesses` | crates/aevum-core/src/wire_zero_copy.rs:133-140 | ends where the specified skip of the announced witnesses ends |
| `Wire.ParseTx` | crates/aevum-core/src/wire_zero_copy.rs:195-221 | the cursor code computes the specified parse |
| `Wire.CheckMinFee` | crates/aevum-core/src/wire_zero_copy.rs:270-286 | its own sequence of reads and skips computes the specified fast check |
| `Wire.BlockTxIter.Next` | crates/aevum-core/src/wire_zero_copy.rs:247-258 | parses at the current offset and advances by the parsed length, or ends without moving |
| `Wire.BlockTxIter.Collect` | crates/aevum-core/src/wire_zero_copy.rs:244-259 | collecting yields the specified views and final offset |
| `Wire.ReadBlock` | crates/aevum-core/src/wire_zero_copy.rs:236-259 | header, n encoded transactions and any tail: exactly the n views come out |
| `Mempool.BucketRatio` | crates/aevum-node/src/mempool.rs:100-106 | a fee in the same or a lower bucket is below twice the other fee |
| `Mempool.InsertInv` | crates/aevum-node/src/mempool.rs:122-178 | insertion keeps the four indexes, the byte total and the caps consistent |
| `Mempool.AdmissibleExactly` | crates/aevum-node/src/mempool.rs:122-151 | admitted exactly when the fee meets the floor, the transaction is not held, nothing it spends is spent by a held one, and both caps allow it |
| `Mempool.ForgetAllInv` | crates/aevum-node/src/mempool.rs:221-234 | removal keeps them consistent and removes exactly the named transactions |
| `Mempool.EvictInv` | crates/aevum-node/src/mempool.rs:236-269 | eviction keeps them consistent and removes exactly the transactions that a stale bucket entry names |
| `Mempool.EvictsReinserted` | crates/aevum-node/src/mempool.rs:236-269 | a re-admitted transaction that is not stale is evicted with its old entry |
| `MempoolBuild.OrderFacts` | crates/aevum-node/src/mempool.rs:180-189 | the pop order without ghost entries lists every live transaction once, fee buckets never rising |
| `MempoolBuild.BuildSpec` | crates/aevum-node/src/mempool.rs:180-219 | from any loop state, the loop takes the first pending entries up to the limit, or is stuck exactly when they exceed the byte budget |
| `MempoolBuild.BuildBlockExact` | crates/aevum-node/src/mempool.rs:180-219 | the call returns exactly when the chosen transactions fit; then output and new pool partition the old pool and the invariant holds |
| `MempoolBuild.BuildBlockReturns` | crates/aevum-node/src/mempool.rs:180-219 | if the live bytes fit, it returns max_tx transactions or the whole pool |
| `MempoolBuild.BuildBlockFees` | crates/aevum-node/src/mempool.rs:180-219 | any later transaction's fee is below twice any earlier one's |
| `MempoolBuild.BuildBlockConflictFree` | crates/aevum-node/src/mempool.rs:180-219 | no two transactions of a block share a nullifier or a hash |
| `MempoolBuild.StuckIffIterationRepeats` | crates/aevum-node/src/mempool.rs:185-193 | an iteration of the inner loop changes nothing if and only if the front entry is live and over the byte budget, and then the call counts as stuck |
| `MempoolBuild.IterationAdvances` | crates/aevum-node/src/mempool.rs:185-212 | any other iteration shortens its bucket and is a step of the specified loop |
| `MempoolBuild.EveryRunKeepsInv` | crates/aevum-node/src/mempool.rs:122-278 | the invariant holds after every call of every run |
| `MempoolState.MempoolInner.Insert` | crates/aevum-node/src/mempool.rs:122-178 | admits exactly the admissible transactions, with the specified new pool |
| `MempoolState.MempoolInner.BuildBlock` | crates/aevum-node/src/mempool.rs:180-219 | output, new pool and stuckness are those of the specification |
| `MempoolState.MempoolInner.RemoveTransactions` | crates/aevum-node/src/mempool.rs:221-234 | new pool as specified |
| `MempoolState.MempoolInner.EvictStale` | crates/aevum-node/src/mempool.rs:236-269 | new pool as specified, and the number of stale entries |
| `MempoolState.MempoolInner.AdjustFeeFloor` | crates/aevum-node/src/mempool.rs:271-278 | new floor as specified, never below the minimum fee |
| `Mempool.FloorMoves` | crates/aevum-node/src/mempool.rs:271-278 | congestion raises the floor by one, quiet lowers it by one, within its bounds |
| `Peers.EveryRunCounted` | crates/aevum-p2p/src/peers.rs:107-166 | under every interleaving of atomic steps each counter plus the updates still due equals the true cardinality modulo 2^64 |
| `Peers.QuiescentCountersExact` | crates/aevum-p2p/src/peers.rs:107-166 | with no call in flight both counters are exact |
| `Peers.ReachableFinish` | crates/aevum-p2p/src/peers.rs:107-166 | a call left alone from any reachable state ends as the sequential function says |
| `Peers.SequentialRunsExact` | crates/aevum-p2p/src/peers.rs:107-166 | in sequential runs per-IP counts equal the numbers of peers, with no zero entries, and both counters are exact |
| `Peers.SequentialAddrsValid` | crates/aevum-p2p/src/peers.rs:107-151 | in sequential runs an address never leads to a peer that is gone or elsewhere, and leads to a peer right after it registers |
| `Peers.OverlapLosesIpCount` | crates/aevum-p2p/src/peers.rs:153-166 | an overlapping removal and registration end with a wrong per-IP count |
| `PeersOverlap.OverlapGainsIpCount` | crates/aevum-p2p/src/peers.rs:107-166 | a removal that overtakes its registration leaves a count for an address without peers |
| `PeersOverlap.EveryRunAccounted` | crates/aevum-p2p/src/peers.rs:107-166 | under every interleaving: per-IP count plus updates due equals number of peers plus drift, the sum of what mistimed steps missed |
| `PeersOverlap.EveryRunZeroPending` | crates/aevum-p2p/src/peers.rs:153-166 | an entry at zero always has its removal pending |
| `PeersOverlap.QuiescentIpExactIff` | crates/aevum-p2p/src/peers.rs:107-166 | with no call in flight a per-IP count is right, with no zero entry, if and only if its drift is zero |
| `PeersOverlap.AloneNeverDrifts` | crates/aevum-p2p/src/peers.rs:107-166 | if no two calls that touch an address are ever in flight together, its count never drifts, however other calls interleave |
| `Peers.RegisterResult` | crates/aevum-p2p/src/peers.rs:107-137 | the net effect of all steps of a registration on every map and counter |
| `Peers.RemoveResult` | crates/aevum-p2p/src/peers.rs:139-151 | the net effect of all steps of a removal |
| `Peers.PeersManager.RegisterPeer` | crates/aevum-p2p/src/peers.rs:88-137 | the method's effect is that of its atomic steps run without interruption |
| `Peers.PeersManager.RemovePeer` | crates/aevum-p2p/src/peers.rs:139-151 | likewise |
| `Peers.PeersManager.DecrementIp` | crates/aevum-p2p/src/peers.rs:153-166 | lowers the count and drops the entry at zero |
| `Economics.SumWithinPeriod` | crates/aevum-core/src/economics.rs:24-28 | the sum of block rewards, period by period |
| `Economics.ClosedAgainstSum` | crates/aevum-core/src/economics.rs:41-47 | the closed form is exact for up to 13 full periods and exceeds the true sum by at most one unit per block of each later period |
| `Economics.UncappedAgainstSum` | crates/aevum-core/src/economics.rs:34-50 | the uncapped formula against the sum of rewards, at every height |
| `Economics.EmittedIsCappedSum` | crates/aevum-core/src/economics.rs:34-53 | for every 64-bit height, `emitted` is the capped sum of all lower block rewards |
| `Economics.CapReachedEarly` | crates/aevum-core/src/economics.rs:16-53 | the cap is reached exactly from height 37,100 on |
| `Economics.FeeSplit` | crates/aevum-core/src/economics.rs:57-62 | net fee and developer share add up to the gross fee, the share being a tenth rounded down |
| `Economics.GrossExactly` | crates/aevum-core/src/economics.rs:57-59 | the gross fee is a thousandth of the amount, at least 1, whenever the product fits |
| `Economics.CoinbaseExact` | crates/aevum-core/src/economics.rs:64-91 | nothing saturates: a coinbase is made exactly when reward plus gross fee fits under the cap, and its outputs add up to exactly that |
| `Economics.CreateCoinbase` | crates/aevum-core/src/economics.rs:64-91 | the pushes build the specified coinbase: who gets what, or which error |
| `Economics.SupplyStaysCapped` | crates/aevum-core/src/economics.rs:64-91 | over any series of `create_coinbase` calls the supply grows by the sum of all outputs made and stays within the cap |
| `L2State.CutsAreTheFee` | crates/aevum-l2/src/l2_transaction.rs:127-133 | the two cuts add up to the fee, the founder's being a tenth rounded down |
| `L2State.AmountZeroIsUnreachable` | crates/aevum-l2/src/l2_state.rs:90-95 | the zero-amount error is never returned |
| `L2State.ApplyConserves` | crates/aevum-l2/src/l2_state.rs:135-180 | an accepted transaction keeps the sum of balances, whatever accounts coincide |
| `L2State.PaysExactly` | crates/aevum-l2/src/l2_state.rs:142-160 | an accepted transaction changes each balance by exactly what the account pays and receives as sender, receiver, founder and fund |
| `L2State.EveryBalanceExplained` | crates/aevum-l2/src/l2_state.rs:72-180 | after every run each balance is its credits plus receipts minus payments over the accepted transactions |
| `L2State.FeesAddUp` | crates/aevum-l2/src/l2_state.rs:162-162 | the fee total is the fees of all accepted transactions, saturating |
| `L2State.EveryRunConserves` | crates/aevum-l2/src/l2_state.rs:72-180 | after every run the balances sum to what was credited |
| `L2State.BoundIsTight` | crates/aevum-l2/src/l2_state.rs:109-116 | at 2^64 - 1 credited units a valid transaction creates one unit |
| `L2State.ConservesIffBelow` | crates/aevum-l2/src/l2_state.rs:72-180 | all runs that credit n units conserve them if and only if n is below 2^64 - 1 |
| `L2State.EveryRunInOrder` | crates/aevum-l2/src/l2_state.rs:89-180 | each sender's accepted nonces are 0, 1, 2, ..., and accepted hashes are distinct |
| `L2State.SizesAgree` | crates/aevum-l2/src/l2_state.rs:135-180 | processed set, UTXO list and transaction count have equal size |
| `L2State.AcceptedOnce` | crates/aevum-l2/src/l2_state.rs:96-98 | an accepted transaction is refused ever after |
| `L2State.AcceptedIff` | crates/aevum-l2/src/l2_state.rs:89-131 | after any run, which transactions are accepted, in terms of signature, history and explained balance |
| `L2State.Ledger.CreditUser` | crates/aevum-l2/src/l2_state.rs:72-75 | new state as specified |
| `L2State.Ledger.ProcessTransaction` | crates/aevum-l2/src/l2_state.rs:135-180 | an accepted transaction gives the specified state and UTXO; a rejected one changes nothing |
| `L2State.Ledger.BuildContext` | crates/aevum-l2/src/l2_state.rs:89-131 | the first failing check, in source order, decides the error |
| `ChainState.AcceptedExactly` | crates/aevum-core/src/chain_state.rs:68-115 | which blocks are accepted after any history: the first genesis block, and blocks above tip and finalized height that name the tip |
| `ChainState.ReorgTooDeepIsUnreachable` | crates/aevum-core/src/chain_state.rs:76-79 | the depth error never occurs |
| `ChainState.AcceptExtends` | crates/aevum-core/src/chain_state.rs:68-123 | an accepted block extends the history by itself and writes only its own map entry |
| `ChainState.EveryRunIsLinear` | crates/aevum-core/src/chain_state.rs:68-156 | over every run the accepted blocks form one hash chain from genesis with strictly increasing heights, recorded exactly, with the last block as canonical tip |
| `ChainState.AppliedIsWriteOnce` | crates/aevum-core/src/chain_state.rs:84-87 | what was recorded at a height stays for ever |
| `ChainState.FinalityExactly` | crates/aevum-core/src/chain_state.rs:74-74 | nothing at or below the finalized height is accepted, except a first genesis block |
| `ChainState.FinalizedIsGreatest` | crates/aevum-core/src/chain_state.rs:156-156 | the finalized height after a run is the greatest height finalized in it, or 0 |
| `ChainState.AcceptedAboveFinalized` | crates/aevum-core/src/chain_state.rs:74-156 | once a height is finalized every block accepted later lies above it, a first genesis block excepted |
| `ChainState.EveryRunStoresTheLast` | crates/aevum-core/src/chain_state.rs:92-122 | after every run roots, supply, UTXO set and spent set are those the transition returned for the last accepted block, anchor and epoch those of the last checkpoint |
| `ChainState.IndexedSum` | crates/aevum-core/src/chain_state.rs:93-93 | the UTXO map built from a list with distinct nullifiers holds the list's total |
| `ChainState.EveryRunKeepsSupply` | crates/aevum-core/src/chain_state.rs:92-96 | the cached supply equals the sum over the UTXO set after every run, if the transition returns data that passes the state-root checks |
| `ChainState.SameTipSameHistory` | crates/aevum-core/src/chain_state.rs:68-107 | histories with one tip hash have one length and the same hashed content block for block |
| `ChainState.SameTipSameRecord` | crates/aevum-core/src/chain_state.rs:68-107 | nodes with one canonical tip have the same applied-blocks map |
| `ChainState.ChainStateInner.ApplyBlockChecked` | crates/aevum-core/src/chain_state.rs:68-107 | a refused block changes nothing and names the first failing check; an accepted one gives the specified state |
| `ChainState.ChainStateInner.ApplyGenesis` | crates/aevum-core/src/chain_state.rs:109-123 | likewise for genesis |
| `ChainState.ChainStateInner.FinalizeUpTo` | crates/aevum-core/src/chain_state.rs:156-156 | the finalized height never falls and nothing else changes |
| `Dht.ComputeDistance` | crates/aevum-p2p/src/dht.rs:32-36 | the loop computes the bytewise exclusive or |
| `Dht.DistanceCancel` | crates/aevum-p2p/src/dht.rs:32-36 | two ids at one distance from a target are equal |
| `Dht.WordsLeqIsNumeric` | crates/aevum-p2p/src/dht.rs:152-161 | the four-word sort key orders distances as 256-bit numbers |
| `Dht.ComputeBucketIndex` | crates/aevum-p2p/src/dht.rs:40-48 | the loop finds the specified bucket, below 256 without the clamp |
| `Dht.SameBucketIffSameHighBit` | crates/aevum-p2p/src/dht.rs:40-48 | two nodes share a bucket exactly when their distances have the same highest bit |
| `Dht.EvictsTheOldest` | crates/aevum-p2p/src/dht.rs:66-73 | a full bucket loses one least recently seen node and nothing else |
| `Dht.AddedOk` | crates/aevum-p2p/src/dht.rs:51-74 | adding keeps at most 8 nodes per bucket, distinct ids, no own id, every node in its computed bucket |
| `DhtTable.AddedExactly` | crates/aevum-p2p/src/dht.rs:51-74 | adding leaves other buckets alone, makes the node the only entry of its id, and loses no other node unless a full bucket gives up one least recently seen |
| `DhtTable.EveryRunHoldsLastOffers` | crates/aevum-p2p/src/dht.rs:51-74 | with at most 8 ids offered per bucket and no cleanup the table holds exactly the last offer of every id but our own |
| `Dht.EveryRunTableOk` | crates/aevum-p2p/src/dht.rs:51-137 | so in every reachable table, with ids unique across the whole table |
| `Dht.AllLivingMember` | crates/aevum-p2p/src/dht.rs:143-148 | the collected living nodes are exactly the living members of the buckets |
| `Dht.ClosestFacts` | crates/aevum-p2p/src/dht.rs:77-106 | exactly min(count, alive) nodes, all living members, in strictly increasing XOR distance |
| `Dht.ClosestIsAll` | crates/aevum-p2p/src/dht.rs:77-106 | all living nodes when count covers them |
| `DhtGeometry.BandOfGap` | crates/aevum-p2p/src/dht.rs:32-48 | what a bucket says of its nodes: nearer than the target's highest bit in the target's own bucket, elsewhere exactly the highest bit of their distance |
| `DhtGeometry.BandsOrder` | crates/aevum-p2p/src/dht.rs:32-48 | nodes of a lower band are strictly nearer to the target |
| `DhtGeometry.GloballyClosestIffInWindow` | crates/aevum-p2p/src/dht.rs:76-106 | the result is the list of closest living nodes of the whole table if and only if each of those nodes lies in the buckets that are read |
| `DhtGeometry.ClosestIffNoneNearer` | crates/aevum-p2p/src/dht.rs:76-106 | which is the same as leaving out no nearer node |
| `DhtGeometry.EnoughInNearBands` | crates/aevum-p2p/src/dht.rs:76-106 | a test on bucket occupancy: enough read nodes in bands below every unread one make the result globally closest |
| `DhtGeometry.TooFewInNearBands` | crates/aevum-p2p/src/dht.rs:76-106 | the opposite test: an unread node with too few read nodes up to its band makes it wrong |
| `DhtGeometry.OwnBucketSuffices` | crates/aevum-p2p/src/dht.rs:76-106 | the result is globally closest whenever the target's bucket holds count living nodes |
| `Dht.MissesTheClosest` | crates/aevum-p2p/src/dht.rs:76-106 | a reachable table of two nodes from which the farther one is returned |
| `Dht.CleanupIsInvisible` | crates/aevum-p2p/src/dht.rs:133-137 | a cleanup at the time of a search changes no search result |
| `Dht.Dht.constructor` | crates/aevum-p2p/src/dht.rs:24-29 | 256 empty buckets |
| `Dht.Dht.AddOrUpdate` | crates/aevum-p2p/src/dht.rs:51-74 | new table as specified, still valid |
| `Dht.Dht.Cleanup` | crates/aevum-p2p/src/dht.rs:133-137 | every bucket keeps its living nodes in order |
| `Dht.Dht.AliveNodes` | crates/aevum-p2p/src/dht.rs:143-148 | the bucket-by-bucket count equals the number of living nodes of the whole table, which bounds what a search returns |
| `Dht.Collect` | crates/aevum-p2p/src/dht.rs:81-101 | the left/right loop reads the smallest sufficient window of buckets, none of them twice |
| `Dht.Dht.FindClosest` | crates/aevum-p2p/src/dht.rs:77-106 | returns the specified nearest nodes of that window |
| `Escrow.EveryHistoryOfShares` | crates/aevum-core/src/escrow.rs:50-56 | after any history every miner has one entry holding the sum of the shares given |
| `Escrow.FeesWithin` | crates/aevum-core/src/escrow.rs:66-69 | with percentages up to 10000 no subtraction underflows, even when products wrap |
| `Escrow.RatesExact` | crates/aevum-core/src/escrow.rs:66-68 | pool fee and bonus are their percentages of reward and remainder, rounded down, when the products fit |
| `Escrow.PayoutsExact` | crates/aevum-core/src/escrow.rs:63-89 | what each key gets: miner's part, bonus if winner, dust if customer; and the total is what remained |
| `Escrow.ConservedIff` | crates/aevum-core/src/escrow.rs:63-89 | payouts plus pool fee equal the reward exactly when somebody holds a share or nothing remains |
| `Escrow.MinerGetsProRata` | crates/aevum-core/src/escrow.rs:72-84 | every miner gets the floor of the pro-rata base, plus the bonus only if winner |
| `Escrow.DustBelowMiners` | crates/aevum-core/src/escrow.rs:85-87 | the customer's dust is smaller than the number of miners |
| `Escrow.EscrowContract.AddShare` | crates/aevum-core/src/escrow.rs:50-56 | adds to the miner's entry or appends one |
| `Escrow.EscrowContract.SetWinner` | crates/aevum-core/src/escrow.rs:58-61 | records the winner and completes the contract |
| `Escrow.EscrowContract.DistributeReward` | crates/aevum-core/src/escrow.rs:63-89 | the loops compute the specified payouts |
| `Escrow.EscrowContract.Refund` | crates/aevum-core/src/escrow.rs:91-95 | the customer gets back everything but the pool fee |
| `Escrow.SumAmounts` | crates/aevum-core/src/escrow.rs:70-70 | the wrapping sum, exact when it fits |
| `Trust.RootBytesDetermine` | crates/aevum-consensus/src/trust.rs:76-83 | the hashed bytes determine version, epoch and the delegate set |
| `Trust.RootCommits` | crates/aevum-consensus/src/trust.rs:76-146 | models with verifying equal roots have the same version, epoch and delegates |
| `Trust.EveryRunVerifies` | crates/aevum-consensus/src/trust.rs:61-136 | in every run from genesis the stored root verifies and the delegates stay within the limit |
| `Trust.DelegateExactly` | crates/aevum-consensus/src/trust.rs:90-113 | without the genesis key a delegate is added exactly by a quorum of delegates |
| `Trust.GenesisDelegates` | crates/aevum-consensus/src/trust.rs:90-101 | the genesis key adds anybody who is no delegate yet, as long as there is room |
| `Trust.StepsChangeExactly` | crates/aevum-consensus/src/trust.rs:90-136 | what each step changes in delegates and epoch |
| `Trust.RevokedStaysOut` | crates/aevum-consensus/src/trust.rs:115-119 | a revoked key stays out until a call adds it again |
| `Trust.QuorumExactly` | crates/aevum-consensus/src/trust.rs:68-74 | two thirds of the delegates rounded down, between 3 and 9 |
| `Trust.NoGrowthBelowThree` | crates/aevum-consensus/src/trust.rs:70-136 | with fewer than three delegates no sequence of non-genesis steps adds one |
| `Trust.QuorumsOverlap` | crates/aevum-consensus/src/trust.rs:70-113 | two accepted calls against at most 17 delegates share a voter |
| `Trust.OverlapIffAtMost17` | crates/aevum-consensus/src/trust.rs:70-113 | two calls can pass with disjoint voters exactly from 18 delegates on |
| `Trust.QuorumAlsoAdmits` | crates/aevum-consensus/src/trust.rs:121-131 | voters who can add a delegate can also vouch for the candidate's joining |
| `Trust.JoinExactly` | crates/aevum-consensus/src/trust.rs:121-131 | exactly who may join |
| `Trust.TrustModel.constructor` | crates/aevum-consensus/src/trust.rs:46-66 | the genesis model with its root |
| `Trust.TrustModel.RecomputeTrustRoot` | crates/aevum-consensus/src/trust.rs:76-83 | the root of the current fields, nothing else changed |
| `Trust.TrustModel.Delegate` | crates/aevum-consensus/src/trust.rs:90-113 | first failing check as error with no change, or the delegate added and the root renewed |
| `Trust.TrustModel.Revoke` | crates/aevum-consensus/src/trust.rs:115-119 | removes a present delegate and renews the root |
| `Trust.TrustModel.AdvanceEpoch` | crates/aevum-consensus/src/trust.rs:133-136 | saturating epoch increment and a new root |
| `Trust.TrustModel.CheckRoot` | crates/aevum-consensus/src/trust.rs:138-146 | true exactly when the stored root is the root of the fields |
| `Trust.TrustModel.CanJoin` | crates/aevum-consensus/src/trust.rs:121-131 | the first failing check decides the error |
| `Bloom.SetBitBits` | crates/aevum-db/src/bloom.rs:62-62 | setting bit k changes bit k and no other |
| `Bloom.OnesDetermine` | crates/aevum-db/src/bloom.rs:17-21 | the set of one bits determines the words |
| `Bloom.AddedBitsOnes` | crates/aevum-db/src/bloom.rs:55-65 | an add turns on exactly the key's mask |
| `Bloom.MaskIsFull` | crates/aevum-db/src/bloom.rs:148-164 | the second hash being odd, a key's bits are all different when the number of bits is a power of two |
| `Bloom.AddsAreUnion` | crates/aevum-db/src/bloom.rs:55-65 | after any adds the bits are the union of the masks with what was there |
| `Bloom.AddOrderFree` | crates/aevum-db/src/bloom.rs:55-65 | neither order nor repetition of adds matters |
| `Bloom.MayContainIffCovered` | crates/aevum-db/src/bloom.rs:69-81 | a key is reported present exactly when its mask is set |
| `Bloom.PresentIffCovered` | crates/aevum-db/src/bloom.rs:55-81 | on an initially empty filter, exactly when the added keys' masks cover it |
| `Bloom.AddedIsPresent` | crates/aevum-db/src/bloom.rs:55-81 | no false negatives |
| `Bloom.RoundTrip` | crates/aevum-db/src/bloom.rs:104-142 | saving and loading restores bits and hash count of every well-formed filter |
| `Bloom.LoadsExactly` | crates/aevum-db/src/bloom.rs:115-142 | which byte strings load, that the result is well formed, and when saving it gives the same bytes back |
| `Bloom.EveryRunWellFormed` | crates/aevum-db/src/bloom.rs:29-142 | every reachable filter is well formed, so the round trip applies to it |
| `Bloom.EveryRunRemembers` | crates/aevum-db/src/bloom.rs:29-142 | through any adds, saves and loads an added key stays present |
| `Bloom.BloomFilter.Add` | crates/aevum-db/src/bloom.rs:55-65 | new bits and count as specified |
| `Bloom.BloomFilter.Contains` | crates/aevum-db/src/bloom.rs:69-81 | the loop answers the specified predicate |
| `Bloom.BloomFilter.Save` | crates/aevum-db/src/bloom.rs:104-111 | the specified bytes, which load back |
| `Bloom.Load` | crates/aevum-db/src/bloom.rs:115-142 | the loop computes the specified result, including every refusal |

## Left out

- `state_transition.rs`, `jt_utxo.rs`, `dna.rs`, `smt.rs` and `emission.rs` are not part of this model: the transition, `consensus_bytes` and the epoch length are parameters.
- `apply_presence_record` (crates/aevum-core/src/chain_state.rs:132-154): it skips the height and duplicate checks, so the linear-history results are about the checked path only.
- `preview_block` and the getters of `ChainState`; the result record of `apply_block_checked` repeats fields of the new state.
- BLAKE3, signature schemes, key parsing and zero-knowledge proofs.
- Overflow checks of debug builds: where the source uses plain operators the wrapped value is modelled.
- `MempoolState.MempoolInner.BuildBlock`: a call that would never return is modelled by the result `stuck`, since a Dafny method terminates; the statistics counters of the pool are not modelled.
- `Merge.MergingIterator.PopMax`: the binary heap is a sequence whose maximum is taken; the sift operations of the library heap are not modelled.
- `Peers`: an update of the outbound counter that the source skips for inbound peers appears as adding zero; `can_accept`, rate limits and peer storage are left out.
- `BloomFilter::new`: its floating-point number of hashes is an argument, clamped to 1..32 as in the source; false-positive rates are not modelled.
- `random_nodes`, `refresh_targets` and `random_peers`: randomised, with no functional specification.
- `EscrowContract::new`: the contract id (a hash) and the task id are not kept in the model.
- `MAINNET_GENESIS_BOOTSTRAP` is a parameter: the trust results hold for every genesis key.
- `inherit_dna` of L2 transactions: its result depends on the order of its inputs.
- `wire.rs` (serde decoding) uses another wire version; nothing is claimed about its agreement with the zero-copy decoder.
- `BlockView::parse` and the size checks of `FastValidator`: fixed-offset reads and single comparisons.
- HTTP handlers, configuration, error display, namespaces, address policies and consensus specification files: plumbing or single-branch code.
