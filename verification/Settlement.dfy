/** crates/aevum-core/src/settlement.rs: epoch settlement blocks and the hash chain they form. */
module Settlement {
  import opened Integers
  import opened Collections
  import opened Bytes
  import Merkle

  type Signature = Bytes

  /** `PublicKey::from_bytes(pk)` succeeds and the key verifies the signature on the message. */
  type Verifier = (Hash, Bytes, Signature) -> bool

  datatype SettlementBlock = SettlementBlock(
    totalFees: u64, totalRewards: u64, version: u32, chainId: u32, epochId: u64, height: u64,
    previousSettlementHash: Hash, timestamp: u64,
    epochDurationSecs: u64, epochStartTime: u64, epochEndTime: u64,
    presenceRoot: Hash, transactionRoot: Hash, stateRoot: Hash,
    rewardRoot: Hash, participantRoot: Hash, epochSnapshotRoot: Hash,
    presenceRecordCount: u64, transactionCount: u64, participantCount: u64,
    epochRoot: Hash, epochCommitment: Hash, totalSupply: u64, blockHash: Hash,
    committeeSignatures: seq<Signature>)

  /** The genesis block, with its transactions reduced to their hashes. */
  datatype GenesisBlock = GenesisBlock(
    version: u32, chainId: u32, height: u64, timestamp: u64, txHashes: seq<Hash>,
    stateRoot: Hash, totalSupply: u64, blockHash: Hash)

  const NODE: Bytes := Tag("AEVUM_MERKLE_V1")
  const COMMITMENT: Bytes := Tag("AEVUM_EPOCH_COMMITMENT_V1")
  const SETTLEMENT: Bytes := Tag("AEVUM_SETTLEMENT_V2")
  const GENESIS: Bytes := Tag("AEVUM_GENESIS_V1")

  // ---------- what is hashed ----------

  function DataRoots(b: SettlementBlock): (r: seq<Hash>)
    ensures |r| == 6
  {
    [b.presenceRoot, b.transactionRoot, b.stateRoot, b.rewardRoot, b.participantRoot, b.epochSnapshotRoot]
  }

  function EpochRoot(H: Hasher, b: SettlementBlock): Hash {
    Merkle.Root(H, NODE, DataRoots(b))
  }

  function CommitmentParts(b: SettlementBlock): seq<Bytes> {
    [COMMITMENT, LE(b.epochId, 8), b.epochRoot, LE(b.presenceRecordCount, 8), LE(b.transactionCount, 8),
     LE(b.participantCount, 8), LE(b.totalFees, 8), LE(b.totalRewards, 8), LE(b.totalSupply, 8)]
  }

  function Commitment(H: Hasher, b: SettlementBlock): Hash { H(Concat(CommitmentParts(b))) }

  function BlockParts(b: SettlementBlock): seq<Bytes> {
    [SETTLEMENT, LE(b.version, 4), LE(b.chainId, 4), LE(b.epochId, 8), LE(b.height, 8),
     b.previousSettlementHash, LE(b.timestamp, 8), LE(b.epochDurationSecs, 8),
     LE(b.epochStartTime, 8), LE(b.epochEndTime, 8), b.epochCommitment]
  }

  function BlockHash(H: Hasher, b: SettlementBlock): Hash { H(Concat(BlockParts(b))) }

  function GenesisBytes(g: GenesisBlock): Bytes {
    GENESIS + (LE(g.version, 4) + LE(g.chainId, 4) + LE(g.height, 8) + LE(g.timestamp, 8)
               + Concat(g.txHashes) + g.stateRoot + LE(g.totalSupply, 8))
  }

  /** Every byte string hashed to verify one block. */
  ghost function BlockHashed(H: Hasher, b: SettlementBlock): set<Bytes> {
    {Concat(BlockParts(b)), Concat(CommitmentParts(b))} + Merkle.TreeBytes(H, NODE, DataRoots(b))
  }

  function SigningMessage(b: SettlementBlock): Bytes { b.epochCommitment + b.blockHash }

  // ---------- verification ----------

  predicate VerifyInternal(H: Hasher, b: SettlementBlock) {
    b.blockHash == BlockHash(H, b) && b.epochRoot == EpochRoot(H, b) && b.epochCommitment == Commitment(H, b)
  }

  /** u64 addition wraps, as it does without overflow checks. */
  function Succ(x: u64): u64 { (x + 1) % U64 }

  predicate VerifyChain(b: SettlementBlock, prev: SettlementBlock) {
    && b.previousSettlementHash == prev.blockHash
    && b.epochId == Succ(prev.epochId)
    && b.height == Succ(prev.height)
    && b.chainId == prev.chainId
    && b.version == prev.version
  }

  predicate VerifyGenesisLink(b: SettlementBlock, g: GenesisBlock) {
    b.epochId == 0 && b.height == 1 && b.previousSettlementHash == g.blockHash && b.chainId == g.chainId
  }

  /** The keys matched by the double loop, in the order in which signatures claimed them. */
  function Matched(V: Verifier, msg: Bytes, sigs: seq<Signature>, keys: seq<Hash>, threshold: nat): seq<Hash> {
    if sigs == [] then []
    else
      var before := Matched(V, msg, sigs[..|sigs| - 1], keys, threshold);
      if |before| >= threshold then before
      else before + FirstFree(V, msg, sigs[|sigs| - 1], keys, before)
  }

  /** The first key not yet used that verifies the signature, if any. */
  function FirstFree(V: Verifier, msg: Bytes, sig: Signature, keys: seq<Hash>, used: seq<Hash>): (r: seq<Hash>)
    ensures |r| <= 1
    ensures r != [] ==> r[0] in keys && r[0] !in used && V(r[0], msg, sig)
    ensures r == [] ==> forall k :: k in keys && k !in used ==> !V(k, msg, sig)
  {
    if keys == [] then []
    else if keys[0] !in used && V(keys[0], msg, sig) then [keys[0]]
    else FirstFree(V, msg, sig, keys[1..], used)
  }

  predicate SignaturesPass(V: Verifier, msg: Bytes, sigs: seq<Signature>, keys: seq<Hash>, threshold: nat) {
    && 0 < threshold <= |keys|
    && |sigs| <= |keys|
    && |Matched(V, msg, sigs, keys, threshold)| >= threshold
  }

  predicate VerifyFull(H: Hasher, V: Verifier, b: SettlementBlock, prev: Option<SettlementBlock>,
                       genesis: Option<GenesisBlock>, keys: seq<Hash>, threshold: nat) {
    && VerifyInternal(H, b)
    && (match prev
        case Some(p) => VerifyChain(b, p)
        case None => genesis.Some? && VerifyGenesisLink(b, genesis.value))
    && SignaturesPass(V, SigningMessage(b), b.committeeSignatures, keys, threshold)
  }

  /** The inner loop over the committee keys. */
  method FindFree(V: Verifier, msg: Bytes, sig: Signature, keys: seq<Hash>, used: set<Hash>, ghost matched: seq<Hash>)
      returns (free: Option<Hash>)
    requires used == Elements(matched)
    ensures FirstFree(V, msg, sig, keys, matched) == if free.Some? then [free.value] else []
  {
    for j := 0 to |keys|
      invariant FirstFree(V, msg, sig, keys, matched) == FirstFree(V, msg, sig, keys[j..], matched)
    {
      if keys[j] in used { continue; }
      if V(keys[j], msg, sig) {
        return Some(keys[j]);
      }
    }
    return None;
  }

  /** The `used` / `valid` loops of `verify_committee_signatures`. */
  method VerifyCommitteeSignatures(V: Verifier, b: SettlementBlock, keys: seq<Hash>, threshold: nat) returns (ok: bool)
    ensures ok == SignaturesPass(V, SigningMessage(b), b.committeeSignatures, keys, threshold)
  {
    hide Matched, FirstFree, Elements;
    var sigs, msg := b.committeeSignatures, SigningMessage(b);
    if threshold == 0 || threshold > |keys| {
      return false;
    }
    if |sigs| > |keys| {
      return false;
    }
    var used: set<Hash> := {};
    var valid := 0;
    var i := 0;
    ghost var matched: seq<Hash> := [];
    MatchedStarts(V, msg, sigs, keys, threshold);
    while i < |sigs| && valid < threshold
      invariant 0 <= i <= |sigs|
      invariant matched == Matched(V, msg, sigs[..i], keys, threshold)
      invariant valid == |matched| && used == Elements(matched)
    {
      var free := FindFree(V, msg, sigs[i], keys, used, matched);
      MatchedStep(V, msg, sigs, keys, threshold, i);
      if free.Some? {
        ElementsPush(matched, free.value);
        used := used + {free.value};
        valid := valid + 1;
        matched := matched + [free.value];
      }
      i := i + 1;
    }
    if i < |sigs| {
      MatchedStops(V, msg, sigs, keys, threshold, i);
    }
    assert sigs[..|sigs|] == sigs;
    return valid >= threshold;
  }

  lemma MatchedStarts(V: Verifier, msg: Bytes, sigs: seq<Signature>, keys: seq<Hash>, threshold: nat)
    ensures Matched(V, msg, sigs[..0], keys, threshold) == [] && Elements<Hash>([]) == {}
  {
  }

  lemma MatchedStep(V: Verifier, msg: Bytes, sigs: seq<Signature>, keys: seq<Hash>, threshold: nat, i: nat)
    requires i < |sigs|
    ensures var before := Matched(V, msg, sigs[..i], keys, threshold);
            Matched(V, msg, sigs[..i + 1], keys, threshold)
            == if |before| >= threshold then before else before + FirstFree(V, msg, sigs[i], keys, before)
  {
    assert sigs[..i + 1][..i] == sigs[..i];
  }

  lemma ElementsPush(s: seq<Hash>, x: Hash)
    ensures Elements(s + [x]) == Elements(s) + {x}
  {
  }

  /** Once the threshold is met later signatures are not looked at. */
  lemma {:induction false} MatchedStops(
      V: Verifier, msg: Bytes, sigs: seq<Signature>, keys: seq<Hash>, threshold: nat, i: nat)
    requires i <= |sigs| && |Matched(V, msg, sigs[..i], keys, threshold)| >= threshold
    ensures Matched(V, msg, sigs, keys, threshold) == Matched(V, msg, sigs[..i], keys, threshold)
  {
    if i == |sigs| {
      assert sigs[..i] == sigs;
    } else {
      var shorter := sigs[..|sigs| - 1];
      assert shorter[..i] == sigs[..i];
      MatchedStops(V, msg, shorter, keys, threshold, i);
    }
  }

  // ---------- committee signatures ----------

  /** `keys` distinct committee members, the i-th of them verified by signature number `pos[i]`,
      no signature being used twice. */
  ghost predicate Endorses(V: Verifier, msg: Bytes, sigs: seq<Signature>, committee: seq<Hash>,
                           keys: seq<Hash>, pos: seq<nat>) {
    && |keys| == |pos| && Distinct(keys)
    && (forall i, j :: 0 <= i < j < |pos| ==> pos[i] < pos[j])
    && (forall i :: 0 <= i < |pos| ==> pos[i] < |sigs| && keys[i] in committee && V(keys[i], msg, sigs[pos[i]]))
  }

  lemma {:induction false} MatchedEndorses(
      V: Verifier, msg: Bytes, sigs: seq<Signature>, committee: seq<Hash>, threshold: nat)
      returns (pos: seq<nat>)
    ensures Endorses(V, msg, sigs, committee, Matched(V, msg, sigs, committee, threshold), pos)
  {
    if sigs == [] {
      pos := [];
    } else {
      hide Endorses, FirstFree;
      var n := |sigs| - 1;
      pos := MatchedEndorses(V, msg, sigs[..n], committee, threshold);
      var before := Matched(V, msg, sigs[..n], committee, threshold);
      var free := FirstFree(V, msg, sigs[n], committee, before);
      EndorsesMore(V, msg, sigs, committee, before, pos, free);
      if |before| < threshold && free != [] {
        pos := pos + [n];
      }
    }
  }

  lemma EndorsesMore(V: Verifier, msg: Bytes, sigs: seq<Signature>, committee: seq<Hash>,
                     keys: seq<Hash>, pos: seq<nat>, free: seq<Hash>)
    requires sigs != [] && Endorses(V, msg, sigs[..|sigs| - 1], committee, keys, pos)
    ensures Endorses(V, msg, sigs, committee, keys, pos)
    ensures (|free| == 1 && free[0] in committee && free[0] !in keys && V(free[0], msg, sigs[|sigs| - 1]))
            ==> Endorses(V, msg, sigs, committee, keys + free, pos + [|sigs| - 1])
    ensures free == [] ==> Endorses(V, msg, sigs, committee, keys + free, pos)
  {
    assert free == [] ==> keys + free == keys;
  }

  /** Soundness: an accepted block carries at least `threshold` distinct committee keys, matched
      one-to-one with signatures that verify under them. */
  lemma AcceptedMeansEndorsed(V: Verifier, msg: Bytes, sigs: seq<Signature>, committee: seq<Hash>, threshold: nat)
    requires SignaturesPass(V, msg, sigs, committee, threshold)
    ensures exists keys, pos :: Endorses(V, msg, sigs, committee, keys, pos) && |keys| >= threshold
  {
    var pos := MatchedEndorses(V, msg, sigs, committee, threshold);
  }

  ghost function SigningKeys(V: Verifier, msg: Bytes, sigs: seq<Signature>, committee: seq<Hash>): set<Hash> {
    set k | k in committee && exists s :: s in sigs && V(k, msg, s)
  }

  ghost predicate OneKeyPerSignature(V: Verifier, msg: Bytes, sigs: seq<Signature>, committee: seq<Hash>) {
    forall s, k, k' :: s in sigs && k in committee && k' in committee && V(k, msg, s) && V(k', msg, s) ==> k == k'
  }

  /** When no signature verifies under two committee keys, matching greedily loses nothing. */
  lemma {:induction false} MatchedIsComplete(
      V: Verifier, msg: Bytes, sigs: seq<Signature>, committee: seq<Hash>, threshold: nat)
    requires OneKeyPerSignature(V, msg, sigs, committee)
    ensures var m := Matched(V, msg, sigs, committee, threshold);
            |m| < threshold ==> SigningKeys(V, msg, sigs, committee) == Elements(m)
  {
    if sigs != [] {
      var n := |sigs| - 1;
      var init, last := sigs[..n], sigs[n];
      assert sigs == init + [last];
      MatchedIsComplete(V, msg, init, committee, threshold);
      var before := Matched(V, msg, init, committee, threshold);
      if |Matched(V, msg, sigs, committee, threshold)| < threshold {
        SigningKeysStep(V, msg, init, last, committee, before);
      }
    }
  }

  lemma SigningKeysStep(
      V: Verifier, msg: Bytes, init: seq<Signature>, last: Signature, committee: seq<Hash>, before: seq<Hash>)
    requires OneKeyPerSignature(V, msg, init + [last], committee)
    requires SigningKeys(V, msg, init, committee) == Elements(before)
    ensures SigningKeys(V, msg, init + [last], committee)
         == Elements(before + FirstFree(V, msg, last, committee, before))
  {
    var free := FirstFree(V, msg, last, committee, before);
    assert last in init + [last];
    forall k ensures k in SigningKeys(V, msg, init + [last], committee) <==> k in Elements(before + free) {
      if k in SigningKeys(V, msg, init + [last], committee) {
        var s :| s in init + [last] && V(k, msg, s);
        if s in init {
          assert k in SigningKeys(V, msg, init, committee);
        } else {
          assert s == last;
        }
      }
      if k in before {
        assert k in SigningKeys(V, msg, init, committee);
        var s :| s in init && V(k, msg, s);
        assert s in init + [last];
      }
    }
  }

  /** Exactness: with one key per signature, the check passes if and only if the counts are in
      order and at least `threshold` committee keys signed. */
  lemma SignaturesExact(V: Verifier, msg: Bytes, sigs: seq<Signature>, committee: seq<Hash>, threshold: nat)
    requires OneKeyPerSignature(V, msg, sigs, committee)
    ensures SignaturesPass(V, msg, sigs, committee, threshold) <==>
            0 < threshold <= |committee| && |sigs| <= |committee|
            && |SigningKeys(V, msg, sigs, committee)| >= threshold
  {
    var m := Matched(V, msg, sigs, committee, threshold);
    var pos := MatchedEndorses(V, msg, sigs, committee, threshold);
    DistinctCardinality(m);
    MatchedIsComplete(V, msg, sigs, committee, threshold);
    forall k | k in Elements(m) ensures k in SigningKeys(V, msg, sigs, committee) {
      var i :| 0 <= i < |m| && m[i] == k;
      assert V(k, msg, sigs[pos[i]]) && sigs[pos[i]] in sigs;
    }
    SubsetSize(Elements(m), SigningKeys(V, msg, sigs, committee));
  }

  /** A fully verified block carries signatures of at least `threshold` distinct committee keys, each
      verifying under its key on the commitment followed by the block hash. */
  lemma VerifiedMeansEndorsed(H: Hasher, V: Verifier, b: SettlementBlock, prev: Option<SettlementBlock>,
                              genesis: Option<GenesisBlock>, keys: seq<Hash>, threshold: nat)
    requires VerifyFull(H, V, b, prev, genesis, keys, threshold)
    ensures threshold > 0
    ensures exists endorsers, pos :: |endorsers| >= threshold
              && Endorses(V, b.epochCommitment + b.blockHash, b.committeeSignatures, keys, endorsers, pos)
  {
    AcceptedMeansEndorsed(V, SigningMessage(b), b.committeeSignatures, keys, threshold);
  }

  /** What `verify_full` asks of a block's place in the chain. */
  ghost predicate Linked(b: SettlementBlock, prev: Option<SettlementBlock>, genesis: Option<GenesisBlock>) {
    if prev.Some? then
      && b.previousSettlementHash == prev.value.blockHash
      && b.epochId == (prev.value.epochId + 1) % U64 && b.height == (prev.value.height + 1) % U64
      && b.chainId == prev.value.chainId && b.version == prev.value.version
    else
      && genesis.Some? && b.previousSettlementHash == genesis.value.blockHash
      && b.epochId == 0 && b.height == 1 && b.chainId == genesis.value.chainId
  }

  /** Which blocks pass: those that are linked, that finalizing would not change, and that enough
      committee keys have signed. */
  lemma VerifyFullIff(H: Hasher, V: Verifier, b: SettlementBlock, prev: Option<SettlementBlock>,
                      genesis: Option<GenesisBlock>, keys: seq<Hash>, threshold: nat)
    requires OneKeyPerSignature(V, b.epochCommitment + b.blockHash, b.committeeSignatures, keys)
    ensures VerifyFull(H, V, b, prev, genesis, keys, threshold) <==>
            && Linked(b, prev, genesis) && Finalized(H, b) == b
            && 0 < threshold <= |keys| && |b.committeeSignatures| <= |keys|
            && |SigningKeys(V, b.epochCommitment + b.blockHash, b.committeeSignatures, keys)| >= threshold
  {
    hide SignaturesPass, Finalized, VerifyInternal, SigningKeys;
    SignaturesExact(V, SigningMessage(b), b.committeeSignatures, keys, threshold);
    VerifiedIffFinalized(H, b);
  }

  // ---------- finalize ----------

  function Finalized(H: Hasher, b: SettlementBlock): SettlementBlock {
    var b1 := b.(epochRoot := EpochRoot(H, b));
    var b2 := b1.(epochCommitment := Commitment(H, b1));
    b2.(blockHash := BlockHash(H, b2))
  }

  class SettlementCell {
    var block: SettlementBlock

    constructor (b: SettlementBlock)
      ensures block == b
    {
      block := b;
    }

    /** The three derived fields, each computed from the ones assigned before it. */
    method Finalize(H: Hasher)
      modifies this
      ensures block == Finalized(H, old(block))
      ensures VerifyInternal(H, block)
    {
      block := block.(epochRoot := EpochRoot(H, block));
      block := block.(epochCommitment := Commitment(H, block));
      block := block.(blockHash := BlockHash(H, block));
    }
  }

  /** A block verifies internally exactly when finalizing it would change nothing. */
  lemma VerifiedIffFinalized(H: Hasher, b: SettlementBlock)
    ensures VerifyInternal(H, Finalized(H, b))
    ensures VerifyInternal(H, b) <==> Finalized(H, b) == b
  {
  }

  // ---------- the chain ----------

  ghost predicate SameExceptSignatures(a: SettlementBlock, b: SettlementBlock) {
    a.(committeeSignatures := b.committeeSignatures) == b
  }

  lemma BlockBytesDetermine(a: SettlementBlock, b: SettlementBlock)
    requires Concat(BlockParts(a)) == Concat(BlockParts(b))
    ensures a.version == b.version && a.chainId == b.chainId && a.epochId == b.epochId && a.height == b.height
    ensures a.previousSettlementHash == b.previousSettlementHash && a.timestamp == b.timestamp
    ensures a.epochDurationSecs == b.epochDurationSecs
    ensures a.epochStartTime == b.epochStartTime && a.epochEndTime == b.epochEndTime
    ensures a.epochCommitment == b.epochCommitment
  {
    var p, q := BlockParts(a), BlockParts(b);
    ConcatInjective(p, q);
    assert p[1] == q[1] && p[2] == q[2] && p[3] == q[3] && p[4] == q[4] && p[5] == q[5];
    assert p[6] == q[6] && p[7] == q[7] && p[8] == q[8] && p[9] == q[9] && p[10] == q[10];
    U32LEInjective(a.version, b.version);
    U32LEInjective(a.chainId, b.chainId);
    U64LEInjective(a.epochId, b.epochId);
    U64LEInjective(a.height, b.height);
    U64LEInjective(a.timestamp, b.timestamp);
    U64LEInjective(a.epochDurationSecs, b.epochDurationSecs);
    U64LEInjective(a.epochStartTime, b.epochStartTime);
    U64LEInjective(a.epochEndTime, b.epochEndTime);
  }

  lemma CommitmentBytesDetermine(a: SettlementBlock, b: SettlementBlock)
    requires Concat(CommitmentParts(a)) == Concat(CommitmentParts(b))
    ensures a.epochRoot == b.epochRoot && a.presenceRecordCount == b.presenceRecordCount
    ensures a.transactionCount == b.transactionCount && a.participantCount == b.participantCount
    ensures a.totalFees == b.totalFees && a.totalRewards == b.totalRewards && a.totalSupply == b.totalSupply
  {
    var p, q := CommitmentParts(a), CommitmentParts(b);
    ConcatInjective(p, q);
    assert p[2] == q[2] && p[3] == q[3] && p[4] == q[4] && p[5] == q[5];
    assert p[6] == q[6] && p[7] == q[7] && p[8] == q[8];
    U64LEInjective(a.presenceRecordCount, b.presenceRecordCount);
    U64LEInjective(a.transactionCount, b.transactionCount);
    U64LEInjective(a.participantCount, b.participantCount);
    U64LEInjective(a.totalFees, b.totalFees);
    U64LEInjective(a.totalRewards, b.totalRewards);
    U64LEInjective(a.totalSupply, b.totalSupply);
  }

  lemma EpochRootDetermines(H: Hasher, a: SettlementBlock, b: SettlementBlock, hashed: set<Bytes>)
    requires CollisionFree(H, hashed) && BlockHashed(H, a) <= hashed && BlockHashed(H, b) <= hashed
    requires EpochRoot(H, a) == EpochRoot(H, b)
    ensures a.presenceRoot == b.presenceRoot && a.transactionRoot == b.transactionRoot
    ensures a.stateRoot == b.stateRoot && a.rewardRoot == b.rewardRoot
    ensures a.participantRoot == b.participantRoot && a.epochSnapshotRoot == b.epochSnapshotRoot
  {
    var p, q := DataRoots(a), DataRoots(b);
    Merkle.RootInjectiveSameLength(H, NODE, p, q, hashed);
    assert p[0] == q[0] && p[1] == q[1] && p[2] == q[2] && p[3] == q[3] && p[4] == q[4] && p[5] == q[5];
  }

  /** The block hash commits to every field except the signatures. */
  lemma BlockHashDetermines(H: Hasher, a: SettlementBlock, b: SettlementBlock, hashed: set<Bytes>)
    requires CollisionFree(H, hashed) && BlockHashed(H, a) <= hashed && BlockHashed(H, b) <= hashed
    requires VerifyInternal(H, a) && VerifyInternal(H, b) && a.blockHash == b.blockHash
    ensures SameExceptSignatures(a, b)
  {
    SameHash(H, hashed, Concat(BlockParts(a)), Concat(BlockParts(b)));
    BlockBytesDetermine(a, b);
    SameHash(H, hashed, Concat(CommitmentParts(a)), Concat(CommitmentParts(b)));
    CommitmentBytesDetermine(a, b);
    EpochRootDetermines(H, a, b, hashed);
  }

  /** Committee and threshold in force when a block was verified. */
  datatype Quorum = Quorum(keys: seq<Hash>, threshold: nat)

  /** Each block passes `verify_full` against the one before it, the first against genesis. */
  ghost predicate ValidChain(
      H: Hasher, V: Verifier, chain: seq<SettlementBlock>, g: GenesisBlock, quorums: seq<Quorum>) {
    && chain != [] && |quorums| == |chain|
    && forall i :: 0 <= i < |chain| ==> ValidAt(H, V, chain, g, quorums, i)
  }

  ghost predicate ValidAt(
      H: Hasher, V: Verifier, chain: seq<SettlementBlock>, g: GenesisBlock, quorums: seq<Quorum>, i: nat)
    requires i < |chain| == |quorums|
  {
    VerifyFull(H, V, chain[i], if i == 0 then None else Some(chain[i - 1]), Some(g),
               quorums[i].keys, quorums[i].threshold)
  }

  /** Block k of a valid chain has epoch id k and height k + 1 (as u64), on the genesis chain id. */
  lemma {:induction false} EpochNumbers(H: Hasher, V: Verifier, chain: seq<SettlementBlock>, g: GenesisBlock,
                                        quorums: seq<Quorum>, k: nat)
    requires ValidChain(H, V, chain, g, quorums) && k < |chain|
    ensures chain[k].epochId == k % U64
    ensures chain[k].height == (k + 1) % U64
    ensures chain[k].chainId == g.chainId && chain[k].version == chain[0].version
  {
    assert ValidAt(H, V, chain, g, quorums, k);
    if k > 0 {
      EpochNumbers(H, V, chain, g, quorums, k - 1);
      WrapStep(k - 1);
      WrapStep(k);
    }
  }

  lemma WrapStep(k: nat)
    ensures (k % U64 + 1) % U64 == (k + 1) % U64
  {
  }

  /** Every block of a valid chain is endorsed by its own committee. */
  lemma ChainIsEndorsed(H: Hasher, V: Verifier, chain: seq<SettlementBlock>, g: GenesisBlock,
                        quorums: seq<Quorum>, k: nat)
    requires ValidChain(H, V, chain, g, quorums) && k < |chain|
    ensures exists endorsers, pos :: |endorsers| >= quorums[k].threshold
              && Endorses(V, chain[k].epochCommitment + chain[k].blockHash, chain[k].committeeSignatures,
                          quorums[k].keys, endorsers, pos)
  {
    assert ValidAt(H, V, chain, g, quorums, k);
    VerifiedMeansEndorsed(H, V, chain[k], if k == 0 then None else Some(chain[k - 1]), Some(g),
                          quorums[k].keys, quorums[k].threshold);
  }

  ghost predicate GenesisHashed(H: Hasher, g: GenesisBlock, hashed: set<Bytes>) {
    g.blockHash == H(GenesisBytes(g)) && GenesisBytes(g) in hashed
  }

  lemma GenesisIsNoSettlement(H: Hasher, g: GenesisBlock, b: SettlementBlock, hashed: set<Bytes>)
    requires CollisionFree(H, hashed) && GenesisHashed(H, g, hashed) && BlockHashed(H, b) <= hashed
    requires VerifyInternal(H, b)
    ensures g.blockHash != b.blockHash
  {
    var p, q := GenesisBytes(g), Concat(BlockParts(b));
    assert p[6] == GENESIS[6] && q[6] == SETTLEMENT[6];
    SameHash(H, hashed, p, q);
  }

  ghost predicate ChainHashed(H: Hasher, chain: seq<SettlementBlock>, hashed: set<Bytes>) {
    forall i :: 0 <= i < |chain| ==> BlockHashed(H, chain[i]) <= hashed
  }

  lemma BlockAt(H: Hasher, V: Verifier, chain: seq<SettlementBlock>, g: GenesisBlock, quorums: seq<Quorum>, i: nat)
    requires ValidChain(H, V, chain, g, quorums) && i < |chain|
    ensures VerifyInternal(H, chain[i])
    ensures i == 0 ==> VerifyGenesisLink(chain[0], g)
    ensures i > 0 ==> VerifyChain(chain[i], chain[i - 1])
  {
    assert ValidAt(H, V, chain, g, quorums, i);
  }

  /** Same length, and block for block the same fields but for the signatures. */
  ghost predicate Agree(a: seq<SettlementBlock>, b: seq<SettlementBlock>) {
    |a| == |b| && forall i :: 0 <= i < |a| ==> SameExceptSignatures(a[i], b[i])
  }

  /** Counting back from equal tips, blocks agree for as long as both chains last. */
  lemma {:induction false} AgreeBack(
      H: Hasher, V: Verifier, a: seq<SettlementBlock>, ga: GenesisBlock, qa: seq<Quorum>,
      b: seq<SettlementBlock>, gb: GenesisBlock, qb: seq<Quorum>, hashed: set<Bytes>, k: nat)
    requires ValidChain(H, V, a, ga, qa) && ValidChain(H, V, b, gb, qb)
    requires CollisionFree(H, hashed) && ChainHashed(H, a, hashed) && ChainHashed(H, b, hashed)
    requires a[|a| - 1].blockHash == b[|b| - 1].blockHash
    requires k < |a| && k < |b|
    ensures SameExceptSignatures(a[|a| - 1 - k], b[|b| - 1 - k])
  {
    hide VerifyInternal, BlockHashed, CollisionFree;
    var i, j := |a| - 1 - k, |b| - 1 - k;
    if k > 0 {
      AgreeBack(H, V, a, ga, qa, b, gb, qb, hashed, k - 1);
      BlockAt(H, V, a, ga, qa, i + 1);
      BlockAt(H, V, b, gb, qb, j + 1);
    }
    BlockAt(H, V, a, ga, qa, i);
    BlockAt(H, V, b, gb, qb, j);
    BlockHashDetermines(H, a[i], b[j], hashed);
  }

  /** The block that links to genesis can only match the block that links to genesis. */
  lemma FirstMatchesFirst(
      H: Hasher, V: Verifier, first: SettlementBlock, g: GenesisBlock,
      b: seq<SettlementBlock>, gb: GenesisBlock, qb: seq<Quorum>, hashed: set<Bytes>, j: nat)
    requires VerifyGenesisLink(first, g) && ValidChain(H, V, b, gb, qb)
    requires CollisionFree(H, hashed) && ChainHashed(H, b, hashed)
    requires |b| <= U64 || GenesisHashed(H, g, hashed)
    requires j < |b| && SameExceptSignatures(first, b[j])
    ensures j == 0 && g.blockHash == gb.blockHash
  {
    hide VerifyInternal, BlockHashed, CollisionFree, GenesisHashed;
    BlockAt(H, V, b, gb, qb, j);
    if |b| <= U64 {
      EpochNumbers(H, V, b, gb, qb, j);
    } else if j > 0 {
      BlockAt(H, V, b, gb, qb, j - 1);
      GenesisIsNoSettlement(H, g, b[j - 1], hashed);
    }
  }

  /** Two valid chains that end in the same block hash agree block for block, in every field but
      the signatures, and start from the same genesis hash. Chains longer than the u64 epoch
      counter are covered too, provided the genesis hash is the hash of the genesis block. */
  lemma SameTipSameChain(
      H: Hasher, V: Verifier, a: seq<SettlementBlock>, ga: GenesisBlock, qa: seq<Quorum>,
      b: seq<SettlementBlock>, gb: GenesisBlock, qb: seq<Quorum>, hashed: set<Bytes>)
    requires ValidChain(H, V, a, ga, qa) && ValidChain(H, V, b, gb, qb)
    requires CollisionFree(H, hashed) && ChainHashed(H, a, hashed) && ChainHashed(H, b, hashed)
    requires (|a| <= U64 && |b| <= U64) || (GenesisHashed(H, ga, hashed) && GenesisHashed(H, gb, hashed))
    requires a[|a| - 1].blockHash == b[|b| - 1].blockHash
    ensures Agree(a, b) && ga.blockHash == gb.blockHash
  {
    hide VerifyInternal, BlockHashed, CollisionFree, GenesisHashed;
    var k := if |a| <= |b| then |a| - 1 else |b| - 1;
    AgreeBack(H, V, a, ga, qa, b, gb, qb, hashed, k);
    if |a| <= |b| {
      BlockAt(H, V, a, ga, qa, 0);
      FirstMatchesFirst(H, V, a[0], ga, b, gb, qb, hashed, |b| - 1 - k);
    } else {
      BlockAt(H, V, b, gb, qb, 0);
      FirstMatchesFirst(H, V, b[0], gb, a, ga, qa, hashed, |a| - 1 - k);
    }
    forall i | 0 <= i < |a| ensures SameExceptSignatures(a[i], b[i]) {
      AgreeBack(H, V, a, ga, qa, b, gb, qb, hashed, |a| - 1 - i);
    }
  }
}
