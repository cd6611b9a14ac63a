/** crates/aevum-core/src/chain_state.rs: applying blocks through the checked path, and finality. */
module ChainState {
  import opened Integers
  import opened Collections
  import opened Bytes
  import opened Sums
  import StateRoot

  type JtUtxo = StateRoot.JtUtxo

  const BLOCK: Bytes := Tag("AEVUM_BLOCK")
  const MAX_REORG_DEPTH: nat := 64

  datatype Checkpoint = Checkpoint(epochId: u64, cursor: u64, totalParticipants: u64, commitment: Hash)

  /** A transaction; what else it holds is for the state transition to read. */
  datatype Transaction = Transaction(isCoinbase: bool, content: Bytes)

  datatype Block = Block(
    prevHash: Hash, height: u64, pohStart: u64, pohEnd: u64, transactionsRoot: Hash, transactions: seq<Transaction>,
    stateRoot: Hash, totalSupply: u64, blockHash: Hash, isPresence: bool, checkpoint: Option<Checkpoint>)

  predicate OnlyCoinbase(b: Block) { |b.transactions| == 1 && b.transactions[0].isCoinbase }

  function CheckpointBytes(c: Option<Checkpoint>): Bytes {
    match c
    case None => []
    case Some(cp) => LE(cp.epochId, 8) + LE(cp.cursor, 8) + LE(cp.totalParticipants, 8) + cp.commitment
  }

  function BlockBytes(b: Block): Bytes {
    BLOCK + LE(b.height, 8) + b.prevHash + BodyBytes(b)
  }

  function BodyBytes(b: Block): Bytes {
    LE(b.pohStart, 8) + LE(b.pohEnd, 8) + b.transactionsRoot + b.stateRoot + LE(b.totalSupply, 8)
    + [if b.isPresence then 1 else 0] + CheckpointBytes(b.checkpoint)
  }

  /** What `state_transition::apply_block` is given besides the block. */
  datatype View = View(
    lastHash: Hash, utxos: map<Hash, JtUtxo>, spent: set<Hash>, supply: u64, dnaRoot: Hash, oracleRoot: Hash)

  /** `state_transition.rs` is not part of this model: any partial function of block and state. */
  type Transition = (Block, View) -> Option<StateRoot.StateRootData>

  datatype Chain = Chain(
    utxos: map<Hash, JtUtxo>, spent: set<Hash>, stateRoot: Hash, dnaRoot: Hash, oracleRoot: Hash,
    cachedSupply: u64, height: u64, lastBlockHash: Hash, canonicalTip: Hash, canonicalHeight: u64,
    lastFinalizedHeight: u64, appliedBlocks: map<u64, Hash>, genesisApplied: bool,
    epochAnchorHash: Hash, currentEpoch: nat)

  datatype ChainError =
    | Execution
    | BlockAlreadyApplied(height: u64, hash: Hash)
    | ForkRejected(height: u64, existing: Hash, offered: Hash)
    | BelowFinalized(height: u64, finalized: u64)
    | ReorgTooDeep(current: u64, attempted: u64, max: nat)
    | InvalidBlockHash
    | PrevHashMismatch(expected: Hash, gotHash: Hash)
    | HeightRegression(current: u64, gotHeight: u64)
    | GenesisAlreadyApplied
    | GenesisNotApplied
    | GenesisPrevHashNotZero
    | GenesisNotEmpty

  function NewChain(root: Hash): Chain {
    Chain(map[], {}, root, ZeroHash(), ZeroHash(), 0, 0, ZeroHash(), ZeroHash(), 0, 0, map[], false, ZeroHash(), 0)
  }

  // ---------- applying one block ----------

  /** The UTXO map built by inserting a list in order, later entries replacing earlier ones. */
  function Indexed(utxos: seq<JtUtxo>): map<Hash, JtUtxo> {
    if utxos == [] then map[]
    else Indexed(utxos[..|utxos| - 1])[utxos[|utxos| - 1].nullifier := utxos[|utxos| - 1]]
  }

  function ViewOf(s: Chain): View { View(s.lastBlockHash, s.utxos, s.spent, s.cachedSupply, s.dnaRoot, s.oracleRoot) }

  function GenesisView(): View { View(ZeroHash(), map[], {}, 0, ZeroHash(), ZeroHash()) }

  /** The checks of `apply_block_checked` and `apply_genesis`, in source order. */
  function Check(H: Hasher, T: Transition, s: Chain, b: Block): Option<ChainError> {
    if H(BlockBytes(b)) != b.blockHash then Some(InvalidBlockHash)
    else if b.height == 0 then
      if s.genesisApplied then Some(GenesisAlreadyApplied)
      else if b.prevHash != ZeroHash() then Some(GenesisPrevHashNotZero)
      else if !OnlyCoinbase(b) then Some(GenesisNotEmpty)
      else if T(b, GenesisView()).None? then Some(Execution)
      else None
    else if !s.genesisApplied then Some(GenesisNotApplied)
    else if b.height <= s.lastFinalizedHeight then Some(BelowFinalized(b.height, s.lastFinalizedHeight))
    else if b.height < s.height then Some(HeightRegression(s.height, b.height))
    else if b.height < s.canonicalHeight && s.canonicalHeight - b.height > MAX_REORG_DEPTH then
      Some(ReorgTooDeep(s.canonicalHeight, b.height, MAX_REORG_DEPTH))
    else if b.prevHash != s.canonicalTip && b.prevHash != s.lastBlockHash then
      Some(PrevHashMismatch(s.lastBlockHash, b.prevHash))
    else if b.height in s.appliedBlocks then
      if s.appliedBlocks[b.height] != b.blockHash
      then Some(ForkRejected(b.height, s.appliedBlocks[b.height], b.blockHash))
      else Some(BlockAlreadyApplied(b.height, b.blockHash))
    else if T(b, ViewOf(s)).None? then Some(Execution)
    else None
  }

  ghost function GenesisState(s: Chain, b: Block, d: StateRoot.StateRootData): Chain {
    Chain(Indexed(d.newUtxos), s.spent, d.hash, ZeroHash(), ZeroHash(), d.totalSupply, 0, b.blockHash, b.blockHash, 0,
          s.lastFinalizedHeight, s.appliedBlocks[0 := b.blockHash], true, b.blockHash, s.currentEpoch)
  }

  ghost function ExtendedState(s: Chain, b: Block, d: StateRoot.StateRootData, epochLength: nat): Chain
    requires epochLength > 0
  {
    var moves := b.prevHash == s.canonicalTip || b.height > s.canonicalHeight;
    Chain(Indexed(d.newUtxos), Elements(d.spentNullifiers), d.hash, d.dnaRoot, d.oracleRoot, d.totalSupply,
          b.height, b.blockHash,
          if moves then b.blockHash else s.canonicalTip, if moves then b.height else s.canonicalHeight,
          s.lastFinalizedHeight, s.appliedBlocks[b.height := b.blockHash], s.genesisApplied,
          if b.checkpoint.Some? then b.blockHash else s.epochAnchorHash,
          if b.checkpoint.Some? then b.height / epochLength else s.currentEpoch)
  }

  ghost function Applied(T: Transition, s: Chain, b: Block, epochLength: nat): Chain
    requires epochLength > 0
  {
    if b.height == 0
    then (var d := T(b, GenesisView()); if d.Some? then GenesisState(s, b, d.value) else s)
    else (var d := T(b, ViewOf(s)); if d.Some? then ExtendedState(s, b, d.value, epochLength) else s)
  }

  function Finalized(s: Chain, height: u64): Chain {
    if height > s.lastFinalizedHeight then s.(lastFinalizedHeight := height) else s
  }

  // ---------- the history behind a state ----------

  /** Accepted blocks form one hash chain from genesis with strictly increasing heights. */
  ghost predicate Linear(H: Hasher, log: seq<Block>) {
    && (forall i :: 0 <= i < |log| ==> log[i].blockHash == H(BlockBytes(log[i])))
    && (log != [] ==> log[0].height == 0 && log[0].prevHash == ZeroHash())
    && (forall i :: 0 < i < |log| ==> log[i].prevHash == log[i - 1].blockHash)
    && (forall i, j :: 0 <= i < j < |log| ==> log[i].height < log[j].height)
  }

  /** The applied-blocks map records exactly the history. */
  ghost predicate Records(applied: map<u64, Hash>, log: seq<Block>) {
    && (forall i :: 0 <= i < |log| ==> log[i].height in applied && applied[log[i].height] == log[i].blockHash)
    && (forall h :: h in applied ==> exists i :: 0 <= i < |log| && log[i].height == h)
  }

  ghost predicate AtTip(s: Chain, log: seq<Block>) {
    && (s.genesisApplied <==> log != [])
    && s.canonicalTip == s.lastBlockHash && s.canonicalHeight == s.height
    && (log != [] ==> s.lastBlockHash == log[|log| - 1].blockHash && s.height == log[|log| - 1].height)
  }

  ghost predicate Inv(H: Hasher, s: Chain, log: seq<Block>) {
    Linear(H, log) && Records(s.appliedBlocks, log) && AtTip(s, log)
  }

  /** In a state with a history, exactly these blocks are accepted: the first genesis block, and
      blocks above both the tip and the finalized height that name the tip as predecessor. */
  lemma AcceptedExactly(H: Hasher, T: Transition, s: Chain, log: seq<Block>, b: Block)
    requires Inv(H, s, log)
    ensures Check(H, T, s, b).None? <==>
            && H(BlockBytes(b)) == b.blockHash
            && (if b.height == 0
                then log == [] && b.prevHash == ZeroHash() && OnlyCoinbase(b) && T(b, GenesisView()).Some?
                else log != [] && b.height > s.lastFinalizedHeight && b.height > log[|log| - 1].height
                     && b.prevHash == log[|log| - 1].blockHash && T(b, ViewOf(s)).Some?)
  {
    hide BlockBytes;
    if log != [] {
      var tip := log[|log| - 1];
      assert tip.height in s.appliedBlocks;
      if b.height in s.appliedBlocks {
        var i :| 0 <= i < |log| && log[i].height == b.height;
        assert b.height <= tip.height;
      }
    }
  }

  /** Reorganisations never arise on this path: the depth error is unreachable. */
  lemma ReorgTooDeepIsUnreachable(H: Hasher, T: Transition, s: Chain, log: seq<Block>, b: Block)
    requires Inv(H, s, log)
    ensures !(Check(H, T, s, b).Some? && Check(H, T, s, b).value.ReorgTooDeep?)
  {
    hide Linear, Records, BlockBytes;
  }

  lemma LinearAppend(H: Hasher, log: seq<Block>, b: Block)
    requires Linear(H, log) && b.blockHash == H(BlockBytes(b))
    requires log == [] ==> b.height == 0 && b.prevHash == ZeroHash()
    requires log != [] ==> b.height > log[|log| - 1].height && b.prevHash == log[|log| - 1].blockHash
    ensures Linear(H, log + [b])
  {
    hide BlockBytes;
    var log' := log + [b];
    forall i, j | 0 <= i < j < |log'| ensures log'[i].height < log'[j].height {
      if j == |log| && i < |log| - 1 { assert log[i].height < log[|log| - 1].height; }
    }
  }

  lemma RecordsAppend(applied: map<u64, Hash>, log: seq<Block>, b: Block)
    requires Records(applied, log) && b.height !in applied
    ensures Records(applied[b.height := b.blockHash], log + [b])
  {
    var applied', log' := applied[b.height := b.blockHash], log + [b];
    forall i | 0 <= i < |log'| ensures log'[i].height in applied' && applied'[log'[i].height] == log'[i].blockHash {
      if i < |log| { assert log[i].height in applied; }
    }
    forall h | h in applied' ensures exists i :: 0 <= i < |log'| && log'[i].height == h {
      if h == b.height {
        assert log'[|log|].height == h;
      } else {
        var i :| 0 <= i < |log| && log[i].height == h;
        assert log'[i].height == h;
      }
    }
  }

  /** An accepted block extends the history by itself, writes only its own entry of the
      applied-blocks map, and becomes the tip. */
  lemma AcceptExtends(H: Hasher, T: Transition, s: Chain, log: seq<Block>, b: Block, epochLength: nat)
    requires Inv(H, s, log) && Check(H, T, s, b).None? && epochLength > 0
    ensures Inv(H, Applied(T, s, b, epochLength), log + [b])
    ensures b.height !in s.appliedBlocks
    ensures Applied(T, s, b, epochLength).appliedBlocks == s.appliedBlocks[b.height := b.blockHash]
  {
    hide Linear, Records, BlockBytes, Indexed;
    AcceptedExactly(H, T, s, log, b);
    LinearAppend(H, log, b);
    FreshHeight(s.appliedBlocks, H, log, b);
    RecordsAppend(s.appliedBlocks, log, b);
  }

  lemma FreshHeight(applied: map<u64, Hash>, H: Hasher, log: seq<Block>, b: Block)
    requires Records(applied, log) && Linear(H, log)
    requires log != [] ==> b.height > log[|log| - 1].height
    ensures b.height !in applied
  {
    hide BlockBytes;
    forall i | 0 <= i < |log| ensures log[i].height != b.height {
      if i < |log| - 1 { assert log[i].height < log[|log| - 1].height; }
    }
  }

  // ---------- runs ----------

  datatype Op = OpApply(block: Block) | OpFinalize(height: u64)

  datatype Outcome = Outcome(chain: Chain, log: seq<Block>)

  ghost function Step(H: Hasher, T: Transition, epochLength: nat, o: Outcome, op: Op): Outcome
    requires epochLength > 0
  {
    match op
    case OpApply(b) =>
      if Check(H, T, o.chain, b).None? then Outcome(Applied(T, o.chain, b, epochLength), o.log + [b]) else o
    case OpFinalize(h) => Outcome(Finalized(o.chain, h), o.log)
  }

  ghost function Run(H: Hasher, T: Transition, root: Hash, epochLength: nat, ops: seq<Op>): Outcome
    requires epochLength > 0
  {
    if ops == [] then Outcome(NewChain(root), [])
    else Step(H, T, epochLength, Run(H, T, root, epochLength, ops[..|ops| - 1]), ops[|ops| - 1])
  }

  lemma StepInv(H: Hasher, T: Transition, epochLength: nat, o: Outcome, op: Op)
    requires epochLength > 0 && Inv(H, o.chain, o.log)
    ensures Inv(H, Step(H, T, epochLength, o, op).chain, Step(H, T, epochLength, o, op).log)
  {
    hide Linear, Records, Check, Applied;
    match op
    case OpApply(b) =>
      if Check(H, T, o.chain, b).None? { AcceptExtends(H, T, o.chain, o.log, b, epochLength); }
    case OpFinalize(h) =>
  }

  /** Over every run, whatever is offered and finalized, history is linear, the applied-blocks map
      is its record, and the canonical tip and height are the last accepted block's. */
  lemma {:induction false} EveryRunIsLinear(H: Hasher, T: Transition, root: Hash, epochLength: nat, ops: seq<Op>)
    requires epochLength > 0
    ensures Inv(H, Run(H, T, root, epochLength, ops).chain, Run(H, T, root, epochLength, ops).log)
  {
    hide Inv, Step;
    if ops == [] {
      EmptyInv(H, root);
    } else {
      EveryRunIsLinear(H, T, root, epochLength, ops[..|ops| - 1]);
      StepInv(H, T, epochLength, Run(H, T, root, epochLength, ops[..|ops| - 1]), ops[|ops| - 1]);
    }
  }

  lemma EmptyInv(H: Hasher, root: Hash)
    ensures Inv(H, NewChain(root), [])
  {
  }

  /** The applied-blocks map is write-once: what a prefix of a run recorded stays for ever. */
  lemma {:induction false} AppliedIsWriteOnce(
      H: Hasher, T: Transition, root: Hash, epochLength: nat, ops: seq<Op>, k: nat, h: u64)
    requires epochLength > 0 && k <= |ops| && h in Run(H, T, root, epochLength, ops[..k]).chain.appliedBlocks
    ensures var before, after := Run(H, T, root, epochLength, ops[..k]).chain, Run(H, T, root, epochLength, ops).chain;
            h in after.appliedBlocks && after.appliedBlocks[h] == before.appliedBlocks[h]
    decreases |ops|
  {
    hide Inv, Step;
    if k == |ops| {
      assert ops[..k] == ops;
    } else {
      var init := ops[..|ops| - 1];
      assert init[..k] == ops[..k];
      AppliedIsWriteOnce(H, T, root, epochLength, init, k, h);
      EveryRunIsLinear(H, T, root, epochLength, init);
      StepKeepsApplied(H, T, epochLength, Run(H, T, root, epochLength, init), ops[|ops| - 1], h);
    }
  }

  lemma StepKeepsApplied(H: Hasher, T: Transition, epochLength: nat, o: Outcome, op: Op, h: u64)
    requires epochLength > 0 && Inv(H, o.chain, o.log) && h in o.chain.appliedBlocks
    ensures var after := Step(H, T, epochLength, o, op).chain.appliedBlocks;
            h in after && after[h] == o.chain.appliedBlocks[h]
  {
    hide Check, Applied, Inv;
    match op
    case OpApply(b) =>
      if Check(H, T, o.chain, b).None? { AcceptExtends(H, T, o.chain, o.log, b, epochLength); }
    case OpFinalize(_) =>
  }

  /** Nothing at or below the finalized height is accepted, with one exception: the genesis block
      is not compared with it, so it is still accepted if heights were finalized before it. */
  lemma FinalityExactly(H: Hasher, T: Transition, s: Chain, log: seq<Block>, b: Block)
    requires Inv(H, s, log) && Check(H, T, s, b).None?
    ensures b.height > s.lastFinalizedHeight <==> !(b.height == 0 && log == [])
  {
    hide Check, Inv;
    AcceptedExactly(H, T, s, log, b);
  }

  /** The finalized height after a run is the greatest height finalized in it, or 0. */
  lemma {:induction false} FinalizedIsGreatest(
      H: Hasher, T: Transition, root: Hash, epochLength: nat, ops: seq<Op>)
    requires epochLength > 0
    ensures var f := Run(H, T, root, epochLength, ops).chain.lastFinalizedHeight;
            && (forall i :: 0 <= i < |ops| && ops[i].OpFinalize? ==> ops[i].height <= f)
            && (f == 0 || exists i :: 0 <= i < |ops| && ops[i] == OpFinalize(f))
  {
    if ops != [] {
      hide Check, BlockBytes, Indexed;
      var init, last := ops[..|ops| - 1], ops[|ops| - 1];
      FinalizedIsGreatest(H, T, root, epochLength, init);
      var o, f := Run(H, T, root, epochLength, init), Run(H, T, root, epochLength, ops).chain.lastFinalizedHeight;
      hide Run;
      StepFinalizes(H, T, epochLength, o, last);
      RunStep(H, T, root, epochLength, ops);
      forall i | 0 <= i < |ops| && ops[i].OpFinalize? ensures ops[i].height <= f {
        if i < |init| { assert ops[i] == init[i]; }
      }
      if f != 0 {
        if f == o.chain.lastFinalizedHeight {
          var i :| 0 <= i < |init| && init[i] == OpFinalize(f);
          assert ops[i] == OpFinalize(f);
        } else {
          assert ops[|init|] == OpFinalize(f);
        }
      }
    }
  }

  lemma RunStep(H: Hasher, T: Transition, root: Hash, epochLength: nat, ops: seq<Op>)
    requires epochLength > 0 && ops != []
    ensures Run(H, T, root, epochLength, ops)
         == Step(H, T, epochLength, Run(H, T, root, epochLength, ops[..|ops| - 1]), ops[|ops| - 1])
  {
  }

  lemma StepFinalizes(H: Hasher, T: Transition, epochLength: nat, o: Outcome, op: Op)
    requires epochLength > 0
    ensures var was, f := o.chain.lastFinalizedHeight, Step(H, T, epochLength, o, op).chain.lastFinalizedHeight;
            f == if op.OpFinalize? && op.height > was then op.height else was
  {
    hide Check, BlockBytes, Indexed, Elements;
  }

  /** Once a height is finalized, every block accepted later lies above it, the first genesis block
      being the one exception. */
  lemma AcceptedAboveFinalized(
      H: Hasher, T: Transition, root: Hash, epochLength: nat, ops: seq<Op>, i: nat, j: nat)
    requires epochLength > 0 && i < j < |ops| && ops[i].OpFinalize? && ops[j].OpApply?
    requires Check(H, T, Run(H, T, root, epochLength, ops[..j]).chain, ops[j].block).None?
    ensures ops[j].block.height > ops[i].height
            || (ops[j].block.height == 0 && Run(H, T, root, epochLength, ops[..j]).log == [])
  {
    var o := Run(H, T, root, epochLength, ops[..j]);
    EveryRunIsLinear(H, T, root, epochLength, ops[..j]);
    FinalizedIsGreatest(H, T, root, epochLength, ops[..j]);
    assert ops[..j][i] == ops[i];
    hide Check, Run, Inv;
    FinalityExactly(H, T, o.chain, o.log, ops[j].block);
  }

  // ---------- what the state stores ----------

  /** What the transition returned for the last accepted block of a run. */
  ghost function LastData(
      H: Hasher, T: Transition, root: Hash, epochLength: nat, ops: seq<Op>): Option<StateRoot.StateRootData>
    requires epochLength > 0
  {
    if ops == [] then None
    else
      var s, op := Run(H, T, root, epochLength, ops[..|ops| - 1]).chain, ops[|ops| - 1];
      if op.OpApply? && Check(H, T, s, op.block).None?
      then T(op.block, if op.block.height == 0 then GenesisView() else ViewOf(s))
      else LastData(H, T, root, epochLength, ops[..|ops| - 1])
  }

  /** The last block that anchors an epoch: the genesis block or one with a checkpoint. */
  ghost function Anchor(log: seq<Block>): Hash {
    if log == [] then ZeroHash()
    else
      var b := log[|log| - 1];
      if b.height == 0 || b.checkpoint.Some? then b.blockHash else Anchor(log[..|log| - 1])
  }

  /** The epoch of the last checkpoint after genesis. */
  ghost function Epoch(log: seq<Block>, epochLength: nat): nat
    requires epochLength > 0
  {
    if log == [] then 0
    else
      var b := log[|log| - 1];
      if b.height > 0 && b.checkpoint.Some? then b.height / epochLength else Epoch(log[..|log| - 1], epochLength)
  }

  /** The state is the transition's result for the last accepted block; genesis leaves the spent set
      and the DNA and oracle roots empty. */
  ghost predicate Stores(s: Chain, log: seq<Block>, d: Option<StateRoot.StateRootData>, epochLength: nat)
    requires epochLength > 0
  {
    && (log == [] <==> d.None?) && (log == [] ==> s.spent == {})
    && s.epochAnchorHash == Anchor(log) && s.currentEpoch == Epoch(log, epochLength)
    && (log != [] ==>
          && s.stateRoot == d.value.hash && s.cachedSupply == d.value.totalSupply
          && s.utxos == Indexed(d.value.newUtxos)
          && (if log[|log| - 1].height == 0
              then s.spent == {} && s.dnaRoot == ZeroHash() && s.oracleRoot == ZeroHash()
              else s.spent == Elements(d.value.spentNullifiers)
                   && s.dnaRoot == d.value.dnaRoot && s.oracleRoot == d.value.oracleRoot))
  }

  lemma AcceptStores(H: Hasher, T: Transition, s: Chain, log: seq<Block>, b: Block,
                     d: Option<StateRoot.StateRootData>, epochLength: nat)
    requires epochLength > 0 && Inv(H, s, log) && Check(H, T, s, b).None? && Stores(s, log, d, epochLength)
    ensures Stores(Applied(T, s, b, epochLength), log + [b],
                   T(b, if b.height == 0 then GenesisView() else ViewOf(s)), epochLength)
  {
    hide Linear, Records, BlockBytes, Check, Stores, GenesisState, ExtendedState;
    AcceptedExactly(H, T, s, log, b);
    if b.height == 0 {
      GenesisStores(s, b, d, T(b, GenesisView()).value, epochLength);
      assert log == [] && [] + [b] == [b];
    } else {
      ExtensionStores(s, log, b, d, T(b, ViewOf(s)).value, epochLength);
    }
  }

  lemma GenesisStores(s: Chain, b: Block, was: Option<StateRoot.StateRootData>, d: StateRoot.StateRootData,
                      epochLength: nat)
    requires epochLength > 0 && b.height == 0 && Stores(s, [], was, epochLength)
    ensures Stores(GenesisState(s, b, d), [b], Some(d), epochLength)
  {
    hide Indexed, Elements;
    assert [b][..0] == [];
  }

  lemma ExtensionStores(s: Chain, log: seq<Block>, b: Block, was: Option<StateRoot.StateRootData>,
                        d: StateRoot.StateRootData, epochLength: nat)
    requires epochLength > 0 && b.height > 0 && log != [] && Stores(s, log, was, epochLength)
    ensures Stores(ExtendedState(s, b, d, epochLength), log + [b], Some(d), epochLength)
  {
    hide Indexed, Elements;
    assert (log + [b])[..|log|] == log;
  }

  /** After every run the state root, supply, UTXO set, spent set and roots are those the transition
      returned for the last accepted block, and anchor and epoch those of the last checkpoint. */
  lemma {:induction false} EveryRunStoresTheLast(
      H: Hasher, T: Transition, root: Hash, epochLength: nat, ops: seq<Op>)
    requires epochLength > 0
    ensures var o := Run(H, T, root, epochLength, ops);
            Stores(o.chain, o.log, LastData(H, T, root, epochLength, ops), epochLength)
  {
    if ops != [] {
      hide Check, Applied, Inv, Stores;
      var init := ops[..|ops| - 1];
      EveryRunStoresTheLast(H, T, root, epochLength, init);
      EveryRunIsLinear(H, T, root, epochLength, init);
      var o := Run(H, T, root, epochLength, init);
      match ops[|ops| - 1]
      case OpApply(b) =>
        if Check(H, T, o.chain, b).None? {
          AcceptStores(H, T, o.chain, o.log, b, LastData(H, T, root, epochLength, init), epochLength);
        }
      case OpFinalize(h) =>
        FinalizeStores(o.chain, o.log, LastData(H, T, root, epochLength, init), epochLength, h);
    } else {
      hide Indexed;
    }
  }

  lemma FinalizeStores(s: Chain, log: seq<Block>, d: Option<StateRoot.StateRootData>, epochLength: nat, h: u64)
    requires epochLength > 0 && Stores(s, log, d, epochLength)
    ensures Stores(Finalized(s, h), log, d, epochLength)
  {
  }

  // ---------- supply ----------

  ghost function Amounts(utxos: map<Hash, JtUtxo>): map<Hash, nat> { map n | n in utxos :: utxos[n].amount }

  /** The transition returns data that `compute_state_root` would accept: its supply is the sum of
      its UTXOs and no two of them share a nullifier. */
  ghost predicate ReturnsConsistentData(T: Transition) {
    forall b, v :: T(b, v).Some? ==> DataConsistent(T(b, v).value)
  }

  ghost predicate DataConsistent(d: StateRoot.StateRootData) {
    d.totalSupply == StateRoot.TotalAmount(d.newUtxos) && Distinct(StateRoot.Nullifiers(d.newUtxos))
  }

  lemma {:induction false} IndexedSum(utxos: seq<JtUtxo>)
    requires Distinct(StateRoot.Nullifiers(utxos))
    ensures SumMap(Amounts(Indexed(utxos))) == StateRoot.TotalAmount(utxos)
    ensures forall n :: n in Indexed(utxos) ==> n in StateRoot.Nullifiers(utxos)
  {
    hide SumMap;
    if utxos == [] {
      NoSupply();
    } else {
      var k := |utxos| - 1;
      var init, last := utxos[..k], utxos[k];
      var names := StateRoot.Nullifiers(utxos);
      assert StateRoot.Nullifiers(init) == names[..k];
      assert last.nullifier == names[k] && last.nullifier !in names[..k];
      IndexedSum(init);
      IndexedAdd(Indexed(init), last);
    }
  }

  lemma IndexedAdd(m: map<Hash, JtUtxo>, u: JtUtxo)
    requires u.nullifier !in m
    ensures SumMap(Amounts(m[u.nullifier := u])) == SumMap(Amounts(m)) + u.amount
  {
    hide SumMap;
    assert Amounts(m[u.nullifier := u]) == Amounts(m)[u.nullifier := u.amount];
    SumMapUpdate(Amounts(m), u.nullifier, u.amount);
  }

  ghost predicate SupplyOk(s: Chain) { s.cachedSupply == SumMap(Amounts(s.utxos)) }

  lemma AppliedSupply(T: Transition, s: Chain, b: Block, epochLength: nat)
    requires ReturnsConsistentData(T) && SupplyOk(s) && epochLength > 0
    ensures SupplyOk(Applied(T, s, b, epochLength))
  {
    hide SumMap, Indexed, Amounts;
    var v := if b.height == 0 then GenesisView() else ViewOf(s);
    if T(b, v).Some? {
      assert DataConsistent(T(b, v).value);
      IndexedSum(T(b, v).value.newUtxos);
    }
  }

  /** The cached supply equals the sum over the UTXO set after every run. */
  lemma {:induction false} EveryRunKeepsSupply(H: Hasher, T: Transition, root: Hash, epochLength: nat, ops: seq<Op>)
    requires epochLength > 0 && ReturnsConsistentData(T)
    ensures SupplyOk(Run(H, T, root, epochLength, ops).chain)
  {
    hide Check, Applied, ReturnsConsistentData, SumMap;
    if ops == [] {
      NoSupply();
    } else {
      EveryRunKeepsSupply(H, T, root, epochLength, ops[..|ops| - 1]);
      var o := Run(H, T, root, epochLength, ops[..|ops| - 1]);
      match ops[|ops| - 1]
      case OpApply(b) => AppliedSupply(T, o.chain, b, epochLength);
      case OpFinalize(_) =>
    }
  }

  lemma NoSupply()
    ensures SumMap(Amounts(map[])) == 0
  {
    assert Amounts(map[]) == map[];
  }

  // ---------- equal tips mean equal histories ----------

  lemma BlockBytesDetermine(a: Block, b: Block)
    requires BlockBytes(a) == BlockBytes(b)
    ensures a.height == b.height && a.prevHash == b.prevHash
  {
    hide BodyBytes, LE;
    SplitEqual(BLOCK + LE(a.height, 8) + a.prevHash, BodyBytes(a), BLOCK + LE(b.height, 8) + b.prevHash, BodyBytes(b));
    SplitEqual(BLOCK + LE(a.height, 8), a.prevHash, BLOCK + LE(b.height, 8), b.prevHash);
    SplitEqual(BLOCK, LE(a.height, 8), BLOCK, LE(b.height, 8));
    U64LEInjective(a.height, b.height);
  }

  ghost predicate AllHashed(log: seq<Block>, hashed: set<Bytes>) {
    forall i :: 0 <= i < |log| ==> BlockBytes(log[i]) in hashed
  }

  /** Counting back from equal tip hashes, the hashed content of the blocks agrees. */
  lemma {:induction false} AgreeBack(H: Hasher, a: seq<Block>, b: seq<Block>, hashed: set<Bytes>, k: nat)
    requires Linear(H, a) && Linear(H, b) && a != [] && b != []
    requires CollisionFree(H, hashed) && AllHashed(a, hashed) && AllHashed(b, hashed)
    requires a[|a| - 1].blockHash == b[|b| - 1].blockHash
    requires k < |a| && k < |b|
    ensures BlockBytes(a[|a| - 1 - k]) == BlockBytes(b[|b| - 1 - k])
    ensures a[|a| - 1 - k].blockHash == b[|b| - 1 - k].blockHash
  {
    hide BlockBytes, CollisionFree;
    var i, j := |a| - 1 - k, |b| - 1 - k;
    if k > 0 {
      AgreeBack(H, a, b, hashed, k - 1);
      BlockBytesDetermine(a[i + 1], b[j + 1]);
      assert a[i + 1].prevHash == a[i].blockHash && b[j + 1].prevHash == b[j].blockHash;
    }
    SameHash(H, hashed, BlockBytes(a[i]), BlockBytes(b[j]));
  }

  /** Two histories with one tip hash have the same length and hash the same content block for
      block, unless two different hashed blocks collide. */
  lemma SameTipSameHistory(H: Hasher, a: seq<Block>, b: seq<Block>, hashed: set<Bytes>)
    requires Linear(H, a) && Linear(H, b) && a != [] && b != []
    requires CollisionFree(H, hashed) && AllHashed(a, hashed) && AllHashed(b, hashed)
    requires a[|a| - 1].blockHash == b[|b| - 1].blockHash
    ensures |a| == |b|
    ensures forall i :: 0 <= i < |a| ==> BlockBytes(a[i]) == BlockBytes(b[i]) && a[i].blockHash == b[i].blockHash
  {
    SameLength(H, a, b, hashed);
    hide BlockBytes, CollisionFree, Linear, AllHashed;
    forall i | 0 <= i < |a| ensures BlockBytes(a[i]) == BlockBytes(b[i]) && a[i].blockHash == b[i].blockHash {
      AgreeBack(H, a, b, hashed, |a| - 1 - i);
    }
  }

  lemma SameLength(H: Hasher, a: seq<Block>, b: seq<Block>, hashed: set<Bytes>)
    requires Linear(H, a) && Linear(H, b) && a != [] && b != []
    requires CollisionFree(H, hashed) && AllHashed(a, hashed) && AllHashed(b, hashed)
    requires a[|a| - 1].blockHash == b[|b| - 1].blockHash
    ensures |a| == |b|
  {
    hide BlockBytes, CollisionFree;
    var k := if |a| <= |b| then |a| - 1 else |b| - 1;
    AgreeBack(H, a, b, hashed, k);
    BlockBytesDetermine(a[|a| - 1 - k], b[|b| - 1 - k]);
    assert a[0].height == 0 && b[0].height == 0;
  }

  /** So two nodes with the same canonical tip recorded the same blocks at the same heights. */
  lemma SameTipSameRecord(H: Hasher, s: Chain, a: seq<Block>, t: Chain, b: seq<Block>, hashed: set<Bytes>)
    requires Inv(H, s, a) && Inv(H, t, b) && a != [] && b != []
    requires CollisionFree(H, hashed) && AllHashed(a, hashed) && AllHashed(b, hashed)
    requires s.canonicalTip == t.canonicalTip
    ensures s.appliedBlocks == t.appliedBlocks && s.height == t.height
  {
    hide BlockBytes, CollisionFree, Linear, AllHashed, Records;
    SameTipSameHeights(H, a, b, hashed);
    RecordsDetermined(s.appliedBlocks, t.appliedBlocks, a, b);
  }

  lemma SameTipSameHeights(H: Hasher, a: seq<Block>, b: seq<Block>, hashed: set<Bytes>)
    requires Linear(H, a) && Linear(H, b) && a != [] && b != []
    requires CollisionFree(H, hashed) && AllHashed(a, hashed) && AllHashed(b, hashed)
    requires a[|a| - 1].blockHash == b[|b| - 1].blockHash
    ensures SameHeights(a, b)
  {
    hide BlockBytes, CollisionFree, Linear, AllHashed;
    SameTipSameHistory(H, a, b, hashed);
    forall i | 0 <= i < |a| ensures a[i].height == b[i].height { BlockBytesDetermine(a[i], b[i]); }
  }

  ghost predicate SameHeights(a: seq<Block>, b: seq<Block>) {
    |a| == |b| && forall i :: 0 <= i < |a| ==> a[i].height == b[i].height && a[i].blockHash == b[i].blockHash
  }

  lemma RecordsDetermined(x: map<u64, Hash>, y: map<u64, Hash>, a: seq<Block>, b: seq<Block>)
    requires Records(x, a) && Records(y, b) && SameHeights(a, b)
    ensures x == y
  {
    forall h | h in x ensures h in y && x[h] == y[h] { RecordsInclude(x, y, a, b, h); }
    forall h | h in y ensures h in x { RecordsInclude(y, x, b, a, h); }
  }

  lemma RecordsInclude(x: map<u64, Hash>, y: map<u64, Hash>, a: seq<Block>, b: seq<Block>, h: u64)
    requires Records(x, a) && Records(y, b) && SameHeights(a, b) && h in x
    ensures h in y && x[h] == y[h]
  {
    var i :| 0 <= i < |a| && a[i].height == h;
    assert b[i].height in y && y[b[i].height] == b[i].blockHash;
  }

  // ---------- the state, updated in place ----------

  class ChainStateInner {
    var utxos: map<Hash, JtUtxo>
    var spentNullifiers: set<Hash>
    var stateRoot: Hash
    var dnaRoot: Hash
    var oracleRoot: Hash
    var cachedSupply: u64
    var height: u64
    var lastBlockHash: Hash
    var canonicalTip: Hash
    var canonicalHeight: u64
    var lastFinalizedHeight: u64
    var appliedBlocks: map<u64, Hash>
    var genesisApplied: bool
    var epochAnchorHash: Hash
    var currentEpoch: nat

    ghost function S(): Chain
      reads this
    {
      Chain(utxos, spentNullifiers, stateRoot, dnaRoot, oracleRoot, cachedSupply, height, lastBlockHash,
            canonicalTip, canonicalHeight, lastFinalizedHeight, appliedBlocks, genesisApplied,
            epochAnchorHash, currentEpoch)
    }

    constructor (root: Hash)
      ensures S() == NewChain(root)
    {
      utxos, spentNullifiers := map[], {};
      stateRoot, dnaRoot, oracleRoot := root, ZeroHash(), ZeroHash();
      cachedSupply, height, lastBlockHash := 0, 0, ZeroHash();
      canonicalTip, canonicalHeight, lastFinalizedHeight := ZeroHash(), 0, 0;
      appliedBlocks, genesisApplied := map[], false;
      epochAnchorHash, currentEpoch := ZeroHash(), 0;
    }

    /** A refused block changes nothing; an accepted one replaces the state. */
    method ApplyBlockChecked(H: Hasher, T: Transition, b: Block, epochLength: nat) returns (r: Result<(), ChainError>)
      requires epochLength > 0
      modifies this
      ensures match Check(H, T, old(S()), b)
              case Some(e) => r == Err(e) && S() == old(S())
              case None => r == Ok(()) && S() == Applied(T, old(S()), b, epochLength)
    {
      hide BlockBytes;
      if H(BlockBytes(b)) != b.blockHash {
        return Err(InvalidBlockHash);
      }
      if b.height == 0 {
        r := ApplyGenesis(H, T, b);
        return;
      }
      if !genesisApplied {
        return Err(GenesisNotApplied);
      }
      if b.height <= lastFinalizedHeight {
        return Err(BelowFinalized(b.height, lastFinalizedHeight));
      }
      if b.height < height {
        return Err(HeightRegression(height, b.height));
      }
      if b.height < canonicalHeight {
        var depth := canonicalHeight - b.height;
        if depth > MAX_REORG_DEPTH {
          return Err(ReorgTooDeep(canonicalHeight, b.height, MAX_REORG_DEPTH));
        }
      }
      var extendsTip := b.prevHash == canonicalTip;
      if !extendsTip && b.prevHash != lastBlockHash {
        return Err(PrevHashMismatch(lastBlockHash, b.prevHash));
      }
      if b.height in appliedBlocks {
        if appliedBlocks[b.height] != b.blockHash {
          return Err(ForkRejected(b.height, appliedBlocks[b.height], b.blockHash));
        }
        return Err(BlockAlreadyApplied(b.height, b.blockHash));
      }
      var result := T(b, View(lastBlockHash, utxos, spentNullifiers, cachedSupply, dnaRoot, oracleRoot));
      if result.None? {
        return Err(Execution);
      }
      Extend(b, result.value, extendsTip, epochLength);
      return Ok(());
    }

    method Extend(b: Block, d: StateRoot.StateRootData, extendsTip: bool, epochLength: nat)
      requires epochLength > 0 && extendsTip == (b.prevHash == canonicalTip)
      modifies this
      ensures S() == ExtendedState(old(S()), b, d, epochLength)
    {
      hide Indexed, Elements;
      ReplaceLedger(d);
      MoveTip(b, extendsTip || b.height > canonicalHeight);
      Record(b, epochLength);
    }

    method Record(b: Block, epochLength: nat)
      requires epochLength > 0
      modifies this`epochAnchorHash, this`currentEpoch, this`appliedBlocks
      ensures epochAnchorHash == (if b.checkpoint.Some? then b.blockHash else old(epochAnchorHash))
      ensures currentEpoch == (if b.checkpoint.Some? then b.height / epochLength else old(currentEpoch))
      ensures appliedBlocks == old(appliedBlocks)[b.height := b.blockHash]
    {
      if b.checkpoint.Some? {
        epochAnchorHash, currentEpoch := b.blockHash, b.height / epochLength;
      }
      appliedBlocks := appliedBlocks[b.height := b.blockHash];
    }

    method ReplaceLedger(d: StateRoot.StateRootData)
      modifies this`utxos, this`spentNullifiers, this`stateRoot, this`dnaRoot, this`oracleRoot, this`cachedSupply
      ensures utxos == Indexed(d.newUtxos) && spentNullifiers == Elements(d.spentNullifiers)
      ensures stateRoot == d.hash && dnaRoot == d.dnaRoot && oracleRoot == d.oracleRoot && cachedSupply == d.totalSupply
    {
      hide Indexed;
      ReplaceUtxos(d.newUtxos);
      spentNullifiers := set n | n in d.spentNullifiers;
      stateRoot, dnaRoot, oracleRoot := d.hash, d.dnaRoot, d.oracleRoot;
      cachedSupply := d.totalSupply;
    }

    method MoveTip(b: Block, canonical: bool)
      modifies this`height, this`lastBlockHash, this`canonicalTip, this`canonicalHeight
      ensures height == b.height && lastBlockHash == b.blockHash
      ensures canonicalTip == (if canonical then b.blockHash else old(canonicalTip))
      ensures canonicalHeight == (if canonical then b.height else old(canonicalHeight))
    {
      height, lastBlockHash := b.height, b.blockHash;
      if canonical {
        canonicalTip, canonicalHeight := b.blockHash, b.height;
      }
    }

    method ApplyGenesis(H: Hasher, T: Transition, b: Block) returns (r: Result<(), ChainError>)
      requires b.height == 0 && H(BlockBytes(b)) == b.blockHash
      modifies this
      ensures match Check(H, T, old(S()), b)
              case Some(e) => r == Err(e) && S() == old(S())
              case None => r == Ok(()) && T(b, GenesisView()).Some?
                           && S() == GenesisState(old(S()), b, T(b, GenesisView()).value)
    {
      hide BlockBytes;
      if genesisApplied {
        return Err(GenesisAlreadyApplied);
      }
      if b.prevHash != ZeroHash() {
        return Err(GenesisPrevHashNotZero);
      }
      if |b.transactions| != 1 || !b.transactions[0].isCoinbase {
        return Err(GenesisNotEmpty);
      }
      var result := T(b, GenesisView());
      if result.None? {
        return Err(Execution);
      }
      EnterGenesis(b, result.value);
      return Ok(());
    }

    method EnterGenesis(b: Block, d: StateRoot.StateRootData)
      requires b.height == 0
      modifies this
      ensures S() == GenesisState(old(S()), b, d)
    {
      hide Indexed;
      stateRoot, dnaRoot, oracleRoot := d.hash, ZeroHash(), ZeroHash();
      cachedSupply := d.totalSupply;
      MoveTip(b, true);
      appliedBlocks, genesisApplied := appliedBlocks[0 := b.blockHash], true;
      epochAnchorHash := b.blockHash;
      ReplaceUtxos(d.newUtxos);
    }

    method ReplaceUtxos(list: seq<JtUtxo>)
      modifies this`utxos
      ensures utxos == Indexed(list)
    {
      utxos := map[];
      for i := 0 to |list|
        invariant utxos == Indexed(list[..i])
      {
        assert list[..i + 1][..i] == list[..i];
        utxos := utxos[list[i].nullifier := list[i]];
      }
      assert list[..|list|] == list;
    }

    method FinalizeUpTo(h: u64)
      modifies this`lastFinalizedHeight
      ensures S() == Finalized(old(S()), h)
    {
      if h > lastFinalizedHeight {
        lastFinalizedHeight := h;
      }
    }
  }
}
