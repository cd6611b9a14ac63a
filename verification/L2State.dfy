/** crates/aevum-l2/src/l2_state.rs and l2_transaction.rs: the L2 ledger. */
module L2State {
  import opened Integers
  import opened Sums

  type Account = int      // a 32-byte public key, only compared here
  type HashId = int

  const FOUNDER_SHARE_BPS: nat := 1000

  datatype Taint = Taint(distance: nat, origin: u64, timestamp: u64, restriction: u64)

  datatype L2Transaction = L2Transaction(
    version: nat, from: Account, to: Account, amount: u64, fee: u64, nonce: u64, txHash: HashId,
    signature: int, timestamp: u64, taint: Taint, bindingSalt: u64)

  datatype L2Utxo = L2Utxo(owner: Account, amount: u64, txHash: HashId, outputIndex: nat, taint: Taint, spent: bool)

  /** Hashing and signature verification are parameters; nothing is assumed about them. */
  datatype Crypto = Crypto(computeHash: L2Transaction -> HashId, verify: (Account, HashId, int) -> bool)

  datatype L2Error =
    | InvalidSignature
    | ReplayDetected
    | InvalidNonce(expected: nat, got: nat)
    | InsufficientBalance(required: nat, available: nat)
    | AmountZero

  datatype Result = Ok(utxos: seq<L2Utxo>) | Err(error: L2Error)

  datatype State = State(
    balances: map<Account, nat>, nonces: map<Account, nat>, processed: set<HashId>,
    founder: Account, communityFund: Account, utxos: seq<L2Utxo>, txCount: nat, totalFees: nat)

  function NewState(founder: Account, fund: Account): State {
    State(map[], map[], {}, founder, fund, [], 0, 0)
  }

  function Get(m: map<Account, nat>, k: Account): nat { if k in m then m[k] else 0 }

  // ---------- transactions ----------

  function FounderCut(fee: u64): u64 { fee * FOUNDER_SHARE_BPS / 10_000 }
  function CommunityCut(fee: u64): nat { SatSub(fee, FounderCut(fee)) }

  /** The two cuts are the whole fee; the founder's is a tenth, rounded down. */
  lemma CutsAreTheFee(fee: u64)
    ensures FounderCut(fee) + CommunityCut(fee) == fee && FounderCut(fee) == fee / 10
  {
  }

  predicate IsValid(c: Crypto, tx: L2Transaction) {
    tx.amount != 0 && c.computeHash(tx) == tx.txHash && c.verify(tx.from, tx.txHash, tx.signature)
  }

  // ---------- one transaction ----------

  /** The checks of `build_context`, in source order: `None` when the transaction may be applied. */
  datatype Verdict = Fine | Reject(error: L2Error)

  function Check(c: Crypto, s: State, tx: L2Transaction): Verdict {
    if !IsValid(c, tx) then Reject(InvalidSignature)
    else if tx.amount == 0 then Reject(AmountZero)
    else if tx.txHash in s.processed then Reject(ReplayDetected)
    else if tx.nonce != Get(s.nonces, tx.from) then Reject(InvalidNonce(Get(s.nonces, tx.from), tx.nonce))
    else if Get(s.balances, tx.from) < SatAdd(tx.amount, tx.fee) then
      Reject(InsufficientBalance(SatAdd(tx.amount, tx.fee), Get(s.balances, tx.from)))
    else Fine
  }

  function Plus(m: map<Account, nat>, k: Account, x: nat): map<Account, nat> { m[k := SatAdd(Get(m, k), x)] }
  function Minus(m: map<Account, nat>, k: Account, x: nat): map<Account, nat> { m[k := SatSub(Get(m, k), x)] }

  /** The four balance updates, one after the other, so that accounts may coincide. */
  function Moved(s: State, tx: L2Transaction): map<Account, nat> {
    Plus(Plus(Plus(Minus(s.balances, tx.from, SatAdd(tx.amount, tx.fee)), tx.to, tx.amount),
              s.founder, FounderCut(tx.fee)), s.communityFund, CommunityCut(tx.fee))
  }

  function UtxoOf(tx: L2Transaction): L2Utxo { L2Utxo(tx.to, tx.amount, tx.txHash, 0, tx.taint, false) }

  function Applied(s: State, tx: L2Transaction): State {
    s.(balances := Moved(s, tx),
       nonces := s.nonces[tx.from := SatAdd(Get(s.nonces, tx.from), 1)],
       processed := s.processed + {tx.txHash},
       utxos := s.utxos + [UtxoOf(tx)],
       txCount := SatAdd(s.txCount, 1),
       totalFees := SatAdd(s.totalFees, tx.fee))
  }

  function Process(c: Crypto, s: State, tx: L2Transaction): State {
    if Check(c, s, tx).Fine? then Applied(s, tx) else s
  }

  function Credit(s: State, user: Account, amount: u64): State { s.(balances := Plus(s.balances, user, amount)) }

  /** The zero-amount error is never returned: the validity check has already refused it. */
  lemma AmountZeroIsUnreachable(c: Crypto, s: State, tx: L2Transaction)
    ensures Check(c, s, tx) != Reject(AmountZero)
  {
  }

  // ---------- conservation ----------

  lemma PlusAdds(m: map<Account, nat>, k: Account, x: nat)
    requires SumMap(m) + x < U64
    ensures SumMap(Plus(m, k, x)) == SumMap(m) + x
  {
    SumMapMember(m, k);
    SumMapUpdate(m, k, SatAdd(Get(m, k), x));
  }

  lemma MinusTakes(m: map<Account, nat>, k: Account, x: nat)
    requires x <= Get(m, k)
    ensures SumMap(Minus(m, k, x)) == SumMap(m) - x && x <= SumMap(m)
  {
    SumMapMember(m, k);
    SumMapUpdate(m, k, SatSub(Get(m, k), x));
  }

  /** Whatever accounts coincide, an accepted transaction moves money and neither makes nor
      loses any, as long as the ledger holds less than 2^64 - 1. */
  lemma ApplyConserves(c: Crypto, s: State, tx: L2Transaction)
    requires SumMap(s.balances) < U64 - 1 && Check(c, s, tx).Fine?
    ensures SumMap(Applied(s, tx).balances) == SumMap(s.balances)
  {
    hide SumMap, Plus, Minus;
    SumMapMember(s.balances, tx.from);
    assert tx.amount + tx.fee < U64 - 1;
    var m1 := Minus(s.balances, tx.from, tx.amount + tx.fee);
    MinusTakes(s.balances, tx.from, tx.amount + tx.fee);
    var m2 := Plus(m1, tx.to, tx.amount);
    PlusAdds(m1, tx.to, tx.amount);
    CutsAreTheFee(tx.fee);
    var m3 := Plus(m2, s.founder, FounderCut(tx.fee));
    PlusAdds(m2, s.founder, FounderCut(tx.fee));
    PlusAdds(m3, s.communityFund, CommunityCut(tx.fee));
  }

  // ---------- runs ----------

  datatype Op = OpCredit(user: Account, amount: u64) | OpProcess(tx: L2Transaction)

  /** The state after a run, and the transactions it accepted, in order. */
  datatype Outcome = Outcome(state: State, log: seq<L2Transaction>)

  function Run(c: Crypto, founder: Account, fund: Account, ops: seq<Op>): Outcome {
    if ops == [] then Outcome(NewState(founder, fund), [])
    else
      var o := Run(c, founder, fund, ops[..|ops| - 1]);
      match ops[|ops| - 1]
      case OpCredit(user, amount) => Outcome(Credit(o.state, user, amount), o.log)
      case OpProcess(tx) =>
        if Check(c, o.state, tx).Fine? then Outcome(Applied(o.state, tx), o.log + [tx]) else o
  }

  function TotalCredited(ops: seq<Op>): nat {
    if ops == [] then 0
    else TotalCredited(ops[..|ops| - 1])
         + (match ops[|ops| - 1] case OpCredit(_, amount) => amount case OpProcess(_) => 0)
  }

  /** Conservation over every run: the balances sum to what was credited. */
  lemma {:induction false} EveryRunConserves(c: Crypto, founder: Account, fund: Account, ops: seq<Op>)
    requires TotalCredited(ops) < U64 - 1
    ensures SumMap(Run(c, founder, fund, ops).state.balances) == TotalCredited(ops)
  {
    hide SumMap, Check, Applied, Plus;
    if ops == [] {
      NothingHeld();
    } else {
      EveryRunConserves(c, founder, fund, ops[..|ops| - 1]);
      var o := Run(c, founder, fund, ops[..|ops| - 1]);
      match ops[|ops| - 1]
      case OpCredit(user, amount) => PlusAdds(o.state.balances, user, amount);
      case OpProcess(tx) =>
        if Check(c, o.state, tx).Fine? { ApplyConserves(c, o.state, tx); }
    }
  }

  lemma NothingHeld()
    ensures SumMap<Account>(map[]) == 0
  {
  }

  /** The bound is tight: at 2^64 - 1 the required balance saturates, and a transaction moves one
      unit more than it takes. */
  lemma BoundIsTight(c: Crypto, tx: L2Transaction)
    requires IsValid(c, tx) && tx.from == 1 && tx.to == 2 && tx.amount == U64 - 1 && tx.fee == 1 && tx.nonce == 0
    ensures var ops := [OpCredit(1, U64 - 1), OpProcess(tx)];
            && TotalCredited(ops) == U64 - 1
            && SumMap(Run(c, 3, 4, ops).state.balances) == U64
  {
    hide SumMap;
    var ops := [OpCredit(1, U64 - 1), OpProcess(tx)];
    assert ops[..1] == [OpCredit(1, U64 - 1)] && ops[..1][..0] == [];
    assert Run(c, 3, 4, ops[..1][..0]).state == NewState(3, 4);
    var s := Run(c, 3, 4, ops[..1]).state;
    assert s == Credit(NewState(3, 4), 1, U64 - 1);
    assert Check(c, s, tx).Fine?;
    var m := Applied(s, tx).balances;
    assert m == map[1 := 0, 2 := U64 - 1, 3 := 0, 4 := 1];
    FourBalances(U64 - 1);
    assert TotalCredited(ops[..1]) == U64 - 1;
  }

  lemma FourBalances(x: nat)
    ensures SumMap(map[1 := 0, 2 := x, 3 := 0, 4 := 1]) == x + 1
  {
    NothingHeld();
    SumMapUpdate(map[], 1, 0);
    SumMapUpdate(map[1 := 0], 2, x);
    SumMapUpdate(map[1 := 0, 2 := x], 3, 0);
    SumMapUpdate(map[1 := 0, 2 := x, 3 := 0], 4, 1);
  }

  ghost predicate Conserves(c: Crypto, founder: Account, fund: Account, ops: seq<Op>) {
    SumMap(Run(c, founder, fund, ops).state.balances) == TotalCredited(ops)
  }

  ghost predicate AllRunsConserve(n: nat) {
    forall c, founder, fund, ops :: TotalCredited(ops) == n ==> Conserves(c, founder, fund, ops)
  }

  /** Deposits of n units in all to one account. */
  function Deposits(n: nat): seq<Op> {
    if n < U64 then [OpCredit(1, n)] else Deposits(n - (U64 - 1)) + [OpCredit(1, U64 - 1)]
  }

  lemma {:induction false} DepositsSaturate(c: Crypto, n: nat)
    ensures TotalCredited(Deposits(n)) == n
    ensures exists v: u64 :: Run(c, 3, 4, Deposits(n)).state.balances == map[1 := v]
  {
    hide Run, TotalCredited;
    if n < U64 {
      NoRun(c);
      CreditLast(c, [], n);
      assert [] + [OpCredit(1, n)] == [OpCredit(1, n)];
      assert Plus(map[], 1, n) == map[1 := n];
    } else {
      var init := Deposits(n - (U64 - 1));
      DepositsSaturate(c, n - (U64 - 1));
      var v: u64 :| Run(c, 3, 4, init).state.balances == map[1 := v];
      CreditLast(c, init, U64 - 1);
      assert Plus(map[1 := v], 1, U64 - 1) == map[1 := SatAdd(v, U64 - 1)];
    }
  }

  lemma NoRun(c: Crypto)
    ensures Run(c, 3, 4, []).state.balances == map[] && TotalCredited([]) == 0
  {
  }

  lemma CreditLast(c: Crypto, init: seq<Op>, amount: u64)
    ensures var ops := init + [OpCredit(1, amount)];
            && Run(c, 3, 4, ops).state.balances == Plus(Run(c, 3, 4, init).state.balances, 1, amount)
            && TotalCredited(ops) == TotalCredited(init) + amount
  {
    var ops := init + [OpCredit(1, amount)];
    assert ops[..|ops| - 1] == init;
  }

  lemma OneBalance(v: nat)
    ensures SumMap(map[1 := v]) == v
  {
    NothingHeld();
    SumMapUpdate(map[], 1, v);
  }

  /** Every run that credits n units in all conserves them if and only if n is below 2^64 - 1. */
  lemma ConservesIffBelow(n: nat)
    ensures AllRunsConserve(n) <==> n < U64 - 1
  {
    var c := Crypto(_ => 0, (_, _, _) => true);
    if n < U64 - 1 {
      forall c, founder, fund, ops | TotalCredited(ops) == n ensures Conserves(c, founder, fund, ops) {
        EveryRunConserves(c, founder, fund, ops);
      }
    } else if n == U64 - 1 {
      var tx := L2Transaction(1, 1, 2, U64 - 1, 1, 0, 0, 0, 0, Taint(0, 0, 0, 0), 0);
      BoundIsTight(c, tx);
      assert !Conserves(c, 3, 4, [OpCredit(1, U64 - 1), OpProcess(tx)]);
    } else {
      hide Run, TotalCredited, SumMap;
      DepositsSaturate(c, n);
      var v: u64 :| Run(c, 3, 4, Deposits(n)).state.balances == map[1 := v];
      OneBalance(v);
      assert !Conserves(c, 3, 4, Deposits(n));
    }
  }

  // ---------- who is paid ----------

  function If(b: bool, x: int): int { if b then x else 0 }

  /** What an accepted transaction changes in the balance of `who`, roles adding up when they coincide. */
  function Change(tx: L2Transaction, founder: Account, fund: Account, who: Account): int {
    If(who == tx.to, tx.amount) + If(who == founder, tx.fee / 10) + If(who == fund, tx.fee - tx.fee / 10)
    - If(who == tx.from, tx.amount + tx.fee)
  }

  lemma PlusGets(m: map<Account, nat>, k: Account, x: nat, who: Account)
    requires SumMap(m) + x < U64
    ensures Get(Plus(m, k, x), who) == Get(m, who) + If(who == k, x)
    ensures SumMap(Plus(m, k, x)) == SumMap(m) + x
  {
    hide SumMap;
    SumMapMember(m, k);
    PlusAdds(m, k, x);
  }

  /** An accepted transaction pays the amount to the receiver, a tenth of the fee to the founder and
      the rest of it to the fund, takes amount and fee from the sender, and touches nobody else. */
  lemma PaysExactly(c: Crypto, s: State, tx: L2Transaction, who: Account)
    requires SumMap(s.balances) < U64 - 1 && Check(c, s, tx).Fine?
    ensures Get(Applied(s, tx).balances, who) == Get(s.balances, who) + Change(tx, s.founder, s.communityFund, who)
  {
    hide SumMap, Plus;
    SumMapMember(s.balances, tx.from);
    assert tx.amount + tx.fee < U64 - 1;
    MinusTakes(s.balances, tx.from, tx.amount + tx.fee);
    CutsAreTheFee(tx.fee);
    var m1 := Minus(s.balances, tx.from, tx.amount + tx.fee);
    assert Get(m1, who) == Get(s.balances, who) - If(who == tx.from, tx.amount + tx.fee);
    PlusGets(m1, tx.to, tx.amount, who);
    var m2 := Plus(m1, tx.to, tx.amount);
    PlusGets(m2, s.founder, FounderCut(tx.fee), who);
    var m3 := Plus(m2, s.founder, FounderCut(tx.fee));
    PlusGets(m3, s.communityFund, CommunityCut(tx.fee), who);
  }

  /** Credits to one account. */
  function CreditedTo(ops: seq<Op>, who: Account): nat {
    if ops == [] then 0
    else CreditedTo(ops[..|ops| - 1], who)
         + (match ops[|ops| - 1] case OpCredit(user, amount) => If(user == who, amount) case OpProcess(_) => 0)
  }

  /** What the accepted transactions changed in one account. */
  function Changes(log: seq<L2Transaction>, founder: Account, fund: Account, who: Account): int {
    if log == [] then 0
    else Changes(log[..|log| - 1], founder, fund, who) + Change(log[|log| - 1], founder, fund, who)
  }

  lemma ChangesPush(log: seq<L2Transaction>, tx: L2Transaction, founder: Account, fund: Account, who: Account)
    ensures Changes(log + [tx], founder, fund, who) == Changes(log, founder, fund, who) + Change(tx, founder, fund, who)
  {
    assert (log + [tx])[..|log|] == log;
  }

  /** After every run each balance is what was credited to the account, plus what it received, minus
      what it paid, over the accepted transactions. */
  lemma {:induction false} EveryBalanceExplained(
      c: Crypto, founder: Account, fund: Account, ops: seq<Op>, who: Account)
    requires TotalCredited(ops) < U64 - 1
    ensures var o := Run(c, founder, fund, ops);
            && Get(o.state.balances, who) == CreditedTo(ops, who) + Changes(o.log, founder, fund, who)
            && o.state.founder == founder && o.state.communityFund == fund
  {
    if ops != [] {
      hide SumMap, Check, Plus, Change, Moved;
      var init := ops[..|ops| - 1];
      EveryBalanceExplained(c, founder, fund, init, who);
      EveryRunConserves(c, founder, fund, init);
      var o := Run(c, founder, fund, init);
      match ops[|ops| - 1]
      case OpCredit(user, amount) => PlusGets(o.state.balances, user, amount, who);
      case OpProcess(tx) =>
        if Check(c, o.state, tx).Fine? {
          PaysExactly(c, o.state, tx, who);
          ChangesPush(o.log, tx, founder, fund, who);
        }
    }
  }

  function FeesOf(log: seq<L2Transaction>): nat {
    if log == [] then 0 else FeesOf(log[..|log| - 1]) + log[|log| - 1].fee
  }

  /** The fee total is the fees of all accepted transactions, stopping at the u64 maximum. */
  lemma {:induction false} FeesAddUp(c: Crypto, founder: Account, fund: Account, ops: seq<Op>)
    ensures var o := Run(c, founder, fund, ops); o.state.totalFees == Capped(FeesOf(o.log))
  {
    if ops != [] {
      hide Check, Plus, Moved;
      FeesAddUp(c, founder, fund, ops[..|ops| - 1]);
      var o := Run(c, founder, fund, ops[..|ops| - 1]);
      match ops[|ops| - 1]
      case OpCredit(_, _) =>
      case OpProcess(tx) => assert (o.log + [tx])[..|o.log|] == o.log;
    }
  }

  // ---------- nonces and replay ----------

  /** How many transactions of the log were sent by `who`. */
  function SentBy(log: seq<L2Transaction>, who: Account): nat {
    if log == [] then 0
    else SentBy(log[..|log| - 1], who) + (if log[|log| - 1].from == who then 1 else 0)
  }

  function Capped(n: nat): nat { if n < U64 then n else U64 - 1 }

  ghost predicate DistinctHashes(log: seq<L2Transaction>) {
    forall i, j :: 0 <= i < j < |log| ==> log[i].txHash != log[j].txHash
  }

  /** The k-th transaction of a sender carries nonce k (the counter stops at the u64 maximum). */
  ghost predicate NoncesInOrder(log: seq<L2Transaction>) {
    forall i :: 0 <= i < |log| ==> log[i].nonce == Capped(SentBy(log[..i], log[i].from))
  }

  ghost predicate HistoryOk(s: State, log: seq<L2Transaction>) {
    && (forall who :: Get(s.nonces, who) == Capped(SentBy(log, who)))
    && NoncesInOrder(log) && DistinctHashes(log)
    && s.processed == (set tx | tx in log :: tx.txHash)
    && |s.utxos| == |log| && s.txCount == Capped(|log|)
    && (forall i :: 0 <= i < |log| ==> PaysTo(s.utxos[i], log[i]))
  }

  /** The unspent output of a transaction: the receiver's, for the amount, with the sender's taint. */
  ghost predicate PaysTo(u: L2Utxo, tx: L2Transaction) {
    && u.owner == tx.to && u.amount == tx.amount && u.txHash == tx.txHash && u.outputIndex == 0
    && u.taint == tx.taint && !u.spent
  }

  lemma HistoryStep(c: Crypto, s: State, log: seq<L2Transaction>, tx: L2Transaction)
    requires HistoryOk(s, log) && Check(c, s, tx).Fine?
    ensures HistoryOk(Applied(s, tx), log + [tx])
  {
    hide Moved, NoncesInOrder, DistinctHashes, SentBy;
    assert (log + [tx])[..|log|] == log;
    NoncesStep(log, tx);
    DistinctStep(log, tx);
    ProcessedStep(log, tx);
    SentByStep(log, tx);
  }

  lemma SentByStep(log: seq<L2Transaction>, tx: L2Transaction)
    ensures forall who :: SentBy(log + [tx], who) == SentBy(log, who) + (if tx.from == who then 1 else 0)
  {
    assert (log + [tx])[..|log|] == log;
  }

  lemma NoncesStep(log: seq<L2Transaction>, tx: L2Transaction)
    requires NoncesInOrder(log) && tx.nonce == Capped(SentBy(log, tx.from))
    ensures NoncesInOrder(log + [tx])
  {
    var log' := log + [tx];
    forall i | 0 <= i < |log'| ensures log'[i].nonce == Capped(SentBy(log'[..i], log'[i].from)) {
      if i < |log| {
        assert log'[..i] == log[..i];
      } else {
        assert log'[..i] == log;
      }
    }
  }

  lemma DistinctStep(log: seq<L2Transaction>, tx: L2Transaction)
    requires DistinctHashes(log) && tx.txHash !in (set t | t in log :: t.txHash)
    ensures DistinctHashes(log + [tx])
  {
    forall i | 0 <= i < |log| ensures log[i].txHash != tx.txHash {
      assert log[i] in log;
    }
  }

  lemma ProcessedStep(log: seq<L2Transaction>, tx: L2Transaction)
    ensures (set t | t in log + [tx] :: t.txHash) == (set t | t in log :: t.txHash) + {tx.txHash}
  {
    assert forall t :: t in log + [tx] <==> t in log || t == tx;
  }

  /** In every run each sender's accepted nonces are 0, 1, 2, ..., no transaction is applied
      twice, and the transaction count, the processed set and the UTXO list have equal size. */
  lemma {:induction false} EveryRunInOrder(c: Crypto, founder: Account, fund: Account, ops: seq<Op>)
    ensures HistoryOk(Run(c, founder, fund, ops).state, Run(c, founder, fund, ops).log)
  {
    hide Check, Moved, Plus;
    if ops != [] {
      EveryRunInOrder(c, founder, fund, ops[..|ops| - 1]);
      var o := Run(c, founder, fund, ops[..|ops| - 1]);
      match ops[|ops| - 1]
      case OpCredit(user, amount) =>
      case OpProcess(tx) =>
        if Check(c, o.state, tx).Fine? { HistoryStep(c, o.state, o.log, tx); }
    }
  }

  lemma {:induction false} HashSetSize(log: seq<L2Transaction>)
    requires DistinctHashes(log)
    ensures |set tx | tx in log :: tx.txHash| == |log|
  {
    if log != [] {
      var n := |log| - 1;
      var init, last := log[..n], log[n];
      HashSetSize(init);
      assert (set tx | tx in log :: tx.txHash) == (set tx | tx in init :: tx.txHash) + {last.txHash} by {
        assert forall t :: t in log <==> t in init || t == last;
      }
      assert last.txHash !in (set tx | tx in init :: tx.txHash);
    }
  }

  lemma SizesAgree(c: Crypto, founder: Account, fund: Account, ops: seq<Op>)
    ensures var s := Run(c, founder, fund, ops).state;
            |s.processed| == |s.utxos| && s.txCount == Capped(|s.utxos|)
  {
    EveryRunInOrder(c, founder, fund, ops);
    HashSetSize(Run(c, founder, fund, ops).log);
  }

  /** After any run, exactly these transactions are accepted: a positive amount, the right hash, a
      signature of the sender on it, a hash not accepted before, the number of the sender's accepted
      transactions as nonce, and amount and fee covered by the sender's balance. */
  lemma AcceptedIff(c: Crypto, founder: Account, fund: Account, ops: seq<Op>, tx: L2Transaction)
    requires TotalCredited(ops) < U64 - 1
    ensures var o := Run(c, founder, fund, ops);
            Check(c, o.state, tx).Fine? <==>
            && tx.amount > 0 && c.computeHash(tx) == tx.txHash && c.verify(tx.from, tx.txHash, tx.signature)
            && (forall earlier :: earlier in o.log ==> earlier.txHash != tx.txHash)
            && tx.nonce == Capped(SentBy(o.log, tx.from))
            && tx.amount + tx.fee <= CreditedTo(ops, tx.from) + Changes(o.log, founder, fund, tx.from)
  {
    EveryRunInOrder(c, founder, fund, ops);
    EveryBalanceExplained(c, founder, fund, ops, tx.from);
    EveryRunConserves(c, founder, fund, ops);
    var o := Run(c, founder, fund, ops);
    SumMapMember(o.state.balances, tx.from);
    hide Run, SumMap, NoncesInOrder, DistinctHashes;
    assert tx.txHash in o.state.processed <==> exists t :: t in o.log && t.txHash == tx.txHash;
  }

  /** Whatever was accepted once is refused for ever after. */
  lemma AcceptedOnce(c: Crypto, founder: Account, fund: Account, ops: seq<Op>, tx: L2Transaction)
    requires tx in Run(c, founder, fund, ops).log
    ensures !Check(c, Run(c, founder, fund, ops).state, tx).Fine?
  {
    EveryRunInOrder(c, founder, fund, ops);
    var o := Run(c, founder, fund, ops);
    assert tx.txHash in o.state.processed;
  }

  // ---------- the ledger, updated in place ----------

  class Ledger {
    var balances: map<Account, nat>
    var nonces: map<Account, nat>
    var processed: set<HashId>
    const founder: Account
    const communityFund: Account
    var utxos: seq<L2Utxo>
    var txCount: nat
    var totalFees: nat

    ghost function S(): State
      reads this
    {
      State(balances, nonces, processed, founder, communityFund, utxos, txCount, totalFees)
    }

    constructor (founder: Account, fund: Account)
      ensures S() == NewState(founder, fund)
    {
      balances, nonces, processed := map[], map[], {};
      this.founder, communityFund := founder, fund;
      utxos, txCount, totalFees := [], 0, 0;
    }

    method CreditUser(user: Account, amount: u64)
      modifies this
      ensures S() == Credit(old(S()), user, amount)
    {
      balances := balances[user := SatAdd(Get(balances, user), amount)];
    }

    /** All checks come before the first change, so a rejected transaction changes nothing. */
    method ProcessTransaction(c: Crypto, tx: L2Transaction) returns (r: Result)
      modifies this
      ensures S() == Process(c, old(S()), tx)
      ensures match Check(c, old(S()), tx)
              case Fine => r == Ok([UtxoOf(tx)])
              case Reject(e) => r == Err(e) && S() == old(S())
    {
      var verdict := BuildContext(c, tx);
      if verdict.Reject? {
        return Err(verdict.error);
      }
      processed := processed + {tx.txHash};
      MoveBalances(tx);
      totalFees := SatAdd(totalFees, tx.fee);
      nonces := nonces[tx.from := SatAdd(Get(nonces, tx.from), 1)];
      var utxo := L2Utxo(tx.to, tx.amount, tx.txHash, 0, tx.taint, false);
      utxos := utxos + [utxo];
      txCount := SatAdd(txCount, 1);
      return Ok([utxo]);
    }

    method BuildContext(c: Crypto, tx: L2Transaction) returns (v: Verdict)
      ensures v == Check(c, S(), tx)
    {
      if tx.amount == 0 || c.computeHash(tx) != tx.txHash || !c.verify(tx.from, tx.txHash, tx.signature) {
        return Reject(InvalidSignature);
      }
      if tx.txHash in processed {
        return Reject(ReplayDetected);
      }
      var expected := Get(nonces, tx.from);
      if tx.nonce != expected {
        return Reject(InvalidNonce(expected, tx.nonce));
      }
      var available := Get(balances, tx.from);
      var required := SatAdd(tx.amount, tx.fee);
      if available < required {
        return Reject(InsufficientBalance(required, available));
      }
      return Fine;
    }

    method MoveBalances(tx: L2Transaction)
      modifies this`balances
      ensures balances == Moved(old(S()), tx)
    {
      balances := balances[tx.from := SatSub(Get(balances, tx.from), SatAdd(tx.amount, tx.fee))];
      balances := balances[tx.to := SatAdd(Get(balances, tx.to), tx.amount)];
      balances := balances[founder := SatAdd(Get(balances, founder), FounderCut(tx.fee))];
      balances := balances[communityFund := SatAdd(Get(balances, communityFund), CommunityCut(tx.fee))];
    }
  }
}
