/** crates/aevum-core/src/escrow.rs: collecting shares and paying out a reward without losing a unit. */
module Escrow {
  import opened Integers
  import opened Bytes

  type Key = int

  datatype Entry = Entry(key: Key, amount: u64)

  datatype Status = Funded | InProgress | Completed | Refunded

  datatype Contract = Contract(
    customer: Key, totalReward: u64, status: Status, createdHeight: u64, deadlineHeight: u64,
    winnerBonusPercent: u64, poolFeePercent: u64, minerShares: seq<Entry>, winner: Option<Key>)

  // ---------- unsigned 64-bit arithmetic as release builds perform it ----------

  function Add64(a: u64, b: u64): u64 { (a + b) % U64 }

  function Sub64(a: u64, b: u64): u64 { (a - b) % U64 }

  function Mul64(a: u64, b: u64): u64 { (a * b) % U64 }

  // ---------- lists of amounts ----------

  /** The amounts of a list, without wrap-around. */
  ghost function Total(p: seq<Entry>): nat {
    if p == [] then 0 else Total(p[..|p| - 1]) + p[|p| - 1].amount
  }

  /** What a list gives to one key. */
  ghost function Paid(p: seq<Entry>, k: Key): nat {
    if p == [] then 0 else Paid(p[..|p| - 1], k) + (if p[|p| - 1].key == k then p[|p| - 1].amount else 0)
  }

  function IndexOf(p: seq<Entry>, k: Key): (i: nat)
    ensures i <= |p| && (i < |p| ==> p[i].key == k)
    ensures forall j :: 0 <= j < i ==> p[j].key != k
  {
    if p == [] then 0 else if p[0].key == k then 0 else 1 + IndexOf(p[1..], k)
  }

  ghost predicate DistinctKeys(p: seq<Entry>) {
    forall i, j :: 0 <= i < j < |p| ==> p[i].key != p[j].key
  }

  /** Adds to the first entry of the key, or appends one. */
  function Credited(p: seq<Entry>, k: Key, amount: u64): seq<Entry> {
    var i := IndexOf(p, k);
    if i < |p| then p[i := Entry(k, Add64(p[i].amount, amount))] else p + [Entry(k, amount)]
  }

  lemma PaidPush(p: seq<Entry>, e: Entry, k: Key)
    ensures Paid(p + [e], k) == Paid(p, k) + (if e.key == k then e.amount else 0)
    ensures Total(p + [e]) == Total(p) + e.amount
  {
    assert (p + [e])[..|p|] == p;
  }

  lemma {:induction false} EntryWithin(p: seq<Entry>, i: nat)
    requires i < |p|
    ensures p[i].amount <= Paid(p, p[i].key) <= Total(p)
  {
    var n := |p| - 1;
    if i < n {
      EntryWithin(p[..n], i);
    }
    PaidWithin(p[..n], p[i].key);
  }

  lemma {:induction false} PaidWithin(p: seq<Entry>, k: Key)
    ensures Paid(p, k) <= Total(p)
  {
    if p != [] {
      PaidWithin(p[..|p| - 1], k);
    }
  }

  lemma {:induction false} Replaced(p: seq<Entry>, i: nat, amount: u64, k: Key)
    requires i < |p|
    ensures var q := p[i := Entry(p[i].key, amount)];
            && Paid(q, k) - Paid(p, k) == (if p[i].key == k then amount - p[i].amount else 0)
            && Total(q) - Total(p) == amount - p[i].amount
  {
    var n := |p| - 1;
    var q := p[i := Entry(p[i].key, amount)];
    if i < n {
      Replaced(p[..n], i, amount, k);
      assert q[..n] == p[..n][i := Entry(p[i].key, amount)];
    } else {
      assert q[..n] == p[..n];
    }
  }

  /** When the sum stays in range, crediting a key adds to what that key gets and to nothing else. */
  lemma CreditedPays(p: seq<Entry>, w: Key, amount: u64, k: Key)
    requires Total(p) + amount < U64
    ensures Paid(Credited(p, w, amount), k) == Paid(p, k) + (if k == w then amount else 0)
    ensures Total(Credited(p, w, amount)) == Total(p) + amount
  {
    hide Paid, Total, IndexOf;
    var i := IndexOf(p, w);
    if i < |p| {
      EntryWithin(p, i);
      Replaced(p, i, p[i].amount + amount, k);
    } else {
      PaidPush(p, Entry(w, amount), k);
    }
  }

  // ---------- shares ----------

  ghost function SharesAfter(adds: seq<Entry>): seq<Entry> {
    if adds == [] then []
    else Credited(SharesAfter(adds[..|adds| - 1]), adds[|adds| - 1].key, adds[|adds| - 1].amount)
  }

  lemma CreditedKeepsDistinct(p: seq<Entry>, k: Key, amount: u64)
    requires DistinctKeys(p)
    ensures DistinctKeys(Credited(p, k, amount))
  {
    hide IndexOf;
  }

  /** After any history of `add_share` calls every miner has one entry, and it holds the sum of the
      shares the miner was given, as long as all the shares together fit in 64 bits. */
  lemma {:induction false} EveryHistoryOfShares(adds: seq<Entry>, k: Key)
    ensures DistinctKeys(SharesAfter(adds))
    ensures Total(adds) < U64 ==> Paid(SharesAfter(adds), k) == Paid(adds, k) && Total(SharesAfter(adds)) == Total(adds)
  {
    if adds != [] {
      var init, last := adds[..|adds| - 1], adds[|adds| - 1];
      EveryHistoryOfShares(init, k);
      CreditedKeepsDistinct(SharesAfter(init), last.key, last.amount);
      if Total(adds) < U64 {
        CreditedPays(SharesAfter(init), last.key, last.amount, k);
      }
    }
  }

  // ---------- the reward ----------

  function PoolFee(c: Contract): u64 { Mul64(c.totalReward, c.poolFeePercent) / 10000 }

  function Remaining(c: Contract): u64 { Sub64(c.totalReward, PoolFee(c)) }

  function Bonus(c: Contract): u64 {
    if c.winner.Some? then Mul64(Remaining(c), c.winnerBonusPercent) / 10000 else 0
  }

  function Base(c: Contract): u64 { Sub64(Remaining(c), Bonus(c)) }

  function Sum64(p: seq<Entry>): u64 {
    if p == [] then 0 else Add64(Sum64(p[..|p| - 1]), p[|p| - 1].amount)
  }

  function ProRata(base: u64, shares: u64, total: u64): u64
    requires total > 0
  {
    Mul64(base, shares) / total
  }

  /** One entry per miner whose part is not zero. */
  function BasePayouts(shares: seq<Entry>, base: u64, total: u64): seq<Entry>
    requires total > 0
  {
    if shares == [] then []
    else
      var last := shares[|shares| - 1];
      var amount := ProRata(base, last.amount, total);
      BasePayouts(shares[..|shares| - 1], base, total) + (if amount > 0 then [Entry(last.key, amount)] else [])
  }

  function WithBonus(c: Contract, p: seq<Entry>): seq<Entry> {
    if c.winner.Some? && Bonus(c) > 0 then Credited(p, c.winner.value, Bonus(c)) else p
  }

  function WithRefund(c: Contract, p: seq<Entry>): seq<Entry> {
    var refund := Sub64(Remaining(c), Sum64(p));
    if refund > 0 then p + [Entry(c.customer, refund)] else p
  }

  function Payouts(c: Contract): seq<Entry> {
    var total := Sum64(c.minerShares);
    if c.minerShares == [] || total == 0 then []
    else WithRefund(c, WithBonus(c, BasePayouts(c.minerShares, Base(c), total)))
  }

  /** Percentages are at most 10000 (in hundredths of a percent) and the shares fit together. */
  ghost predicate Sound(c: Contract) {
    c.poolFeePercent <= 10000 && c.winnerBonusPercent <= 10000 && Total(c.minerShares) < U64
  }

  lemma {:induction false} SumIsTotal(p: seq<Entry>)
    requires Total(p) < U64
    ensures Sum64(p) == Total(p)
  {
    if p != [] {
      SumIsTotal(p[..|p| - 1]);
    }
  }

  lemma PercentWithin(x: u64, percent: u64)
    requires percent <= 10000
    ensures Mul64(x, percent) / 10000 <= x
  {
    hide Mul64;
    MulWithin(x, percent);
    Scaled(x, percent, 10000);
  }

  lemma Scaled(x: nat, a: nat, b: nat)
    requires a <= b
    ensures x * a <= x * b
  {
  }

  lemma ProRataExact(base: u64, shares: u64, total: u64)
    requires total > 0 && base * shares < U64
    ensures ProRata(base, shares, total) == base * shares / total
  {
    hide Mul64;
    MulExact(base, shares);
  }

  lemma InRange(x: nat)
    requires x < U64
    ensures x % U64 == x
  {
  }

  lemma MulExact(a: u64, b: u64)
    requires a * b < U64
    ensures Mul64(a, b) == a * b
  {
    assert a * b >= 0;
    InRange(a * b);
  }

  /** No subtraction underflows, even when a product wraps around. */
  lemma FeesWithin(c: Contract)
    requires Sound(c)
    ensures PoolFee(c) <= c.totalReward && Remaining(c) == c.totalReward - PoolFee(c)
    ensures Bonus(c) <= Remaining(c) && Base(c) == Remaining(c) - Bonus(c)
  {
    PercentWithin(c.totalReward, c.poolFeePercent);
    PercentWithin(Remaining(c), c.winnerBonusPercent);
  }

  lemma RateExactly(x: u64, percent: u64)
    requires x * percent < U64
    ensures var fee := Mul64(x, percent) / 10000; 10000 * fee <= x * percent < 10000 * (fee + 1)
  {
    hide Mul64;
    MulExact(x, percent);
  }

  /** The pool takes its percentage of the reward and the winner's bonus is the winner's percentage of
      what remains, each rounded down. */
  lemma RatesExact(c: Contract)
    requires c.totalReward * c.poolFeePercent < U64 && Remaining(c) * c.winnerBonusPercent < U64
    ensures 10000 * PoolFee(c) <= c.totalReward * c.poolFeePercent < 10000 * (PoolFee(c) + 1)
    ensures c.winner.Some? ==> 10000 * Bonus(c) <= Remaining(c) * c.winnerBonusPercent < 10000 * (Bonus(c) + 1)
    ensures c.winner.None? ==> Bonus(c) == 0
  {
    RateExactly(c.totalReward, c.poolFeePercent);
    RateExactly(Remaining(c), c.winnerBonusPercent);
    hide Mul64, Remaining;
  }

  /** total * floor(x / total) against x. */
  lemma FloorBounds(x: nat, total: nat)
    requires total > 0
    ensures total * (x / total) <= x < total * (x / total) + total
  {
  }

  lemma {:induction false} BasePartsWithin(shares: seq<Entry>, base: u64, total: u64)
    requires total > 0
    ensures total * Total(BasePayouts(shares, base, total)) <= base * Total(shares)
  {
    if shares != [] {
      var init, last := shares[..|shares| - 1], shares[|shares| - 1];
      var amount := ProRata(base, last.amount, total);
      BasePartsWithin(init, base, total);
      PushPart(BasePayouts(init, base, total), last.key, amount);
      hide Total, BasePayouts;
      FloorBounds(Mul64(base, last.amount), total);
      MulWithin(base, last.amount);
      Distribute(total, Total(BasePayouts(init, base, total)), amount);
      Distribute(base, Total(init), last.amount);
    }
  }

  lemma PushPart(p: seq<Entry>, k: Key, amount: u64)
    ensures Total(p + (if amount > 0 then [Entry(k, amount)] else [])) == Total(p) + amount
  {
    if amount > 0 { PaidPush(p, Entry(k, amount), k); } else { assert p + [] == p; }
  }

  lemma MulWithin(a: u64, b: u64)
    ensures Mul64(a, b) <= a * b
  {
    assert a * b >= 0;
  }

  lemma Distribute(x: nat, a: nat, b: nat)
    ensures x * (a + b) == x * a + x * b
  {
  }

  lemma CancelFactor(t: nat, a: nat, b: nat)
    requires t > 0 && t * a <= t * b
    ensures a <= b
  {
  }

  lemma BaseWithin(shares: seq<Entry>, base: u64)
    requires 0 < Total(shares) < U64
    ensures Total(BasePayouts(shares, base, Total(shares))) <= base
  {
    hide Total, BasePayouts;
    var t := Total(shares);
    BasePartsWithin(shares, base, t);
    assert base * t == t * base;
    CancelFactor(t, Total(BasePayouts(shares, base, t)), base);
  }

  /** What is left of the base after every miner's part. */
  ghost function Dust(c: Contract): int
    requires Total(c.minerShares) > 0 && Total(c.minerShares) < U64
  {
    Base(c) - Total(BasePayouts(c.minerShares, Base(c), Total(c.minerShares)))
  }

  lemma BonusStep(c: Contract, k: Key)
    requires Sound(c) && Total(c.minerShares) > 0
    ensures Dust(c) >= 0
    ensures var p := BasePayouts(c.minerShares, Base(c), Total(c.minerShares));
            && Paid(WithBonus(c, p), k) == Paid(p, k) + (if c.winner == Some(k) then Bonus(c) else 0)
            && Total(WithBonus(c, p)) == Total(p) + Bonus(c) == Remaining(c) - Dust(c)
  {
    hide Total, BasePayouts, Paid, Base, Bonus, Remaining, PoolFee;
    FeesWithin(c);
    BaseWithin(c.minerShares, Base(c));
    var p := BasePayouts(c.minerShares, Base(c), Total(c.minerShares));
    if c.winner.Some? {
      CreditedPays(p, c.winner.value, Bonus(c), k);
    } else {
      NoBonus(c);
    }
  }

  lemma NoBonus(c: Contract)
    requires c.winner.None?
    ensures Bonus(c) == 0
  {
  }

  /** Everyone gets the miner's part, the bonus if winner and the dust if customer. */
  lemma PayoutsExact(c: Contract, k: Key)
    requires Sound(c) && Total(c.minerShares) > 0
    ensures Paid(Payouts(c), k) == Paid(BasePayouts(c.minerShares, Base(c), Total(c.minerShares)), k)
              + (if c.winner == Some(k) then Bonus(c) else 0) + (if c.customer == k then Dust(c) else 0)
    ensures Total(Payouts(c)) == Remaining(c) && Dust(c) >= 0
  {
    assert c.minerShares != [];
    SumIsTotal(c.minerShares);
    BonusStep(c, k);
    hide Total, BasePayouts, Paid, Base, Bonus, Remaining, PoolFee, Dust, WithBonus, WithRefund;
    hide Sum64, Mul64, Add64, Sub64;
    RefundStep(c, WithBonus(c, BasePayouts(c.minerShares, Base(c), Total(c.minerShares))), k);
  }

  lemma RefundStep(c: Contract, p: seq<Entry>, k: Key)
    requires Total(p) <= Remaining(c)
    ensures Total(WithRefund(c, p)) == Remaining(c)
    ensures Paid(WithRefund(c, p), k) == Paid(p, k) + (if c.customer == k then Remaining(c) - Total(p) else 0)
  {
    hide Total, Paid, Remaining, Sum64;
    SumIsTotal(p);
    PaidPush(p, Entry(c.customer, Sub64(Remaining(c), Sum64(p))), k);
  }

  /** Payouts and pool fee add up to the reward exactly when somebody holds a share or nothing
      remains after the fee. */
  lemma ConservedIff(c: Contract)
    requires Sound(c)
    ensures Total(Payouts(c)) + PoolFee(c) == c.totalReward
            <==> Total(c.minerShares) > 0 || Remaining(c) == 0
  {
    FeesWithin(c);
    SumIsTotal(c.minerShares);
    if Total(c.minerShares) > 0 {
      PayoutsExact(c, c.customer);
    } else {
      hide Sum64, PoolFee, Remaining;
      assert Payouts(c) == [];
      assert Total([]) == 0;
    }
  }

  // ---------- exact parts and the size of the dust ----------

  /** No product wraps around. */
  ghost predicate ProductsFit(c: Contract) {
    forall i :: 0 <= i < |c.minerShares| ==> Base(c) * c.minerShares[i].amount < U64
  }

  ghost predicate AllFit(shares: seq<Entry>, base: u64) {
    forall i :: 0 <= i < |shares| ==> base * shares[i].amount < U64
  }

  lemma {:induction false} MinerPart(shares: seq<Entry>, base: u64, total: u64, i: nat)
    requires total > 0 && DistinctKeys(shares) && AllFit(shares, base) && i < |shares|
    ensures Paid(BasePayouts(shares, base, total), shares[i].key) == base * shares[i].amount / total
  {
    var n := |shares| - 1;
    var init, last := shares[..n], shares[n];
    var amount := ProRata(base, last.amount, total);
    ProRataExact(base, last.amount, total);
    assert AllFit(init, base);
    hide ProRata, AllFit;
    PushPaid(BasePayouts(init, base, total), last.key, amount, shares[i].key);
    if i < n {
      MinerPart(init, base, total, i);
      assert last.key != shares[i].key;
    } else {
      OutsiderPart(init, base, total, last.key);
    }
  }

  lemma PushPaid(p: seq<Entry>, key: Key, amount: u64, k: Key)
    ensures Paid(p + (if amount > 0 then [Entry(key, amount)] else []), k)
         == Paid(p, k) + (if key == k then amount else 0)
  {
    if amount > 0 { PaidPush(p, Entry(key, amount), k); } else { assert p + [] == p; }
  }

  lemma {:induction false} OutsiderPart(shares: seq<Entry>, base: u64, total: u64, k: Key)
    requires total > 0 && forall i :: 0 <= i < |shares| ==> shares[i].key != k
    ensures Paid(BasePayouts(shares, base, total), k) == 0
  {
    if shares != [] {
      var init, last := shares[..|shares| - 1], shares[|shares| - 1];
      OutsiderPart(init, base, total, k);
      PushPaid(BasePayouts(init, base, total), last.key, ProRata(base, last.amount, total), k);
    }
  }

  /** Every miner gets the floor of the pro-rata base, plus the bonus only if winner, plus the dust
      only if also the customer. */
  lemma MinerGetsProRata(c: Contract, i: nat)
    requires Sound(c) && ProductsFit(c) && DistinctKeys(c.minerShares)
    requires i < |c.minerShares| && Total(c.minerShares) > 0
    ensures var m := c.minerShares[i];
            Paid(Payouts(c), m.key) == Base(c) * m.amount / Total(c.minerShares)
              + (if c.winner == Some(m.key) then Bonus(c) else 0) + (if c.customer == m.key then Dust(c) else 0)
  {
    hide Total, BasePayouts, Paid, Base, Bonus, Payouts, Dust, DistinctKeys;
    MinerPart(c.minerShares, Base(c), Total(c.minerShares), i);
    PayoutsExact(c, c.minerShares[i].key);
  }

  /** n floors lose less than n units: each misses its quotient by at most (total - 1) / total. */
  ghost predicate Near(base: nat, total: nat, sum: nat, paid: nat, n: nat)
    requires total > 0
  {
    base * sum <= total * paid + (total - 1) * n
  }

  lemma {:induction false} PartsNearly(shares: seq<Entry>, base: u64, total: u64)
    requires total > 0 && AllFit(shares, base)
    ensures Near(base, total, Total(shares), Total(BasePayouts(shares, base, total)), |shares|)
  {
    if shares != [] {
      var init, last := shares[..|shares| - 1], shares[|shares| - 1];
      var amount := ProRata(base, last.amount, total);
      assert AllFit(init, base);
      PushPart(BasePayouts(init, base, total), last.key, amount);
      assert base * last.amount < U64;
      hide Near, ProRata, AllFit;
      PartsNearly(init, base, total);
      NearStep(base, total, Total(init), Total(BasePayouts(init, base, total)), |init|, last.amount);
    }
  }

  lemma NearStep(base: u64, total: u64, sum: nat, paid: nat, n: nat, share: u64)
    requires total > 0 && Near(base, total, sum, paid, n) && base * share < U64
    ensures Near(base, total, sum + share, paid + ProRata(base, share, total), n + 1)
  {
    ProRataExact(base, share, total);
    hide ProRata;
    var part := ProRata(base, share, total);
    FloorBounds(base * share, total);
    Distribute(total, paid, part);
    Distribute(base, sum, share);
    Distribute(total - 1, n, 1);
  }

  /** The dust returned to the customer is smaller than the number of miners. */
  lemma DustBelowMiners(c: Contract)
    requires Sound(c) && ProductsFit(c) && Total(c.minerShares) > 0
    ensures 0 <= Dust(c) < |c.minerShares|
  {
    var t, n := Total(c.minerShares), |c.minerShares|;
    var paid := Total(BasePayouts(c.minerShares, Base(c), t));
    assert n > 0;
    BonusStep(c, c.customer);
    PartsNearly(c.minerShares, Base(c), t);
    hide *;
    assert Base(c) * t <= t * paid + (t - 1) * n;
    FewerThan(Base(c), t, paid, n);
  }

  lemma FewerThan(base: nat, t: nat, paid: nat, n: nat)
    requires t > 0 && n > 0 && base * t <= t * paid + (t - 1) * n
    ensures base - paid < n
  {
    assert (base - paid) * t == base * t - t * paid;
    assert (t - 1) * n == n * t - n;
    SmallerFactor(t, base - paid, n);
  }

  lemma SmallerFactor(t: int, a: int, b: int)
    requires t > 0 && a * t < b * t
    ensures a < b
  {
  }

  // ---------- the contract, updated in place ----------

  class EscrowContract {
    var customer: Key
    var totalReward: u64
    var status: Status
    var createdHeight: u64
    var deadlineHeight: u64
    var winnerBonusPercent: u64
    var poolFeePercent: u64
    var minerShares: seq<Entry>
    var winner: Option<Key>

    ghost function C(): Contract
      reads this
    {
      Contract(customer, totalReward, status, createdHeight, deadlineHeight,
               winnerBonusPercent, poolFeePercent, minerShares, winner)
    }

    constructor (c: Key, reward: u64, created: u64, deadlineBlocks: u64)
      ensures C() == Contract(c, reward, Funded, created, Add64(created, deadlineBlocks), 200, 100, [], None)
    {
      customer, totalReward, status := c, reward, Funded;
      createdHeight, deadlineHeight := created, Add64(created, deadlineBlocks);
      winnerBonusPercent, poolFeePercent := 200, 100;
      minerShares, winner := [], None;
    }

    method AddShare(miner: Key, shares: u64)
      modifies this`minerShares
      ensures minerShares == Credited(old(minerShares), miner, shares)
    {
      var i := IndexOf(minerShares, miner);
      if i < |minerShares| {
        minerShares := minerShares[i := minerShares[i].(amount := Add64(minerShares[i].amount, shares))];
      } else {
        minerShares := minerShares + [Entry(miner, shares)];
      }
    }

    method SetWinner(key: Key)
      modifies this`winner, this`status
      ensures winner == Some(key) && status == Completed
    {
      winner, status := Some(key), Completed;
    }

    method DistributeReward() returns (payouts: seq<Entry>)
      ensures payouts == Payouts(C())
    {
      hide Add64, Mul64, Sub64, IndexOf, Sum64, BasePayouts;
      payouts := [];
      if minerShares == [] {
        return;
      }
      var poolFee := Mul64(totalReward, poolFeePercent) / 10000;
      var remaining := Sub64(totalReward, poolFee);
      var winnerBonus := if winner.Some? then Mul64(remaining, winnerBonusPercent) / 10000 else 0;
      var base := Sub64(remaining, winnerBonus);
      var totalShares := SumAmounts(minerShares);
      if totalShares == 0 {
        return;
      }
      payouts := BasePart(minerShares, base, totalShares);
      if winner.Some? && winnerBonus > 0 {
        var i := IndexOf(payouts, winner.value);
        if i < |payouts| {
          payouts := payouts[i := payouts[i].(amount := Add64(payouts[i].amount, winnerBonus))];
        } else {
          payouts := payouts + [Entry(winner.value, winnerBonus)];
        }
      }
      var totalPaid := SumAmounts(payouts);
      var refund := Sub64(remaining, totalPaid);
      if refund > 0 {
        payouts := payouts + [Entry(customer, refund)];
      }
    }

    /** The customer gets back everything but the pool fee. */
    method Refund() returns (payouts: seq<Entry>)
      modifies this`status
      ensures status == Refunded && payouts == [Entry(customer, Remaining(old(C())))]
      ensures poolFeePercent <= 10000 ==> payouts[0].amount + PoolFee(C()) == totalReward
    {
      status := Refunded;
      var poolFee := Mul64(totalReward, poolFeePercent) / 10000;
      if poolFeePercent <= 10000 { PercentWithin(totalReward, poolFeePercent); }
      payouts := [Entry(customer, Sub64(totalReward, poolFee))];
    }
  }

  method SumAmounts(p: seq<Entry>) returns (sum: u64)
    ensures sum == Sum64(p)
    ensures Total(p) < U64 ==> sum == Total(p)
  {
    sum := 0;
    for i := 0 to |p|
      invariant sum == Sum64(p[..i])
    {
      assert p[..i + 1][..i] == p[..i];
      sum := Add64(sum, p[i].amount);
    }
    assert p[..|p|] == p;
    if Total(p) < U64 { SumIsTotal(p); }
  }

  method BasePart(shares: seq<Entry>, base: u64, total: u64) returns (payouts: seq<Entry>)
    requires total > 0
    ensures payouts == BasePayouts(shares, base, total)
  {
    payouts := [];
    for i := 0 to |shares|
      invariant payouts == BasePayouts(shares[..i], base, total)
    {
      assert shares[..i + 1][..i] == shares[..i];
      var amount := ProRata(base, shares[i].amount, total);
      if amount > 0 {
        payouts := payouts + [Entry(shares[i].key, amount)];
      }
    }
    assert shares[..|shares|] == shares;
  }
}
