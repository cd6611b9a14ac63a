/** crates/aevum-core/src/economics.rs: block rewards, the closed-form emission and coinbases. */
module Economics {
  import opened Integers

  const SAT: nat := 100_000_000
  const INITIAL_REWARD: nat := 1_000_000_000_000         // 10_000 SAT
  const HALVING_INTERVAL: nat := 350_000
  const MAX_SUPPLY: nat := 37_100_000_000_000_000        // 371_000_000 SAT
  const FEE_BPS: nat := 10
  const DEV_SHARE_BPS: nat := 1000

  const TWO_INITIAL_INTERVAL: nat := 700_000_000_000_000_000   // 2 * INITIAL_REWARD * HALVING_INTERVAL

  /** `x >> n`. */
  function Shr(x: nat, n: nat): nat { if n == 0 then x else Shr(x, n - 1) / 2 }

  // ---------- rewards and their sum ----------

  function RewardInPeriod(n: nat): nat { if n >= 63 then 0 else Shr(INITIAL_REWARD, n) }

  function BlockReward(height: nat): nat { RewardInPeriod(height / HALVING_INTERVAL) }

  /** What the blocks below `height` pay in all: the specification of the emission. */
  function SumRewards(height: nat): nat {
    if height == 0 then 0 else SumRewards(height - 1) + BlockReward(height - 1)
  }

  /** The closed form for n full halving periods. */
  function Closed(n: nat): int {
    if n == 0 then 0
    else if n >= 63 then TWO_INITIAL_INTERVAL
    else TWO_INITIAL_INTERVAL - Shr(TWO_INITIAL_INTERVAL, n)
  }

  /** The O(1) formula before it is capped. */
  function Uncapped(height: nat): int {
    var h := Min(height, HALVING_INTERVAL * 63);
    Closed(h / HALVING_INTERVAL) + RewardInPeriod(h / HALVING_INTERVAL) * (h % HALVING_INTERVAL)
  }

  function Emitted(height: u64): int { Min(Uncapped(height), MAX_SUPPLY) }

  lemma {:induction false} ShrShrinks(x: nat, n: nat)
    ensures Shr(x, n) <= x
  {
    if n > 0 { ShrShrinks(x, n - 1); }
  }

  // ---------- full periods: the closed form against the sum ----------

  /** What n full periods pay. */
  function PeriodSum(n: nat): nat {
    if n == 0 then 0 else PeriodSum(n - 1) + HALVING_INTERVAL * RewardInPeriod(n - 1)
  }

  /** Blocks r into period n: all full periods, and r blocks at the current reward. */
  lemma {:induction false} SumWithinPeriod(n: nat, r: nat)
    requires r <= HALVING_INTERVAL
    ensures SumRewards(n * HALVING_INTERVAL + r) == PeriodSum(n) + r * RewardInPeriod(n)
    decreases n, r
  {
    if r == 0 {
      if n > 0 {
        SumWithinPeriod(n - 1, HALVING_INTERVAL);
        assert (n - 1) * HALVING_INTERVAL + HALVING_INTERVAL == n * HALVING_INTERVAL;
      }
    } else {
      SumWithinPeriod(n, r - 1);
      var h := n * HALVING_INTERVAL + r;
      assert (h - 1) / HALVING_INTERVAL == n;
      Distribute(r, RewardInPeriod(n));
    }
  }

  lemma Distribute(r: nat, x: nat)
    requires r > 0
    ensures r * x == (r - 1) * x + x
  {
  }

  /** Halving a multiple: scaling and shifting commute up to less than one unit of the scale. */
  lemma {:induction false} ShrScaled(n: nat)
    ensures var q, x := Shr(INITIAL_REWARD, n), Shr(TWO_INITIAL_INTERVAL, n);
            2 * HALVING_INTERVAL * q <= x < 2 * HALVING_INTERVAL * (q + 1)
  {
    hide Shr;
    if n == 0 {
      ShrNone(INITIAL_REWARD);
      ShrNone(TWO_INITIAL_INTERVAL);
    } else {
      ShrScaled(n - 1);
      ShrOne(INITIAL_REWARD, n);
      ShrOne(TWO_INITIAL_INTERVAL, n);
    }
  }

  /** Up to the twelfth halving the reward halves without remainder. */
  lemma {:induction false} ExactHalvings(n: nat)
    requires n <= 12
    ensures Shr(INITIAL_REWARD, n) == 244_140_625 * Pow2(12 - n)
    ensures Shr(TWO_INITIAL_INTERVAL, n) == 2 * HALVING_INTERVAL * Shr(INITIAL_REWARD, n)
  {
    hide Shr, Pow2;
    if n == 0 {
      TwelveHalvings();
      ShrNone(INITIAL_REWARD);
      ShrNone(TWO_INITIAL_INTERVAL);
    } else {
      ExactHalvings(n - 1);
      Pow2Step(12 - n);
      ShrOne(INITIAL_REWARD, n);
      ShrOne(TWO_INITIAL_INTERVAL, n);
    }
  }

  lemma TwelveHalvings()
    ensures Pow2(12) == 4096
  {
    EightMore(4);
    assert Pow2(4) == 16;
  }

  lemma Pow2Step(k: nat)
    ensures Pow2(k + 1) == 2 * Pow2(k)
  {
  }

  lemma ShrNone(x: nat)
    ensures Shr(x, 0) == x
  {
  }

  lemma ShrOne(x: nat, n: nat)
    requires n > 0
    ensures Shr(x, n) == Shr(x, n - 1) / 2
  {
  }

  lemma {:induction false} ShrVanishes()
    ensures Shr(TWO_INITIAL_INTERVAL, 63) == 0
  {
    ShrChain(20);
    ShrChain(40);
    ShrChain(60);
  }

  lemma ShrChain(n: nat)
    requires n == 20 || n == 40 || n == 60
    ensures n == 20 ==> Shr(TWO_INITIAL_INTERVAL, n) == 667_572_021_484
    ensures n == 40 ==> Shr(TWO_INITIAL_INTERVAL, n) == 636_646
    ensures n == 60 ==> Shr(TWO_INITIAL_INTERVAL, n) == 0
    decreases n
  {
    if n == 20 {
      ShrStep(0, TWO_INITIAL_INTERVAL);
    } else {
      ShrChain(n - 20);
      ShrStep(n - 20, if n == 40 then 667_572_021_484 else 636_646);
    }
  }

  /** Twenty halvings divide by 2^20. */
  lemma ShrStep(n: nat, v: nat)
    requires Shr(TWO_INITIAL_INTERVAL, n) == v
    ensures Shr(TWO_INITIAL_INTERVAL, n + 20) == v / 1_048_576
  {
    ShrFour(n, v);
    ShrFour(n + 4, v / 16);
    ShrFour(n + 8, v / 256);
    ShrFour(n + 12, v / 4096);
    ShrFour(n + 16, v / 65536);
  }

  lemma ShrFour(n: nat, v: nat)
    requires Shr(TWO_INITIAL_INTERVAL, n) == v
    ensures Shr(TWO_INITIAL_INTERVAL, n + 4) == v / 16
  {
    assert Shr(TWO_INITIAL_INTERVAL, n + 1) == v / 2;
    assert Shr(TWO_INITIAL_INTERVAL, n + 2) == v / 2 / 2;
    assert Shr(TWO_INITIAL_INTERVAL, n + 3) == v / 2 / 2 / 2;
  }

  lemma ClosedIs(n: nat)
    requires n <= 63
    ensures Closed(n) == TWO_INITIAL_INTERVAL - Shr(TWO_INITIAL_INTERVAL, n)
  {
    hide Shr;
    ShrNone(TWO_INITIAL_INTERVAL);
    ShrVanishes();
  }

  /** The closed form is exact for up to thirteen full periods and never below the true sum;
      beyond, it exceeds it by at most one satoshi per block. */
  lemma {:induction false} ClosedAgainstSum(n: nat)
    requires n <= 63
    ensures n <= 13 ==> Closed(n) == PeriodSum(n)
    ensures n > 13 ==> PeriodSum(n) <= Closed(n) <= PeriodSum(n) + HALVING_INTERVAL * (n - 13)
  {
    if n > 0 {
      hide Shr, Closed, Pow2;
      ClosedAgainstSum(n - 1);
      ClosedIs(n);
      ClosedIs(n - 1);
      ShrScaled(n - 1);
      ShrOne(TWO_INITIAL_INTERVAL, n);
      if n <= 13 {
        ExactHalvings(n - 1);
      }
    }
  }

  lemma {:induction false} NoRewardAfter(height: nat)
    requires height >= HALVING_INTERVAL * 63
    ensures SumRewards(height) == SumRewards(HALVING_INTERVAL * 63)
  {
    if height > HALVING_INTERVAL * 63 {
      NoRewardAfter(height - 1);
      assert (height - 1) / HALVING_INTERVAL >= 63;
    }
  }

  /** The uncapped formula against the sum of rewards, at every height: n full periods have passed,
      of which only the first 63 count. */
  lemma UncappedAgainstSum(height: nat)
    ensures var n := Min(height / HALVING_INTERVAL, 63);
            && SumRewards(height) <= Uncapped(height)
            && Uncapped(height) <= SumRewards(height) + (if n <= 13 then 0 else HALVING_INTERVAL * (n - 13))
  {
    var h := Min(height, HALVING_INTERVAL * 63);
    if h < height { NoRewardAfter(height); }
    var n, r := h / HALVING_INTERVAL, h % HALVING_INTERVAL;
    assert h == n * HALVING_INTERVAL + r && n == Min(height / HALVING_INTERVAL, 63);
    hide SumRewards;
    SumWithinPeriod(n, r);
    ClosedAgainstSum(n);
    Commute(r, RewardInPeriod(n));
  }

  lemma Commute(a: nat, b: nat)
    ensures a * b == b * a
  {
  }

  // ---------- the emission ----------

  lemma {:induction false} SumMonotone(a: nat, b: nat)
    requires a <= b
    ensures SumRewards(a) <= SumRewards(b)
    decreases b
  {
    if a < b { SumMonotone(a, b - 1); }
  }

  lemma FirstPeriod(height: nat)
    requires height <= HALVING_INTERVAL
    ensures SumRewards(height) == height * INITIAL_REWARD
  {
    SumWithinPeriod(0, height);
  }

  /** For every height the O(1) emission is the capped sum of all lower block rewards. */
  lemma EmittedIsCappedSum(height: u64)
    ensures Emitted(height) == Min(SumRewards(height), MAX_SUPPLY)
  {
    if height < HALVING_INTERVAL {
      FirstPeriod(height);
      assert Uncapped(height) == INITIAL_REWARD * height;
    } else {
      UncappedAgainstSum(height);
      FirstPeriod(HALVING_INTERVAL);
      SumMonotone(HALVING_INTERVAL, height);
    }
  }

  /** The cap is reached at height 37,100, long before the first halving. */
  lemma CapReachedEarly(height: u64)
    ensures Emitted(height) < MAX_SUPPLY <==> height < 37_100
    ensures Emitted(height) == Min(height * INITIAL_REWARD, MAX_SUPPLY)
  {
    EmittedIsCappedSum(height);
    if height <= HALVING_INTERVAL {
      FirstPeriod(height);
    } else {
      FirstPeriod(HALVING_INTERVAL);
      SumMonotone(HALVING_INTERVAL, height);
    }
  }

  // ---------- fees and coinbases ----------

  function SatMul(a: u64, b: u64): u64 { if a * b < U64 then a * b else U64 - 1 }

  function GrossFee(amount: u64): u64 {
    var g := SatMul(amount, FEE_BPS) / 10_000;
    if g >= 1 then g else 1
  }

  /** The miner's net fee and the developers' share. */
  function Fee(amount: u64): (u64, u64) {
    var gross := GrossFee(amount);
    var dev := SatMul(gross, DEV_SHARE_BPS) / 10_000;
    (gross - dev, dev)
  }

  /** The split loses nothing, the developers get a tenth rounded down, and the whole fee is at
      most the amount except when there is nothing to charge. */
  lemma FeeSplit(amount: u64)
    ensures Fee(amount).0 + Fee(amount).1 == GrossFee(amount) && Fee(amount).1 == GrossFee(amount) / 10
    ensures GrossFee(amount) <= amount <==> amount >= 1
  {
  }

  datatype CoinbaseOutput = CoinbaseOutput(owner: int, amount: u64, serial: u64, index: nat)
  datatype CoinbaseError = InvalidSupply | SupplyCapExceeded
  datatype CoinbaseResult = Minted(outputs: seq<CoinbaseOutput>) | Refused(error: CoinbaseError)

  function TotalMinted(outputs: seq<CoinbaseOutput>): nat {
    if outputs == [] then 0 else outputs[0].amount + TotalMinted(outputs[1..])
  }

  /** What a coinbase at this height pays: the block reward and the gross fee. */
  function Payout(height: u64, fees: u64): nat { BlockReward(height) + GrossFee(fees) }

  lemma {:induction false} RewardBound(n: nat)
    ensures RewardInPeriod(n) <= INITIAL_REWARD
  {
    ShrShrinks(INITIAL_REWARD, n);
  }

  /** `create_coinbase`, with its saturating arithmetic. */
  function Coinbase(miner: int, height: u64, fees: u64, dev: int, supply: u64, epoch: u64): CoinbaseResult {
    if supply > MAX_SUPPLY then Refused(InvalidSupply)
    else
      var minerReward := SatAdd(BlockReward(height), Fee(fees).0);
      var total := SatAdd(minerReward, Fee(fees).1);
      if SatAdd(supply, total) > MAX_SUPPLY then Refused(SupplyCapExceeded)
      else
        Minted([CoinbaseOutput(miner, minerReward, epoch, 0)]
               + (if Fee(fees).1 > 0 then [CoinbaseOutput(dev, Fee(fees).1, epoch, 1)] else []))
  }

  lemma {:induction false} MintedAppend(a: seq<CoinbaseOutput>, b: seq<CoinbaseOutput>)
    ensures TotalMinted(a + b) == TotalMinted(a) + TotalMinted(b)
  {
    if a == [] {
      assert a + b == b;
    } else {
      MintedAppend(a[1..], b);
      assert (a + b)[1..] == a[1..] + b;
    }
  }

  lemma MintedOne(o: CoinbaseOutput)
    ensures TotalMinted([o]) == o.amount
  {
    assert [o][1..] == [];
  }

  /** Nothing saturates: a coinbase is made exactly when reward and gross fee fit under the cap, and
      then pays exactly that much. */
  lemma CoinbaseExact(miner: int, height: u64, fees: u64, dev: int, supply: u64, epoch: u64)
    ensures var r := Coinbase(miner, height, fees, dev, supply, epoch);
            && (r.Minted? <==> supply + Payout(height, fees) <= MAX_SUPPLY)
            && (r.Minted? ==> TotalMinted(r.outputs) == Payout(height, fees))
            && (r == Refused(InvalidSupply) <==> supply > MAX_SUPPLY)
  {
    RewardBound(height / HALVING_INTERVAL);
    FeeSplit(fees);
    GrossBound(fees);
    hide RewardInPeriod, GrossFee, Fee, TotalMinted;
    var first := CoinbaseOutput(miner, SatAdd(BlockReward(height), Fee(fees).0), epoch, 0);
    MintedOne(first);
    if Fee(fees).1 > 0 {
      MintedOne(CoinbaseOutput(dev, Fee(fees).1, epoch, 1));
      MintedAppend([first], [CoinbaseOutput(dev, Fee(fees).1, epoch, 1)]);
    } else {
      assert [first] + [] == [first];
    }
  }

  /** Succeeds exactly when the payout fits under the cap, and then pays exactly that much: the
      reward and net fee to the miner, a positive developer share to the developers. */
  method CreateCoinbase(miner: int, height: u64, fees: u64, dev: int, supply: u64, epoch: u64)
      returns (r: CoinbaseResult)
    ensures r == Coinbase(miner, height, fees, dev, supply, epoch)
    ensures r.Minted? <==> supply + Payout(height, fees) <= MAX_SUPPLY
    ensures r.Minted? ==>
        && TotalMinted(r.outputs) == Payout(height, fees)
        && r.outputs[0] == CoinbaseOutput(miner, BlockReward(height) + Fee(fees).0, epoch, 0)
        && (Fee(fees).1 > 0 ==> r.outputs[1..] == [CoinbaseOutput(dev, Fee(fees).1, epoch, 1)])
        && (Fee(fees).1 == 0 ==> |r.outputs| == 1)
    ensures r == Refused(InvalidSupply) <==> supply > MAX_SUPPLY
  {
    hide RewardInPeriod, GrossFee, Fee, TotalMinted;
    CoinbaseExact(miner, height, fees, dev, supply, epoch);
    RewardBound(height / HALVING_INTERVAL);
    FeeSplit(fees);
    GrossBound(fees);
    if supply > MAX_SUPPLY {
      return Refused(InvalidSupply);
    }
    var reward: nat := BlockReward(height);
    var net, devCut := Fee(fees).0, Fee(fees).1;
    var minerReward := SatAdd(reward, net);
    var total := SatAdd(minerReward, devCut);
    if SatAdd(supply, total) > MAX_SUPPLY {
      return Refused(SupplyCapExceeded);
    }
    var outputs := [CoinbaseOutput(miner, minerReward, epoch, 0)];
    if devCut > 0 {
      outputs := outputs + [CoinbaseOutput(dev, devCut, epoch, 1)];
    }
    return Minted(outputs);
  }

  /** The gross fee is a thousandth of the amount, rounded down, but at least 1. */
  lemma GrossExactly(amount: u64)
    requires amount * FEE_BPS < U64
    ensures GrossFee(amount) == Max(1, amount / 1000)
  {
    assert amount * 10 / 10_000 == amount / 1000;
  }

  lemma GrossBound(amount: u64)
    ensures 1 <= GrossFee(amount) <= U64 / 10_000
  {
  }

  /** The arguments of one call, besides the supply. */
  datatype Attempt = Attempt(miner: int, height: u64, fees: u64, dev: int, epoch: u64)

  /** The supply and all outputs made by a series of calls, each given the supply so far. */
  datatype Issue = Issue(supply: u64, outputs: seq<CoinbaseOutput>)

  function AfterAttempts(supply: u64, attempts: seq<Attempt>): Issue {
    if attempts == [] then Issue(supply, [])
    else
      var before := AfterAttempts(supply, attempts[..|attempts| - 1]);
      var a := attempts[|attempts| - 1];
      match Coinbase(a.miner, a.height, a.fees, a.dev, before.supply, a.epoch)
      case Refused(_) => before
      case Minted(outputs) => Issue(SatAdd(before.supply, TotalMinted(outputs)), before.outputs + outputs)
  }

  /** Over any series of calls the supply grows by exactly the amounts of all outputs made and never
      passes the cap. */
  lemma {:induction false} SupplyStaysCapped(supply: u64, attempts: seq<Attempt>)
    requires supply <= MAX_SUPPLY
    ensures var after := AfterAttempts(supply, attempts);
            after.supply == supply + TotalMinted(after.outputs) && after.supply <= MAX_SUPPLY
  {
    hide Coinbase;
    if attempts != [] {
      SupplyStaysCapped(supply, attempts[..|attempts| - 1]);
      var before, a := AfterAttempts(supply, attempts[..|attempts| - 1]), attempts[|attempts| - 1];
      CoinbaseExact(a.miner, a.height, a.fees, a.dev, before.supply, a.epoch);
      var r := Coinbase(a.miner, a.height, a.fees, a.dev, before.supply, a.epoch);
      if r.Minted? { MintedAppend(before.outputs, r.outputs); }
    }
  }
}
