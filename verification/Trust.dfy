/** crates/aevum-consensus/src/trust.rs: delegates, their quorum and the root that commits to them. */
module Trust {
  import opened Integers
  import opened Collections
  import opened Bytes

  const DOMAIN_TRUST_ROOT: Bytes := Tag("AEVUM_TRUST_ROOT_V6")

  datatype State = State(
    version: u16, epoch: u64, genesis: Hash, delegates: set<Hash>,
    minQuorum: nat, maxQuorum: nat, maxDelegates: nat, trustRoot: Hash)

  datatype TrustError =
    | NotAuthorized
    | AlreadyDelegate
    | DelegateLimitReached
    | VoterNotDelegate
    | NoQuorum(have: nat, need: nat)

  // ---------- the iteration order of a BTreeSet ----------

  predicate IsLeast(x: Hash, s: set<Hash>) {
    x in s && forall y :: y in s ==> LexLeq(x, y)
  }

  lemma {:induction false} LeastExists(s: set<Hash>)
    requires s != {}
    ensures exists x: Hash :: IsLeast(x, s)
  {
    var a :| a in s;
    LexTotal(a, a);
    if s == {a} {
      assert IsLeast(a, s);
    } else {
      var rest := s - {a};
      LeastExists(rest);
      var m: Hash :| IsLeast(m, rest);
      LexTotal(a, m);
      var x := if LexLeq(a, m) then a else m;
      forall y | y in s ensures LexLeq(x, y) {
        if x == a && y != a { LexTransitive(a, m, y); }
      }
      assert IsLeast(x, s);
    }
  }

  /** The elements in ascending byte order. */
  ghost function Ascending(s: set<Hash>): seq<Hash> {
    if s == {} then []
    else
      LeastExists(s);
      var x: Hash :| IsLeast(x, s);
      [x] + Ascending(s - {x})
  }

  lemma LeastUnique(x: Hash, y: Hash, s: set<Hash>)
    requires IsLeast(x, s) && IsLeast(y, s)
    ensures x == y
  {
    LexAntisymmetric(x, y);
  }

  lemma {:induction false} AscendingElements(s: set<Hash>)
    ensures |Ascending(s)| == |s| && Elements(Ascending(s)) == s
  {
    if s != {} {
      LeastExists(s);
      var x: Hash :| IsLeast(x, s) && Ascending(s) == [x] + Ascending(s - {x});
      AscendingElements(s - {x});
      forall y ensures y in Ascending(s) <==> y in s {
        assert y in Ascending(s) <==> y == x || y in Elements(Ascending(s - {x}));
      }
    }
  }

  lemma AscendingStep(s: set<Hash>, x: Hash)
    requires IsLeast(x, s)
    ensures Ascending(s) == [x] + Ascending(s - {x})
  {
    LeastExists(s);
    var y: Hash :| IsLeast(y, s) && Ascending(s) == [y] + Ascending(s - {y});
    LeastUnique(x, y, s);
  }

  // ---------- the root ----------

  ghost function RootBytes(version: u16, epoch: u64, delegates: set<Hash>): Bytes {
    DOMAIN_TRUST_ROOT + LE(version, 2) + LE(epoch, 8) + Concat(Ascending(delegates))
  }

  ghost function RootOf(H: Hasher, t: State): Hash { H(RootBytes(t.version, t.epoch, t.delegates)) }

  ghost function Rerooted(H: Hasher, t: State): State { t.(trustRoot := RootOf(H, t)) }

  ghost predicate VerifyRoot(H: Hasher, t: State) { RootOf(H, t) == t.trustRoot }

  /** The hashed bytes determine version, epoch and the set of delegates. */
  lemma RootBytesDetermine(v: u16, e: u64, a: set<Hash>, w: u16, f: u64, b: set<Hash>)
    requires RootBytes(v, e, a) == RootBytes(w, f, b)
    ensures v == w && e == f && a == b
  {
    var p, q := Concat(Ascending(a)), Concat(Ascending(b));
    hide LE, Concat, Ascending;
    SplitEqual(DOMAIN_TRUST_ROOT + LE(v, 2) + LE(e, 8), p, DOMAIN_TRUST_ROOT + LE(w, 2) + LE(f, 8), q);
    SplitEqual(DOMAIN_TRUST_ROOT + LE(v, 2), LE(e, 8), DOMAIN_TRUST_ROOT + LE(w, 2), LE(f, 8));
    SplitEqual(DOMAIN_TRUST_ROOT, LE(v, 2), DOMAIN_TRUST_ROOT, LE(w, 2));
    U64LEInjective(e, f);
    WidthFacts();
    FromLEOfLE(v, 2);
    FromLEOfLE(w, 2);
    ConcatHashes(Ascending(a), Ascending(b));
    AscendingElements(a);
    AscendingElements(b);
  }

  /** Two models whose roots verify and agree have the same version, epoch and delegates, unless
      their two preimages collide. */
  lemma RootCommits(H: Hasher, s: State, t: State)
    requires VerifyRoot(H, s) && VerifyRoot(H, t) && s.trustRoot == t.trustRoot
    requires NoCollision(H, RootBytes(s.version, s.epoch, s.delegates), RootBytes(t.version, t.epoch, t.delegates))
    ensures s.version == t.version && s.epoch == t.epoch && s.delegates == t.delegates
  {
    hide RootBytes;
    RootBytesDetermine(s.version, s.epoch, s.delegates, t.version, t.epoch, t.delegates);
  }

  // ---------- operations ----------

  /** `quorum`, with the saturating product of `usize`. */
  function Quorum(t: State): nat {
    Min(Max(Min(2 * Max(|t.delegates|, 1), U64 - 1) / 3, t.minQuorum), t.maxQuorum)
  }

  predicate CanEndorse(t: State, pk: Hash) { pk == t.genesis || pk in t.delegates }

  function Voters(from: Hash, endorsements: seq<Hash>): set<Hash> { (set e | e in endorsements) + {from} }

  function Refusal(t: State, from: Hash, to: Hash, endorsements: seq<Hash>): Option<TrustError> {
    if to in t.delegates then Some(AlreadyDelegate)
    else if |t.delegates| >= t.maxDelegates then Some(DelegateLimitReached)
    else if !CanEndorse(t, from) then Some(NotAuthorized)
    else if from == t.genesis then None
    else if !(Voters(from, endorsements) <= t.delegates) then Some(VoterNotDelegate)
    else if |Voters(from, endorsements)| < Quorum(t) then Some(NoQuorum(|Voters(from, endorsements)|, Quorum(t)))
    else None
  }

  function JoinRefusal(t: State, candidate: Hash, endorsements: seq<Hash>): Option<TrustError> {
    var voters := set e | e in endorsements;
    if candidate == t.genesis then None
    else if candidate in t.delegates then Some(AlreadyDelegate)
    else if exists v :: v in voters && !CanEndorse(t, v) then Some(VoterNotDelegate)
    else if |voters| < Quorum(t) then Some(NoQuorum(|voters|, Quorum(t)))
    else None
  }

  ghost function Delegated(H: Hasher, t: State, from: Hash, to: Hash, endorsements: seq<Hash>): State {
    if Refusal(t, from, to, endorsements).None? then Rerooted(H, t.(delegates := t.delegates + {to})) else t
  }

  ghost function Revoked(H: Hasher, t: State, d: Hash): State {
    if d in t.delegates then Rerooted(H, t.(delegates := t.delegates - {d})) else t
  }

  ghost function Advanced(H: Hasher, t: State): State {
    Rerooted(H, t.(epoch := if t.epoch < U64 - 1 then t.epoch + 1 else t.epoch))
  }

  ghost function NewGenesis(H: Hasher, genesis: Hash): State {
    Rerooted(H, State(1, 0, genesis, {genesis}, 3, 9, 10000, ZeroHash()))
  }

  datatype Op =
    | OpDelegate(from: Hash, to: Hash, endorsements: seq<Hash>)
    | OpRevoke(delegate: Hash)
    | OpAdvanceEpoch

  ghost function Step(H: Hasher, t: State, op: Op): State {
    match op
    case OpDelegate(from, to, endorsements) => Delegated(H, t, from, to, endorsements)
    case OpRevoke(d) => Revoked(H, t, d)
    case OpAdvanceEpoch => Advanced(H, t)
  }

  ghost function Run(H: Hasher, t: State, ops: seq<Op>): State {
    if ops == [] then t else Step(H, Run(H, t, ops[..|ops| - 1]), ops[|ops| - 1])
  }

  // ---------- what every run keeps ----------

  /** The parameters no operation changes. */
  ghost predicate Standard(t: State) { t.minQuorum == 3 && t.maxQuorum == 9 && t.maxDelegates == 10000 }

  ghost predicate Inv(H: Hasher, t: State) {
    Standard(t) && VerifyRoot(H, t) && |t.delegates| <= t.maxDelegates
  }

  lemma StepInv(H: Hasher, t: State, op: Op)
    requires Inv(H, t)
    ensures Inv(H, Step(H, t, op)) && Step(H, t, op).genesis == t.genesis
  {
    hide RootBytes, Quorum, Voters;
  }

  /** In every run from genesis the stored root verifies and the delegates stay within the limit. */
  lemma {:induction false} EveryRunVerifies(H: Hasher, genesis: Hash, ops: seq<Op>)
    ensures Inv(H, Run(H, NewGenesis(H, genesis), ops)) && Run(H, NewGenesis(H, genesis), ops).genesis == genesis
  {
    hide Inv, Step;
    if ops == [] {
      GenesisInv(H, genesis);
    } else {
      EveryRunVerifies(H, genesis, ops[..|ops| - 1]);
      StepInv(H, Run(H, NewGenesis(H, genesis), ops[..|ops| - 1]), ops[|ops| - 1]);
    }
  }

  lemma GenesisInv(H: Hasher, genesis: Hash)
    ensures Inv(H, NewGenesis(H, genesis))
  {
    hide RootBytes;
  }

  /** Without the genesis key a delegate is added exactly by a quorum of delegates. */
  lemma DelegateExactly(t: State, from: Hash, to: Hash, endorsements: seq<Hash>)
    requires from != t.genesis
    ensures Refusal(t, from, to, endorsements).None? <==>
            && to !in t.delegates && |t.delegates| < t.maxDelegates
            && Voters(from, endorsements) <= t.delegates
            && |Voters(from, endorsements)| >= Quorum(t)
  {
    assert from in Voters(from, endorsements);
    hide Quorum, Voters;
  }

  ghost predicate WithoutGenesis(t: State, ops: seq<Op>) {
    forall i :: 0 <= i < |ops| && ops[i].OpDelegate? ==> ops[i].from != t.genesis
  }

  lemma StepCannotGrow(H: Hasher, t: State, op: Op)
    requires Standard(t) && |t.delegates| < 3 && (op.OpDelegate? ==> op.from != t.genesis)
    ensures Step(H, t, op).delegates <= t.delegates && Standard(Step(H, t, op)) && Step(H, t, op).genesis == t.genesis
  {
    hide RootOf, Voters, Refusal;
    if op.OpDelegate? {
      DelegateExactly(t, op.from, op.to, op.endorsements);
      var voters := Voters(op.from, op.endorsements);
      if voters <= t.delegates { SubsetSize(voters, t.delegates); }
    }
  }

  /** With fewer than three delegates no sequence of steps without the genesis key adds one. */
  lemma {:induction false} NoGrowthBelowThree(H: Hasher, t: State, ops: seq<Op>)
    requires Standard(t) && |t.delegates| < 3 && WithoutGenesis(t, ops)
    ensures Run(H, t, ops).delegates <= t.delegates
    ensures Standard(Run(H, t, ops)) && Run(H, t, ops).genesis == t.genesis
  {
    if ops != [] {
      hide Step;
      var init := ops[..|ops| - 1];
      assert WithoutGenesis(t, init);
      NoGrowthBelowThree(H, t, init);
      SubsetSize(Run(H, t, init).delegates, t.delegates);
      StepCannotGrow(H, Run(H, t, init), ops[|ops| - 1]);
    }
  }

  // ---------- overlapping quorums ----------

  lemma OverlapBySize(d: set<Hash>, v: set<Hash>, w: set<Hash>)
    requires v <= d && w <= d && |v| + |w| > |d|
    ensures v * w != {}
  {
    if v * w == {} {
      assert |v + w| == |v| + |w|;
      SubsetSize(v + w, d);
    }
  }

  lemma QuorumMajority(t: State)
    requires Standard(t) && |t.delegates| <= 17
    ensures 2 * Quorum(t) > |t.delegates|
  {
  }

  /** Two quorums of the same at most 17 delegates have a common voter. */
  lemma QuorumsOverlap(t: State, f1: Hash, to1: Hash, e1: seq<Hash>, f2: Hash, to2: Hash, e2: seq<Hash>)
    requires Standard(t) && |t.delegates| <= 17 && f1 != t.genesis && f2 != t.genesis
    requires Refusal(t, f1, to1, e1).None? && Refusal(t, f2, to2, e2).None?
    ensures Voters(f1, e1) * Voters(f2, e2) != {}
  {
    hide Refusal, Quorum, Voters;
    QuorumMajority(t);
    DelegateExactly(t, f1, to1, e1);
    DelegateExactly(t, f2, to2, e2);
    OverlapBySize(t.delegates, Voters(f1, e1), Voters(f2, e2));
  }

  lemma {:induction false} SubsetOfSize(d: set<Hash>, k: nat)
    requires k <= |d|
    ensures exists v: set<Hash> :: v <= d && |v| == k
  {
    if k == |d| {
      assert d <= d && |d| == k;
    } else {
      var x :| x in d;
      SubsetOfSize(d - {x}, k);
      var v: set<Hash> :| v <= d - {x} && |v| == k;
      assert v <= d;
    }
  }

  /** A set of nine delegates can act through one of them other than the genesis key. */
  lemma NineSuffice(t: State, v: set<Hash>, to: Hash)
    requires Standard(t) && to !in t.delegates && |t.delegates| < t.maxDelegates
    requires v <= t.delegates && |v| == 9
    ensures exists f: Hash, e: seq<Hash> :: f != t.genesis && Voters(f, e) == v && Refusal(t, f, to, e).None?
  {
    AscendingElements(v);
    var e := Ascending(v);
    SubsetSize(v, {t.genesis} + v);
    if v <= {t.genesis} { SubsetSize(v, {t.genesis}); }
    var f :| f in v && f != t.genesis;
    assert Voters(f, e) == v;
    assert Quorum(t) <= 9;
    hide Refusal, Voters, Quorum;
    DelegateExactly(t, f, to, e);
  }

  /** Two calls against one state can pass with no voter in common. */
  ghost predicate DisjointCallsPass(t: State, to: Hash) {
    exists v: set<Hash>, w: set<Hash> :: v !! w && CallPasses(t, to, v) && CallPasses(t, to, w)
  }

  ghost predicate CallPasses(t: State, to: Hash, voters: set<Hash>) {
    exists f: Hash, e: seq<Hash> :: f != t.genesis && Voters(f, e) == voters && Refusal(t, f, to, e).None?
  }

  /** The quorum is capped at nine, so quorums are sure to overlap exactly up to 17 delegates. */
  lemma OverlapIffAtMost17(t: State, to: Hash)
    requires Standard(t) && to !in t.delegates && |t.delegates| < t.maxDelegates
    ensures DisjointCallsPass(t, to) <==> |t.delegates| >= 18
  {
    if |t.delegates| >= 18 {
      TwoNines(t.delegates);
      var v, w :| v <= t.delegates && w <= t.delegates && |v| == 9 && |w| == 9 && v !! w;
      NineSuffice(t, v, to);
      NineSuffice(t, w, to);
      assert CallPasses(t, to, v) && CallPasses(t, to, w);
    }
    if DisjointCallsPass(t, to) && |t.delegates| <= 17 {
      var v, w :| v !! w && CallPasses(t, to, v) && CallPasses(t, to, w);
      PassingOverlap(t, to, v, w);
    }
  }

  lemma PassingOverlap(t: State, to: Hash, v: set<Hash>, w: set<Hash>)
    requires Standard(t) && |t.delegates| <= 17 && CallPasses(t, to, v) && CallPasses(t, to, w)
    ensures v * w != {}
  {
    var f1: Hash, e1: seq<Hash> :| f1 != t.genesis && Voters(f1, e1) == v && Refusal(t, f1, to, e1).None?;
    var f2: Hash, e2: seq<Hash> :| f2 != t.genesis && Voters(f2, e2) == w && Refusal(t, f2, to, e2).None?;
    QuorumsOverlap(t, f1, to, e1, f2, to, e2);
  }

  lemma TwoNines(d: set<Hash>)
    requires |d| >= 18
    ensures exists v: set<Hash>, w: set<Hash> :: v <= d && w <= d && |v| == 9 && |w| == 9 && v !! w
  {
    SubsetOfSize(d, 9);
    var v: set<Hash> :| v <= d && |v| == 9;
    assert |d - v| == |d| - 9;
    SubsetOfSize(d - v, 9);
    var w: set<Hash> :| w <= d - v && |w| == 9;
    assert v <= d && w <= d && v !! w;
  }

  // ---------- joining ----------

  /** Voters who can add a delegate can also vouch for the same candidate's joining. */
  lemma QuorumAlsoAdmits(t: State, from: Hash, to: Hash, endorsements: seq<Hash>)
    requires from != t.genesis && Refusal(t, from, to, endorsements).None?
    ensures JoinRefusal(t, to, endorsements + [from]).None?
  {
    hide Quorum;
    var all := set e | e in endorsements + [from];
    assert all == Voters(from, endorsements);
  }

  /** Exactly who may join: the genesis key; or a candidate who is no delegate yet and is vouched for
      by a quorum of different keys, all of them delegates or the genesis key. */
  lemma JoinExactly(t: State, candidate: Hash, endorsements: seq<Hash>)
    ensures JoinRefusal(t, candidate, endorsements).None? <==>
            candidate == t.genesis
            || (&& candidate !in t.delegates
                && Elements(endorsements) <= t.delegates + {t.genesis}
                && |Elements(endorsements)| >= Quorum(t))
  {
    hide Quorum;
    assert (set e | e in endorsements) == Elements(endorsements);
  }

  // ---------- adding by the genesis key, and removing ----------

  /** The genesis key adds anybody who is no delegate yet, as long as there is room, alone. */
  lemma GenesisDelegates(t: State, to: Hash, endorsements: seq<Hash>)
    ensures Refusal(t, t.genesis, to, endorsements).None? <==>
            to !in t.delegates && |t.delegates| < t.maxDelegates
  {
    hide Quorum, Voters;
  }

  /** Adding adds exactly the new delegate, revoking removes exactly the named one, and advancing
      changes no delegate; only advancing changes the epoch. */
  lemma StepsChangeExactly(H: Hasher, t: State, op: Op)
    ensures var u := Step(H, t, op);
            && (op.OpAdvanceEpoch? || u.epoch == t.epoch)
            && (op.OpDelegate? ==>
                  u.delegates
                  == t.delegates + (if Refusal(t, op.from, op.to, op.endorsements).None? then {op.to} else {}))
            && (op.OpRevoke? ==> u.delegates == t.delegates - {op.delegate})
            && (op.OpAdvanceEpoch? ==> u.epoch == SatAdd(t.epoch, 1) && u.delegates == t.delegates)
  {
    hide RootBytes, Refusal;
  }

  /** A revoked key stays out of the delegates until a call adds it again. */
  lemma {:induction false} RevokedStaysOut(H: Hasher, t: State, d: Hash, ops: seq<Op>)
    requires d !in t.delegates
    requires forall i :: 0 <= i < |ops| && ops[i].OpDelegate? ==> ops[i].to != d
    ensures d !in Run(H, t, ops).delegates
  {
    if ops != [] {
      hide Step;
      RevokedStaysOut(H, t, d, ops[..|ops| - 1]);
      StepsChangeExactly(H, Run(H, t, ops[..|ops| - 1]), ops[|ops| - 1]);
    }
  }

  /** The quorum: two thirds of the delegates, rounded down, between 3 and 9. */
  lemma QuorumExactly(t: State)
    requires Standard(t)
    ensures |t.delegates| <= 5 ==> Quorum(t) == 3
    ensures 5 <= |t.delegates| <= 14 ==> 3 * Quorum(t) <= 2 * |t.delegates| < 3 * (Quorum(t) + 1)
    ensures |t.delegates| >= 14 ==> Quorum(t) == 9
  {
  }

  // ---------- the model, updated in place ----------

  class TrustModel {
    var trustVersion: u16
    var currentEpoch: u64
    var genesisBootstrap: Hash
    var delegates: set<Hash>
    var minQuorum: nat
    var maxQuorum: nat
    var maxDelegates: nat
    var trustRoot: Hash

    ghost function T(): State
      reads this
    {
      State(trustVersion, currentEpoch, genesisBootstrap, delegates, minQuorum, maxQuorum, maxDelegates, trustRoot)
    }

    constructor (H: Hasher, genesis: Hash)
      ensures T() == NewGenesis(H, genesis)
    {
      hide RootBytes;
      trustVersion, currentEpoch, genesisBootstrap := 1, 0, genesis;
      delegates := {};
      minQuorum, maxQuorum, maxDelegates := 3, 9, 10000;
      trustRoot := ZeroHash();
      new;
      RecomputeTrustRoot(H);
      delegates := delegates + {genesis};
      assert delegates == {genesis};
      RecomputeTrustRoot(H);
    }

    method RootPreimage() returns (bytes: Bytes)
      ensures bytes == RootBytes(trustVersion, currentEpoch, delegates)
    {
      assert Concat([]) == [] && Ascending({}) == [];
      hide LE, Concat, Ascending, IsLeast;
      bytes := DOMAIN_TRUST_ROOT + LE(trustVersion, 2) + LE(currentEpoch, 8);
      ghost var head := bytes;
      var rest := delegates;
      ghost var done := [];
      while rest != {}
        invariant bytes == head + Concat(done) && Ascending(delegates) == done + Ascending(rest)
      {
        LeastExists(rest);
        var d: Hash :| d in rest && IsLeast(d, rest);
        AscendingStep(rest, d);
        ConcatAppend(done, [d]);
        assert Concat([d]) == d;
        assert done + ([d] + Ascending(rest - {d})) == done + [d] + Ascending(rest - {d});
        bytes := bytes + d;
        done := done + [d];
        rest := rest - {d};
      }
      assert done + [] == done;
    }

    method RecomputeTrustRoot(H: Hasher)
      modifies this`trustRoot
      ensures T() == Rerooted(H, old(T()))
    {
      var bytes := RootPreimage();
      trustRoot := H(bytes);
    }

    method ComputeQuorum() returns (q: nat)
      ensures q == Quorum(T())
    {
      var n := Max(|delegates|, 1);
      q := Min(Max(Min(2 * n, U64 - 1) / 3, minQuorum), maxQuorum);
    }

    method Delegate(H: Hasher, from: Hash, to: Hash, endorsements: seq<Hash>) returns (r: Result<(), TrustError>)
      modifies this`delegates, this`trustRoot
      ensures T() == Delegated(H, old(T()), from, to, endorsements)
      ensures match Refusal(old(T()), from, to, endorsements)
              case Some(e) => r == Err(e)
              case None => r == Ok(())
    {
      hide Quorum, RootOf;
      if to in delegates {
        return Err(AlreadyDelegate);
      }
      if |delegates| >= maxDelegates {
        return Err(DelegateLimitReached);
      }
      if from != genesisBootstrap && from !in delegates {
        return Err(NotAuthorized);
      }
      if from != genesisBootstrap {
        var quorum := ComputeQuorum();
        var voters := (set e | e in endorsements) + {from};
        if !(voters <= delegates) {
          return Err(VoterNotDelegate);
        }
        if |voters| < quorum {
          return Err(NoQuorum(|voters|, quorum));
        }
      }
      delegates := delegates + {to};
      RecomputeTrustRoot(H);
      return Ok(());
    }

    method Revoke(H: Hasher, d: Hash) returns (removed: bool)
      modifies this`delegates, this`trustRoot
      ensures removed == (d in old(delegates)) && T() == Revoked(H, old(T()), d)
    {
      hide RootOf;
      removed := d in delegates;
      if removed {
        delegates := delegates - {d};
        RecomputeTrustRoot(H);
      }
    }

    method AdvanceEpoch(H: Hasher)
      modifies this`currentEpoch, this`trustRoot
      ensures T() == Advanced(H, old(T()))
    {
      hide RootOf;
      if currentEpoch < U64 - 1 {
        currentEpoch := currentEpoch + 1;
      }
      RecomputeTrustRoot(H);
    }

    method CheckRoot(H: Hasher) returns (ok: bool)
      ensures ok == VerifyRoot(H, T())
    {
      var bytes := RootPreimage();
      ok := H(bytes) == trustRoot;
    }

    method CanJoin(candidate: Hash, endorsements: seq<Hash>) returns (r: Result<(), TrustError>)
      ensures match JoinRefusal(T(), candidate, endorsements)
              case Some(e) => r == Err(e)
              case None => r == Ok(())
    {
      hide Quorum;
      if candidate == genesisBootstrap {
        return Ok(());
      }
      if candidate in delegates {
        return Err(AlreadyDelegate);
      }
      var quorum := ComputeQuorum();
      var voters := set e | e in endorsements;
      if exists v :: v in voters && v != genesisBootstrap && v !in delegates {
        return Err(VoterNotDelegate);
      }
      if |voters| < quorum {
        return Err(NoQuorum(|voters|, quorum));
      }
      return Ok(());
    }
  }
}
