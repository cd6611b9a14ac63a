/** crates/aevum-core/src/state_root.rs: the state root as a commitment to the whole state. */
module StateRoot {
  import opened Integers
  import opened Collections
  import opened Bytes
  import opened Sorting
  import Merkle

  /** `jt_utxo.rs` is not part of this model: a UTXO is its nullifier, its amount and the rest of
      its content, and `consensus_bytes` is a parameter. */
  datatype JtUtxo = JtUtxo(nullifier: Hash, amount: u64, content: Bytes)
  type ConsensusBytes = JtUtxo -> Bytes

  datatype StateError =
    | SupplyMismatch(expected: u64, computed: u64)
    | SupplyOverflow
    | DuplicateNullifier(nullifier: Hash)
    | DuplicateUtxoNullifier(nullifier: Hash)

  datatype StateInput = StateInput(
    height: u64, supply: u64, utxos: seq<JtUtxo>, spent: seq<Hash>, dnaRoot: Hash, oracleRoot: Hash)

  datatype StateRootData = StateRootData(
    hash: Hash, blockHeight: u64, totalSupply: u64, dnaRoot: Hash, oracleRoot: Hash,
    utxoCount: nat, spentNullifierCount: nat, newUtxos: seq<JtUtxo>, spentNullifiers: seq<Hash>)

  datatype StatePreview = StatePreview(stateRoot: Hash, newTotalSupply: u64)

  const EMPTY_TREE: Bytes := Tag("AEVUM_EMPTY_TREE_V5")
  const NODE: Bytes := Tag("AEVUM_MERKLE_NODE_V5")
  const UTXO: Bytes := Tag("AEVUM_UTXO_V5")
  const NULLIFIER: Bytes := Tag("AEVUM_NULLIFIER_V5")
  const STATE: Bytes := Tag("AEVUM_STATE_ROOT_V5")

  // ---------- the checks ----------

  function TotalAmount(utxos: seq<JtUtxo>): nat {
    if utxos == [] then 0 else TotalAmount(utxos[..|utxos| - 1]) + utxos[|utxos| - 1].amount
  }

  lemma {:induction false} TotalAmountPrefix(utxos: seq<JtUtxo>, k: nat)
    requires k <= |utxos|
    ensures TotalAmount(utxos[..k]) <= TotalAmount(utxos)
    decreases |utxos| - k
  {
    if k == |utxos| {
      assert utxos[..k] == utxos;
    } else {
      TotalAmountPrefix(utxos, k + 1);
      assert utxos[..k + 1][..k] == utxos[..k];
    }
  }

  function Nullifiers(utxos: seq<JtUtxo>): (ns: seq<Hash>)
    ensures |ns| == |utxos|
  {
    seq<Hash>(|utxos|, i requires 0 <= i < |utxos| => utxos[i].nullifier)
  }

  /** The running `try_fold` with `checked_add`: it fails exactly when the whole sum overflows. */
  method CheckedSupply(utxos: seq<JtUtxo>) returns (total: Option<u64>)
    ensures total == if TotalAmount(utxos) < U64 then Some(TotalAmount(utxos)) else None
  {
    var acc: nat := 0;
    for i := 0 to |utxos|
      invariant acc == TotalAmount(utxos[..i]) < U64
    {
      assert utxos[..i + 1][..i] == utxos[..i];
      TotalAmountPrefix(utxos, i + 1);
      if acc + utxos[i].amount >= U64 {
        return None;
      }
      acc := acc + utxos[i].amount;
    }
    assert utxos[..|utxos|] == utxos;
    return Some(acc);
  }

  /** The first element that equals an earlier one. */
  ghost predicate IsFirstRepeat(s: seq<Hash>, k: nat) {
    k < |s| && s[k] in s[..k] && Distinct(s[..k])
  }

  /** The `seen` loop: reports the first repeated element, or that there is none. */
  method FindDuplicate(s: seq<Hash>) returns (dup: Option<Hash>)
    ensures dup.None? <==> Distinct(s)
    ensures dup.Some? ==> exists k: nat :: IsFirstRepeat(s, k) && s[k] == dup.value
  {
    var seen: set<Hash> := {};
    for i := 0 to |s|
      invariant seen == Elements(s[..i])
      invariant Distinct(s[..i])
    {
      if s[i] in seen {
        assert IsFirstRepeat(s, i);
        return Some(s[i]);
      }
      assert s[..i + 1] == s[..i] + [s[i]];
      seen := seen + {s[i]};
    }
    assert s[..|s|] == s;
    return None;
  }

  // ---------- the two trees ----------

  datatype Entry = Entry(key: Hash, value: Bytes)

  predicate EntryLeq(a: Entry, b: Entry) { LexLeq(a.key, b.key) }

  function LeafBytes(domain: Bytes, e: Entry): Bytes { domain + e.key + e.value }

  function LeafHashes(H: Hasher, domain: Bytes, entries: seq<Entry>): (l: seq<Hash>)
    ensures |l| == |entries|
  {
    seq<Hash>(|entries|, i requires 0 <= i < |entries| => H(LeafBytes(domain, entries[i])))
  }

  /** Root of a set of entries: the empty-tree hash, or the Merkle root of the leaves in key order. */
  function TreeRoot(H: Hasher, domain: Bytes, entries: seq<Entry>): Hash {
    if entries == [] then H(EMPTY_TREE)
    else
      var sorted := Sort(entries, EntryLeq);
      if sorted == [] then H(EMPTY_TREE) else Merkle.Root(H, NODE, LeafHashes(H, domain, sorted))
  }

  function UtxoEntries(cb: ConsensusBytes, utxos: seq<JtUtxo>): (es: seq<Entry>)
    ensures |es| == |utxos|
  {
    seq(|utxos|, i requires 0 <= i < |utxos| => Entry(utxos[i].nullifier, cb(utxos[i])))
  }

  function NullifierEntries(spent: seq<Hash>): (es: seq<Entry>)
    ensures |es| == |spent|
  {
    seq(|spent|, i requires 0 <= i < |spent| => Entry(spent[i], spent[i]))
  }

  function StateBytes(height: u64, supply: u64, utxoRoot: Hash, nullifierRoot: Hash, dna: Hash, oracle: Hash): Bytes {
    Concat([STATE, LE(height, 8), LE(supply, 8), utxoRoot, nullifierRoot, dna, oracle])
  }

  function StateHash(H: Hasher, cb: ConsensusBytes, s: StateInput): Hash {
    H(StateBytes(s.height, s.supply,
                 TreeRoot(H, UTXO, UtxoEntries(cb, s.utxos)),
                 TreeRoot(H, NULLIFIER, NullifierEntries(s.spent)), s.dnaRoot, s.oracleRoot))
  }

  /** When `compute_state_root` succeeds. */
  ghost predicate Consistent(s: StateInput) {
    s.supply == TotalAmount(s.utxos) && Distinct(Nullifiers(s.utxos)) && Distinct(s.spent)
  }

  /** The error that the checks, in source order, give for an input. */
  ghost predicate Explains(s: StateInput, e: StateError) {
    match e
    case SupplyOverflow => TotalAmount(s.utxos) >= U64
    case SupplyMismatch(expected, computed) => expected == s.supply != computed == TotalAmount(s.utxos)
    case DuplicateUtxoNullifier(n) =>
      && s.supply == TotalAmount(s.utxos)
      && exists k: nat :: IsFirstRepeat(Nullifiers(s.utxos), k) && Nullifiers(s.utxos)[k] == n
    case DuplicateNullifier(n) =>
      && s.supply == TotalAmount(s.utxos) && Distinct(Nullifiers(s.utxos))
      && exists k: nat :: IsFirstRepeat(s.spent, k) && s.spent[k] == n
  }

  lemma RepeatEndsDistinct(s: seq<Hash>, j: nat, k: nat)
    ensures IsFirstRepeat(s, j) && j < k <= |s| ==> !Distinct(s[..k])
  {
    if IsFirstRepeat(s, j) && j < k <= |s| {
      var i :| 0 <= i < j && s[..j][i] == s[j];
      assert s[..k][i] == s[i] && s[..k][j] == s[j];
    }
  }

  lemma FirstRepeatUnique(s: seq<Hash>, j: nat, k: nat)
    requires IsFirstRepeat(s, j) && IsFirstRepeat(s, k)
    ensures j == k
  {
    RepeatEndsDistinct(s, j, k);
    RepeatEndsDistinct(s, k, j);
  }

  /** An input has at most one error, so the full path and the light path report the same one. */
  lemma ErrorDetermined(s: StateInput, d: StateError, e: StateError)
    requires Explains(s, d) && Explains(s, e)
    ensures d == e
  {
    var ns := Nullifiers(s.utxos);
    forall j: nat, k: nat | IsFirstRepeat(ns, j) && IsFirstRepeat(ns, k) ensures j == k { FirstRepeatUnique(ns, j, k); }
    forall j: nat, k: nat | IsFirstRepeat(s.spent, j) && IsFirstRepeat(s.spent, k) ensures j == k {
      FirstRepeatUnique(s.spent, j, k);
    }
  }

  method ComputeTreeRoot(H: Hasher, domain: Bytes, entries: seq<Entry>) returns (root: Hash)
    ensures root == TreeRoot(H, domain, entries)
  {
    var sorted := Sort(entries, EntryLeq);
    if entries == [] || sorted == [] {
      return H(EMPTY_TREE);
    }
    root := Merkle.ComputeRoot(H, NODE, LeafHashes(H, domain, sorted));
  }

  /** The checks in source order, then the hash; `Ok` exactly on consistent input. */
  method ComputeStateRoot(H: Hasher, cb: ConsensusBytes, s: StateInput) returns (r: Result<StateRootData, StateError>)
    ensures r.Ok? <==> Consistent(s)
    ensures r.Ok? ==> r.value == StateRootData(StateHash(H, cb, s), s.height, s.supply, s.dnaRoot, s.oracleRoot,
                                               |s.utxos|, |s.spent|, s.utxos, s.spent)
    ensures r.Err? ==> Explains(s, r.error)
  {
    var computed := CheckedSupply(s.utxos);
    if computed.None? {
      return Err(SupplyOverflow);
    }
    if s.supply != computed.value {
      return Err(SupplyMismatch(s.supply, computed.value));
    }
    var dupUtxo := FindDuplicate(Nullifiers(s.utxos));
    if dupUtxo.Some? {
      return Err(DuplicateUtxoNullifier(dupUtxo.value));
    }
    var dupSpent := FindDuplicate(s.spent);
    if dupSpent.Some? {
      return Err(DuplicateNullifier(dupSpent.value));
    }
    var utxoRoot := ComputeTreeRoot(H, UTXO, UtxoEntries(cb, s.utxos));
    var nullifierRoot := ComputeTreeRoot(H, NULLIFIER, NullifierEntries(s.spent));
    var hash := H(StateBytes(s.height, s.supply, utxoRoot, nullifierRoot, s.dnaRoot, s.oracleRoot));
    return Ok(StateRootData(hash, s.height, s.supply, s.dnaRoot, s.oracleRoot,
                            |s.utxos|, |s.spent|, s.utxos, s.spent));
  }

  /** The light path: same verdict, and the same root as the full path. */
  method ComputeStatePreview(H: Hasher, cb: ConsensusBytes, s: StateInput) returns (r: Result<StatePreview, StateError>)
    ensures r.Ok? <==> Consistent(s)
    ensures r.Ok? ==> r.value == StatePreview(StateHash(H, cb, s), TotalAmount(s.utxos))
    ensures r.Err? ==> Explains(s, r.error)
  {
    var computed := CheckedSupply(s.utxos);
    if computed.None? {
      return Err(SupplyOverflow);
    }
    if s.supply != computed.value {
      return Err(SupplyMismatch(s.supply, computed.value));
    }
    var dupUtxo := FindDuplicate(Nullifiers(s.utxos));
    if dupUtxo.Some? {
      return Err(DuplicateUtxoNullifier(dupUtxo.value));
    }
    var dupSpent := FindDuplicate(s.spent);
    if dupSpent.Some? {
      return Err(DuplicateNullifier(dupSpent.value));
    }
    var utxoRoot := ComputeTreeRoot(H, UTXO, UtxoEntries(cb, s.utxos));
    var nullifierRoot := ComputeTreeRoot(H, NULLIFIER, NullifierEntries(s.spent));
    var hash := H(StateBytes(s.height, s.supply, utxoRoot, nullifierRoot, s.dnaRoot, s.oracleRoot));
    return Ok(StatePreview(hash, s.supply));
  }

  // ---------- a tree root is canonical ----------

  lemma EntryOrder()
    ensures TotalPreorder(EntryLeq)
  {
    forall a: Entry, b: Entry ensures EntryLeq(a, b) || EntryLeq(b, a) { LexTotal(a.key, b.key); }
    forall a: Entry, b: Entry, c: Entry | EntryLeq(a, b) && EntryLeq(b, c) ensures EntryLeq(a, c) {
      LexTransitive(a.key, b.key, c.key);
    }
  }

  ghost predicate DistinctKeys(es: seq<Entry>) {
    forall i, j :: 0 <= i < j < |es| ==> es[i].key != es[j].key
  }

  lemma KeysSeparate(es: seq<Entry>)
    requires DistinctKeys(es)
    ensures AntisymmetricOn(es, EntryLeq)
  {
    forall i, j | 0 <= i < |es| && 0 <= j < |es| && EntryLeq(es[i], es[j]) && EntryLeq(es[j], es[i])
      ensures es[i] == es[j]
    {
      LexAntisymmetric(es[i].key, es[j].key);
    }
  }

  lemma {:induction false} DistinctKeysMultiset(s: seq<Entry>, t: seq<Entry>)
    requires DistinctKeys(s) && multiset(s) == multiset(t)
    ensures DistinctKeys(t)
  {
    forall i, j | 0 <= i < j < |t| ensures t[i].key != t[j].key {
      var rest := t[..i] + t[i + 1..];
      assert t == t[..i] + [t[i]] + t[i + 1..];
      assert multiset(t) == multiset(rest) + multiset{t[i]};
      assert t[j] == rest[j - 1];
      assert t[j] in multiset(rest);
      assert t[i] in multiset(s) && t[j] in multiset(s);
      var a :| 0 <= a < |s| && s[a] == t[i];
      var b :| 0 <= b < |s| && s[b] == t[j];
      if a == b {
        assert multiset(t)[t[i]] >= 2;
        OccursTwice(s, t[i]);
      }
    }
  }

  lemma OccursTwice(s: seq<Entry>, e: Entry)
    requires multiset(s)[e] >= 2
    ensures !DistinctKeys(s)
  {
    var i :| 0 <= i < |s| && s[i] == e;
    var rest := s[..i] + s[i + 1..];
    assert s == s[..i] + [s[i]] + s[i + 1..];
    assert multiset(s) == multiset(rest) + multiset{e};
    assert e in multiset(rest);
    var j :| 0 <= j < |rest| && rest[j] == e;
    var j' := if j < i then j else j + 1;
    assert s[j'] == e && j' != i;
    assert s[i].key == s[j'].key;
  }

  /** Order never matters: any arrangement of the same entries has the same root. */
  lemma TreeRootOrderFree(H: Hasher, domain: Bytes, a: seq<Entry>, b: seq<Entry>)
    requires DistinctKeys(a) && multiset(a) == multiset(b)
    ensures TreeRoot(H, domain, a) == TreeRoot(H, domain, b)
  {
    EntryOrder();
    SortProps(a, EntryLeq);
    SortProps(b, EntryLeq);
    var sa, sb := Sort(a, EntryLeq), Sort(b, EntryLeq);
    DistinctKeysMultiset(a, sa);
    KeysSeparate(sa);
    SortedUnique(sa, sb, EntryLeq);
    assert |multiset(a)| == |a| && |multiset(b)| == |b|;
  }

  /** A leaf domain that differs from the node and empty-tree tags in its seventh byte. */
  predicate LeafDomain(d: Bytes) {
    |d| > 6 && d[6] != NODE[6] && d[6] != EMPTY_TREE[6]
  }

  ghost function TreeHashed(H: Hasher, domain: Bytes, entries: seq<Entry>): set<Bytes> {
    var sorted := Sort(entries, EntryLeq);
    {EMPTY_TREE}
    + (set i | 0 <= i < |sorted| :: LeafBytes(domain, sorted[i]))
    + Merkle.TreeBytes(H, NODE, LeafHashes(H, domain, sorted))
  }

  lemma LeafDetermined(d: Bytes, a: Entry, b: Entry)
    requires LeafBytes(d, a) == LeafBytes(d, b)
    ensures a == b
  {
    var p, q, k := LeafBytes(d, a), LeafBytes(d, b), |d|;
    assert p[k..k + 32] == a.key && q[k..k + 32] == b.key;
    assert p[k + 32..] == a.value && q[k + 32..] == b.value;
  }

  lemma LeavesProper(H: Hasher, d: Bytes, sorted: seq<Entry>, hashed: set<Bytes>)
    requires LeafDomain(d) && DistinctKeys(sorted) && CollisionFree(H, hashed)
    requires forall i :: 0 <= i < |sorted| ==> LeafBytes(d, sorted[i]) in hashed
    ensures Distinct(LeafHashes(H, d, sorted))
    ensures Merkle.LeavesHashed(H, NODE, LeafHashes(H, d, sorted), hashed)
  {
    var l := LeafHashes(H, d, sorted);
    forall i, j | 0 <= i < j < |l| ensures l[i] != l[j] {
      SameHash(H, hashed, LeafBytes(d, sorted[i]), LeafBytes(d, sorted[j]));
      if LeafBytes(d, sorted[i]) == LeafBytes(d, sorted[j]) {
        LeafDetermined(d, sorted[i], sorted[j]);
      }
    }
    forall i | 0 <= i < |l| ensures Merkle.LeafHashed(H, NODE, l[i], hashed) {
      var p := LeafBytes(d, sorted[i]);
      assert p[6] == d[6];
      assert p in hashed && H(p) == l[i] && !(NODE <= p);
    }
  }

  /** The root of a non-empty tree is not the empty-tree hash. */
  lemma NonEmptyRoot(H: Hasher, d: Bytes, entries: seq<Entry>, hashed: set<Bytes>)
    requires LeafDomain(d) && entries != [] && CollisionFree(H, hashed)
    requires TreeHashed(H, d, entries) <= hashed
    ensures TreeRoot(H, d, entries) != H(EMPTY_TREE)
  {
    EntryOrder();
    SortProps(entries, EntryLeq);
    hide Sort, Merkle.TreeBytes, Merkle.Root;
    var sorted := Sort(entries, EntryLeq);
    var p := RootBytes(H, NODE, d, sorted);
    SameHash(H, hashed, p, EMPTY_TREE);
  }

  /** Some hashed byte string behind the root carries the leaf domain's or the node tag's seventh byte. */
  lemma RootBytes(H: Hasher, node: Bytes, d: Bytes, sorted: seq<Entry>) returns (p: Bytes)
    requires |d| > 6 && |node| > 6 && sorted != []
    ensures |p| > 6 && (p[6] == d[6] || p[6] == node[6])
    ensures H(p) == Merkle.Root(H, node, LeafHashes(H, d, sorted))
    ensures p == LeafBytes(d, sorted[0]) || p in Merkle.TreeBytes(H, node, LeafHashes(H, d, sorted))
  {
    var l := LeafHashes(H, d, sorted);
    if |l| == 1 {
      p := LeafBytes(d, sorted[0]);
      assert p[6] == d[6];
    } else {
      Merkle.RootIsNode(H, node, l);
      p :| p in Merkle.TreeBytes(H, node, l) && node <= p && H(p) == Merkle.Root(H, node, l);
      assert p[6] == node[6];
    }
  }

  /** A root determines the entries, up to order. */
  lemma TreeRootInjective(H: Hasher, d: Bytes, a: seq<Entry>, b: seq<Entry>, hashed: set<Bytes>)
    requires LeafDomain(d) && DistinctKeys(a) && DistinctKeys(b) && CollisionFree(H, hashed)
    requires TreeHashed(H, d, a) <= hashed && TreeHashed(H, d, b) <= hashed
    requires TreeRoot(H, d, a) == TreeRoot(H, d, b)
    ensures multiset(a) == multiset(b)
  {
    if a == [] || b == [] {
      if a != [] { NonEmptyRoot(H, d, a, hashed); }
      if b != [] { NonEmptyRoot(H, d, b, hashed); }
    } else {
      EntryOrder();
      SortProps(a, EntryLeq);
      SortProps(b, EntryLeq);
      var sa, sb := Sort(a, EntryLeq), Sort(b, EntryLeq);
      DistinctKeysMultiset(a, sa);
      DistinctKeysMultiset(b, sb);
      forall i | 0 <= i < |sa| ensures LeafBytes(d, sa[i]) in hashed { }
      forall i | 0 <= i < |sb| ensures LeafBytes(d, sb[i]) in hashed { }
      LeavesProper(H, d, sa, hashed);
      LeavesProper(H, d, sb, hashed);
      Merkle.RootInjective(H, NODE, LeafHashes(H, d, sa), LeafHashes(H, d, sb), hashed);
      LeafListDetermined(H, d, sa, sb, hashed);
    }
  }

  lemma LeafListDetermined(H: Hasher, d: Bytes, sa: seq<Entry>, sb: seq<Entry>, hashed: set<Bytes>)
    requires CollisionFree(H, hashed) && LeafHashes(H, d, sa) == LeafHashes(H, d, sb)
    requires forall i :: 0 <= i < |sa| ==> LeafBytes(d, sa[i]) in hashed
    requires forall i :: 0 <= i < |sb| ==> LeafBytes(d, sb[i]) in hashed
    ensures sa == sb
  {
    assert |sa| == |LeafHashes(H, d, sa)| == |sb|;
    forall i | 0 <= i < |sa| ensures sa[i] == sb[i] {
      assert LeafHashes(H, d, sa)[i] == LeafHashes(H, d, sb)[i];
      SameHash(H, hashed, LeafBytes(d, sa[i]), LeafBytes(d, sb[i]));
      LeafDetermined(d, sa[i], sb[i]);
    }
  }

  // ---------- the state root is canonical ----------

  /** Every byte string hashed by one `compute_state_root` call. */
  ghost function Hashed(H: Hasher, cb: ConsensusBytes, s: StateInput): set<Bytes> {
    TreeHashed(H, UTXO, UtxoEntries(cb, s.utxos))
    + TreeHashed(H, NULLIFIER, NullifierEntries(s.spent))
    + {StateBytes(s.height, s.supply,
                  TreeRoot(H, UTXO, UtxoEntries(cb, s.utxos)),
                  TreeRoot(H, NULLIFIER, NullifierEntries(s.spent)), s.dnaRoot, s.oracleRoot)}
  }

  ghost predicate Injective(cb: ConsensusBytes) {
    forall u, v :: cb(u) == cb(v) ==> u == v
  }

  /** The state a root commits to: UTXOs and spent nullifiers as sets. */
  ghost predicate SameState(a: StateInput, b: StateInput) {
    && a.height == b.height && a.supply == b.supply
    && a.dnaRoot == b.dnaRoot && a.oracleRoot == b.oracleRoot
    && Elements(a.utxos) == Elements(b.utxos)
    && Elements(a.spent) == Elements(b.spent)
  }

  lemma StateBytesDetermined(h: u64, s: u64, u: Hash, n: Hash, d: Hash, o: Hash,
                             h': u64, s': u64, u': Hash, n': Hash, d': Hash, o': Hash)
    requires StateBytes(h, s, u, n, d, o) == StateBytes(h', s', u', n', d', o')
    ensures h == h' && s == s' && u == u' && n == n' && d == d' && o == o'
  {
    var p, q := [STATE, LE(h, 8), LE(s, 8), u, n, d, o], [STATE, LE(h', 8), LE(s', 8), u', n', d', o'];
    ConcatInjective(p, q);
    assert p[1] == q[1] && p[2] == q[2] && p[3] == q[3] && p[4] == q[4] && p[5] == q[5] && p[6] == q[6];
    U64LEInjective(h, h');
    U64LEInjective(s, s');
  }

  lemma EntriesOfSameSets(cb: ConsensusBytes, a: seq<JtUtxo>, b: seq<JtUtxo>)
    requires Distinct(Nullifiers(a)) && Distinct(Nullifiers(b)) && Elements(a) == Elements(b)
    ensures multiset(UtxoEntries(cb, a)) == multiset(UtxoEntries(cb, b))
  {
    var ea, eb := UtxoEntries(cb, a), UtxoEntries(cb, b);
    DistinctUtxoEntries(cb, a);
    DistinctUtxoEntries(cb, b);
    forall x ensures x in Elements(ea) <==> x in Elements(eb) {
      if x in ea {
        var i :| 0 <= i < |ea| && ea[i] == x;
        assert a[i] in Elements(b);
        var j :| 0 <= j < |b| && b[j] == a[i];
        assert eb[j] == x;
      }
      if x in eb {
        var i :| 0 <= i < |eb| && eb[i] == x;
        assert b[i] in Elements(a);
        var j :| 0 <= j < |a| && a[j] == b[i];
        assert ea[j] == x;
      }
    }
    DistinctMultiset(ea, eb);
  }

  lemma DistinctUtxoEntries(cb: ConsensusBytes, a: seq<JtUtxo>)
    requires Distinct(Nullifiers(a))
    ensures DistinctKeys(UtxoEntries(cb, a)) && Distinct(UtxoEntries(cb, a))
  {
    var es := UtxoEntries(cb, a);
    forall i, j | 0 <= i < j < |es| ensures es[i].key != es[j].key {
      assert Nullifiers(a)[i] != Nullifiers(a)[j];
    }
  }

  lemma UtxosOfSameEntries(cb: ConsensusBytes, a: seq<JtUtxo>, b: seq<JtUtxo>)
    requires Injective(cb) && multiset(UtxoEntries(cb, a)) == multiset(UtxoEntries(cb, b))
    ensures Elements(a) <= Elements(b)
  {
    var ea, eb := UtxoEntries(cb, a), UtxoEntries(cb, b);
    forall u | u in Elements(a) ensures u in Elements(b) {
      var i :| 0 <= i < |a| && a[i] == u;
      assert ea[i] in multiset(eb);
      var j :| 0 <= j < |eb| && eb[j] == ea[i];
      assert cb(b[j]) == cb(a[i]);
    }
  }

  lemma NullifierEntriesDetermine(a: seq<Hash>, b: seq<Hash>)
    requires Distinct(a) && Distinct(b)
    ensures multiset(NullifierEntries(a)) == multiset(NullifierEntries(b)) <==> Elements(a) == Elements(b)
  {
    var ea, eb := NullifierEntries(a), NullifierEntries(b);
    if multiset(ea) == multiset(eb) {
      forall n ensures n in Elements(a) <==> n in Elements(b) {
        if n in a {
          var i :| 0 <= i < |a| && a[i] == n;
          assert ea[i] in multiset(eb);
          var j :| 0 <= j < |eb| && eb[j] == ea[i];
          assert b[j] == n;
        }
        if n in b {
          var i :| 0 <= i < |b| && b[i] == n;
          assert eb[i] in multiset(ea);
          var j :| 0 <= j < |ea| && ea[j] == eb[i];
          assert a[j] == n;
        }
      }
    }
    if Elements(a) == Elements(b) {
      forall x ensures x in Elements(ea) <==> x in Elements(eb) {
        if x in ea {
          var i :| 0 <= i < |ea| && ea[i] == x;
          assert a[i] in Elements(b);
          var j :| 0 <= j < |b| && b[j] == a[i];
          assert eb[j] == x;
        }
        if x in eb {
          var i :| 0 <= i < |eb| && eb[i] == x;
          assert b[i] in Elements(a);
          var j :| 0 <= j < |a| && a[j] == b[i];
          assert ea[j] == x;
        }
      }
      assert Distinct(ea) && Distinct(eb);
      DistinctMultiset(ea, eb);
    }
  }

  lemma UtxoRootDetermines(H: Hasher, cb: ConsensusBytes, a: seq<JtUtxo>, b: seq<JtUtxo>, hashed: set<Bytes>)
    requires Distinct(Nullifiers(a)) && Distinct(Nullifiers(b)) && Injective(cb) && CollisionFree(H, hashed)
    requires TreeHashed(H, UTXO, UtxoEntries(cb, a)) <= hashed && TreeHashed(H, UTXO, UtxoEntries(cb, b)) <= hashed
    requires TreeRoot(H, UTXO, UtxoEntries(cb, a)) == TreeRoot(H, UTXO, UtxoEntries(cb, b))
    ensures Elements(a) == Elements(b)
  {
    DistinctUtxoEntries(cb, a);
    DistinctUtxoEntries(cb, b);
    TreeRootInjective(H, UTXO, UtxoEntries(cb, a), UtxoEntries(cb, b), hashed);
    UtxosOfSameEntries(cb, a, b);
    UtxosOfSameEntries(cb, b, a);
  }

  lemma NullifierRootDetermines(H: Hasher, a: seq<Hash>, b: seq<Hash>, hashed: set<Bytes>)
    requires Distinct(a) && Distinct(b) && CollisionFree(H, hashed)
    requires TreeHashed(H, NULLIFIER, NullifierEntries(a)) <= hashed
    requires TreeHashed(H, NULLIFIER, NullifierEntries(b)) <= hashed
    requires TreeRoot(H, NULLIFIER, NullifierEntries(a)) == TreeRoot(H, NULLIFIER, NullifierEntries(b))
    ensures Elements(a) == Elements(b)
  {
    assert DistinctKeys(NullifierEntries(a)) && DistinctKeys(NullifierEntries(b));
    NullifierEntriesDetermine(a, b);
    TreeRootInjective(H, NULLIFIER, NullifierEntries(a), NullifierEntries(b), hashed);
  }

  /** Same state, in whatever order it is listed: same root, for every hash function. */
  lemma SameStateSameRoot(H: Hasher, cb: ConsensusBytes, a: StateInput, b: StateInput)
    requires Consistent(a) && Consistent(b) && SameState(a, b)
    ensures StateHash(H, cb, a) == StateHash(H, cb, b)
  {
    EntriesOfSameSets(cb, a.utxos, b.utxos);
    DistinctUtxoEntries(cb, a.utxos);
    TreeRootOrderFree(H, UTXO, UtxoEntries(cb, a.utxos), UtxoEntries(cb, b.utxos));
    NullifierEntriesDetermine(a.spent, b.spent);
    assert DistinctKeys(NullifierEntries(a.spent));
    TreeRootOrderFree(H, NULLIFIER, NullifierEntries(a.spent), NullifierEntries(b.spent));
  }

  /** Same root: same state, unless the two computations hashed two colliding byte strings. */
  lemma SameRootSameState(H: Hasher, cb: ConsensusBytes, a: StateInput, b: StateInput)
    requires Consistent(a) && Consistent(b) && Injective(cb)
    requires CollisionFree(H, Hashed(H, cb, a) + Hashed(H, cb, b))
    requires StateHash(H, cb, a) == StateHash(H, cb, b)
    ensures SameState(a, b)
  {
    var hashed := Hashed(H, cb, a) + Hashed(H, cb, b);
    var ua, ub := UtxoEntries(cb, a.utxos), UtxoEntries(cb, b.utxos);
    var na, nb := NullifierEntries(a.spent), NullifierEntries(b.spent);
    SameHash(H, hashed,
             StateBytes(a.height, a.supply, TreeRoot(H, UTXO, ua), TreeRoot(H, NULLIFIER, na), a.dnaRoot, a.oracleRoot),
             StateBytes(b.height, b.supply, TreeRoot(H, UTXO, ub), TreeRoot(H, NULLIFIER, nb),
                        b.dnaRoot, b.oracleRoot));
    StateBytesDetermined(
      a.height, a.supply, TreeRoot(H, UTXO, ua), TreeRoot(H, NULLIFIER, na), a.dnaRoot, a.oracleRoot,
      b.height, b.supply, TreeRoot(H, UTXO, ub), TreeRoot(H, NULLIFIER, nb), b.dnaRoot, b.oracleRoot);
    UtxoRootDetermines(H, cb, a.utxos, b.utxos, hashed);
    NullifierRootDetermines(H, a.spent, b.spent, hashed);
  }

  /** The state root is a canonical commitment: equal if and only if the states are. */
  lemma StateRootCanonical(H: Hasher, cb: ConsensusBytes, a: StateInput, b: StateInput)
    requires Consistent(a) && Consistent(b) && Injective(cb)
    requires CollisionFree(H, Hashed(H, cb, a) + Hashed(H, cb, b))
    ensures StateHash(H, cb, a) == StateHash(H, cb, b) <==> SameState(a, b)
  {
    if SameState(a, b) {
      SameStateSameRoot(H, cb, a, b);
    }
    if StateHash(H, cb, a) == StateHash(H, cb, b) {
      SameRootSameState(H, cb, a, b);
    }
  }

  /** `genesis_state_root` is the root of the empty state at height 0. */
  lemma GenesisRoot(H: Hasher, cb: ConsensusBytes)
    ensures var e := StateInput(0, 0, [], [], ZeroHash(), ZeroHash());
            Consistent(e)
            && StateHash(H, cb, e) == H(StateBytes(0, 0, H(EMPTY_TREE), H(EMPTY_TREE), ZeroHash(), ZeroHash()))
  {
  }
}
