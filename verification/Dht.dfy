/** crates/aevum-p2p/src/dht.rs: the routing table and the search for the closest living nodes. */
module Dht {
  import opened Integers
  import opened Bytes
  import opened Sorting

  const K_BUCKETS: nat := 256
  const K: nat := 8

  datatype Node = Node(id: Hash, addr: int, lastSeen: u64)

  type Bucket = seq<Node>
  type Table = seq<Bucket>

  // ---------- exclusive or ----------

  /** Exclusive or of the lowest k bits. */
  function Xor(k: nat, a: nat, b: nat): (r: nat)
    ensures r < Pow2(k)
  {
    if k == 0 then 0 else 2 * Xor(k - 1, a / 2, b / 2) + (if a % 2 == b % 2 then 0 else 1)
  }

  lemma {:induction false} XorCancel(k: nat, a: nat, b: nat, t: nat)
    requires a < Pow2(k) && b < Pow2(k) && Xor(k, a, t) == Xor(k, b, t)
    ensures a == b
  {
    if k > 0 {
      XorCancel(k - 1, a / 2, b / 2, t / 2);
    }
  }

  lemma {:induction false} XorZero(k: nat, a: nat)
    requires a < Pow2(k)
    ensures Xor(k, a, 0) == a && Xor(k, 0, a) == a
  {
    if k > 0 {
      XorZero(k - 1, a / 2);
    }
  }

  function XorByte(a: byte, b: byte): byte {
    Widths();
    Xor(8, a, b)
  }

  function Distance(a: Hash, b: Hash): (d: Hash) {
    seq(32, i requires 0 <= i < 32 => XorByte(a[i], b[i]))
  }

  lemma DistanceCancel(a: Hash, b: Hash, t: Hash)
    requires Distance(a, t) == Distance(b, t)
    ensures a == b
  {
    Widths();
    forall i | 0 <= i < 32 ensures a[i] == b[i] {
      assert Distance(a, t)[i] == Distance(b, t)[i];
      XorCancel(8, a[i], b[i], t[i]);
    }
  }

  // ---------- distances as numbers ----------

  /** The big-endian integer of a byte string: the 256-bit XOR distance. */
  function BE(s: Bytes): nat {
    if s == [] then 0 else 256 * BE(s[..|s| - 1]) + s[|s| - 1]
  }

  lemma {:induction false} BEBound(s: Bytes)
    ensures BE(s) < Pow256(|s|)
  {
    if s != [] {
      BEBound(s[..|s| - 1]);
    }
  }

  lemma {:induction false} BEInjective(a: Bytes, b: Bytes)
    requires |a| == |b| && BE(a) == BE(b)
    ensures a == b
    decreases |a|
  {
    if a != [] {
      var n := |a| - 1;
      BEInjective(a[..n], b[..n]);
      assert a == a[..n] + [a[n]] && b == b[..n] + [b[n]];
    }
  }

  lemma Regroup(x: nat, y: nat)
    ensures x * (256 * y) == 256 * (x * y)
  {
  }

  lemma {:induction false} BEConcat(a: Bytes, b: Bytes)
    ensures BE(a + b) == BE(a) * Pow256(|b|) + BE(b)
    decreases |b|
  {
    if b == [] {
      assert a + b == a;
    } else {
      var n := |b| - 1;
      BEConcat(a, b[..n]);
      assert (a + b)[..|a + b| - 1] == a + b[..n];
      Regroup(BE(a), Pow256(n));
    }
  }

  /** `u256_from_bytes`: four big-endian words. */
  function Word(d: Hash, i: nat): u64
    requires i < 4
  {
    WidthFacts();
    BEBound(d[8 * i..8 * i + 8]);
    BE(d[8 * i..8 * i + 8])
  }

  function Words(d: Hash): seq<u64> { [Word(d, 0), Word(d, 1), Word(d, 2), Word(d, 3)] }

  /** The order Rust gives `[u64; 4]`. */
  predicate WordsLeq(a: seq<u64>, b: seq<u64>)
    requires |a| == |b| == 4
  {
    if a[0] != b[0] then a[0] < b[0]
    else if a[1] != b[1] then a[1] < b[1]
    else if a[2] != b[2] then a[2] < b[2]
    else a[3] <= b[3]
  }

  lemma WordsValue(d: Hash)
    ensures BE(d) == ((Word(d, 0) * U64 + Word(d, 1)) * U64 + Word(d, 2)) * U64 + Word(d, 3)
  {
    WidthFacts();
    hide BE, Pow256;
    BEConcat(d[..8], d[8..16]);
    BEConcat(d[..16], d[16..24]);
    BEConcat(d[..24], d[24..32]);
    assert d[..8] == d[0..8] && d[..8] + d[8..16] == d[..16] && d[..16] + d[16..24] == d[..24];
    assert d[..24] + d[24..32] == d;
  }

  lemma HigherWordDecides(x: nat, y: nat, u: u64, v: u64)
    ensures x * U64 + u <= y * U64 + v <==> x < y || (x == y && u <= v)
  {
  }

  /** Sorting by the four-word key is sorting by XOR distance. */
  lemma WordsLeqIsNumeric(a: Hash, b: Hash)
    ensures WordsLeq(Words(a), Words(b)) <==> BE(a) <= BE(b)
  {
    WordsValue(a);
    WordsValue(b);
    hide Word, BE;
    var a0, a1, a2, a3 := Word(a, 0), Word(a, 1), Word(a, 2), Word(a, 3);
    var b0, b1, b2, b3 := Word(b, 0), Word(b, 1), Word(b, 2), Word(b, 3);
    HigherWordDecides(a0, b0, a1, b1);
    HigherWordDecides(b0, a0, b1, a1);
    HigherWordDecides(a0 * U64 + a1, b0 * U64 + b1, a2, b2);
    HigherWordDecides(b0 * U64 + b1, a0 * U64 + a1, b2, a2);
    HigherWordDecides((a0 * U64 + a1) * U64 + a2, (b0 * U64 + b1) * U64 + b2, a3, b3);
  }

  // ---------- bucket numbers ----------

  /** The first non-zero byte at or after position i, or the length. */
  function FirstNonZero(d: Bytes, i: nat): (j: nat)
    requires i <= |d|
    ensures i <= j <= |d| && (j < |d| ==> d[j] != 0)
    ensures forall k :: i <= k < j ==> d[k] == 0
    decreases |d| - i
  {
    if i == |d| || d[i] != 0 then i else FirstNonZero(d, i + 1)
  }

  function BucketIndex(d: Hash): (k: nat)
    ensures k < K_BUCKETS
  {
    var i := FirstNonZero(d, 0);
    if i == 32 then 0
    else
      Widths();
      Log2Below(d[i], 8);
      i * 8 + Log2(d[i])
  }

  lemma EightHigher(x: nat, c: byte)
    requires x > 0
    ensures Log2(256 * x + c) == Log2(x) + 8
  {
    var y := 256 * x + c;
    assert y / 2 / 2 / 2 / 2 / 2 / 2 / 2 / 2 == x;
    assert Log2(y) == 1 + Log2(y / 2);
    assert Log2(y / 2) == 1 + Log2(y / 2 / 2);
    assert Log2(y / 2 / 2) == 1 + Log2(y / 2 / 2 / 2);
    assert Log2(y / 2 / 2 / 2) == 1 + Log2(y / 2 / 2 / 2 / 2);
    assert Log2(y / 2 / 2 / 2 / 2) == 1 + Log2(y / 2 / 2 / 2 / 2 / 2);
    assert Log2(y / 2 / 2 / 2 / 2 / 2) == 1 + Log2(y / 2 / 2 / 2 / 2 / 2 / 2);
    assert Log2(y / 2 / 2 / 2 / 2 / 2 / 2) == 1 + Log2(y / 2 / 2 / 2 / 2 / 2 / 2 / 2);
  }

  lemma {:induction false} BELog2(s: Bytes, i: nat)
    requires i < |s| && s[i] != 0 && (forall k :: 0 <= k < i ==> s[k] == 0)
    ensures BE(s) > 0 && Log2(BE(s)) == 8 * (|s| - 1 - i) + Log2(s[i])
  {
    hide Log2;
    var n := |s| - 1;
    if i == n {
      BEZeros(s[..n]);
    } else {
      BELog2(s[..n], i);
      EightHigher(BE(s[..n]), s[n]);
    }
  }

  lemma {:induction false} BEZeros(s: Bytes)
    requires forall k :: 0 <= k < |s| ==> s[k] == 0
    ensures BE(s) == 0
  {
    if s != [] {
      BEZeros(s[..|s| - 1]);
    }
  }

  /** Two nodes share a bucket exactly when their distances have the same highest set bit, although
      the numbering of the buckets does not follow the distances. */
  lemma SameBucketIffSameHighBit(d: Hash, e: Hash)
    requires BE(d) > 0 && BE(e) > 0
    ensures BucketIndex(d) == BucketIndex(e) <==> Log2(BE(d)) == Log2(BE(e))
  {
    hide BE, BucketIndex, Log2;
    BucketPosition(d);
    BucketPosition(e);
  }

  lemma BucketPosition(d: Hash)
    requires BE(d) > 0
    ensures var b := BucketIndex(d); Log2(BE(d)) == 8 * (31 - b / 8) + b % 8
  {
    hide BE, FirstNonZero, Log2;
    var i := FirstNonZero(d, 0);
    if i == 32 {
      BEZeros(d);
    } else {
      Widths();
      Log2Below(d[i], 8);
      BELog2(d, i);
    }
  }

  // ---------- updating the table ----------

  function Slot(own: Hash, id: Hash): (k: nat)
    ensures k < K_BUCKETS
  {
    BucketIndex(Distance(own, id))
  }

  function IndexOf(b: Bucket, id: Hash): (i: nat)
    ensures i <= |b| && (i < |b| ==> b[i].id == id)
    ensures forall k :: 0 <= k < i ==> b[k].id != id
  {
    if b == [] then 0 else if b[0].id == id then 0 else 1 + IndexOf(b[1..], id)
  }

  predicate SeenLeq(a: Node, b: Node) { a.lastSeen <= b.lastSeen }

  /** An update in place, an append, or the oldest node replaced. */
  function AddedTo(b: Bucket, n: Node): Bucket {
    var i := IndexOf(b, n.id);
    if i < |b| then b[i := n]
    else if |b| < K then b + [n]
    else
      var s := Sort(b, SeenLeq);
      if s == [] then [n] else s[0 := n]
  }

  function Added(own: Hash, t: Table, n: Node): Table
    requires |t| == K_BUCKETS
  {
    if n.id == own then t else t[Slot(own, n.id) := AddedTo(t[Slot(own, n.id)], n)]
  }

  /** `now - last_seen < timeout`, with the wrap-around of unsigned subtraction. */
  predicate Alive(n: Node, now: u64, timeout: u64) {
    (now - n.lastSeen) % U64 < timeout
  }

  function Living(b: Bucket, now: u64, timeout: u64): Bucket {
    if b == [] then []
    else if Alive(b[0], now, timeout) then [b[0]] + Living(b[1..], now, timeout)
    else Living(b[1..], now, timeout)
  }

  function Cleaned(t: Table, now: u64, timeout: u64): (t': Table)
    ensures |t'| == |t|
  {
    seq(|t|, k requires 0 <= k < |t| => Living(t[k], now, timeout))
  }

  ghost predicate DistinctIds(b: Bucket) {
    forall i, j :: 0 <= i < j < |b| ==> b[i].id != b[j].id
  }

  ghost predicate BucketOk(own: Hash, b: Bucket, k: nat) {
    && |b| <= K && DistinctIds(b)
    && (forall n :: n in b ==> n.id != own && Slot(own, n.id) == k)
  }

  ghost predicate TableOk(own: Hash, t: Table) {
    |t| == K_BUCKETS && forall k :: 0 <= k < K_BUCKETS ==> BucketOk(own, t[k], k)
  }

  lemma Without(s: Bucket, i: nat)
    requires i < |s|
    ensures multiset(s) == multiset(s[..i] + s[i + 1..]) + multiset{s[i]}
  {
    assert s == s[..i] + [s[i]] + s[i + 1..];
  }

  lemma WithoutDistinct(s: Bucket, i: nat)
    requires i < |s| && DistinctIds(s)
    ensures DistinctIds(s[..i] + s[i + 1..])
    ensures forall n :: n in s[..i] + s[i + 1..] ==> n.id != s[i].id
  {
    var rest := s[..i] + s[i + 1..];
    assert forall k :: 0 <= k < |rest| ==> rest[k] == s[if k < i then k else k + 1];
  }

  lemma {:induction false} DistinctIdsMultiset(s: Bucket, t: Bucket)
    requires multiset(s) == multiset(t) && DistinctIds(s)
    ensures DistinctIds(t)
    decreases |t|
  {
    if t != [] {
      assert t[0] in multiset(s);
      var i :| 0 <= i < |s| && s[i] == t[0];
      var rest := s[..i] + s[i + 1..];
      Without(s, i);
      WithoutDistinct(s, i);
      hide DistinctIds;
      HeadTail(t);
      SameRest(multiset(rest), multiset(t[1..]), t[0]);
      DistinctIdsMultiset(rest, t[1..]);
      forall n | n in t[1..] ensures n.id != t[0].id {
        assert n in multiset(t[1..]);
      }
      DistinctCons(t);
    }
  }

  lemma SameRest(a: multiset<Node>, b: multiset<Node>, n: Node)
    requires a + multiset{n} == multiset{n} + b
    ensures a == b
  {
    assert a == (a + multiset{n}) - multiset{n} && b == (multiset{n} + b) - multiset{n};
  }

  lemma DistinctCons(t: Bucket)
    requires t != [] && DistinctIds(t[1..]) && forall n :: n in t[1..] ==> n.id != t[0].id
    ensures DistinctIds(t)
  {
    forall i, j | 0 <= i < j < |t| ensures t[i].id != t[j].id {
      assert t[j] == t[1..][j - 1];
      if i > 0 { assert t[i] == t[1..][i - 1]; }
    }
  }

  lemma SeenOrder()
    ensures TotalPreorder(SeenLeq)
  {
  }

  /** A full bucket loses one node that was seen least recently, and nothing else. */
  lemma EvictsTheOldest(b: Bucket, n: Node)
    requires |b| == K && IndexOf(b, n.id) == |b|
    ensures exists victim :: victim in b && multiset(AddedTo(b, n)) == multiset(b) - multiset{victim} + multiset{n}
              && forall m :: m in b ==> victim.lastSeen <= m.lastSeen
  {
    hide Sort, IndexOf;
    SeenOrder();
    SortProps(b, SeenLeq);
    var s := Sort(b, SeenLeq);
    HeadTail(s);
    HeadTail(s[0 := n]);
    assert s[0 := n][1..] == s[1..];
    assert s[0] in multiset(b);
    forall m | m in b ensures s[0].lastSeen <= m.lastSeen {
      assert m in multiset(s);
    }
  }

  lemma AddedToOk(own: Hash, b: Bucket, k: nat, n: Node)
    requires BucketOk(own, b, k) && n.id != own && Slot(own, n.id) == k
    ensures BucketOk(own, AddedTo(b, n), k)
    ensures n in AddedTo(b, n)
  {
    hide Slot, IndexOf, Sort;
    var i := IndexOf(b, n.id);
    var r := AddedTo(b, n);
    if i < |b| {
      assert r[i] == n;
    } else if |b| < K {
      assert r[|b|] == n;
      forall k | 0 <= k < |b| ensures b[k].id != n.id {}
    } else {
      var s := Sort(b, SeenLeq);
      SeenOrder();
      SortProps(b, SeenLeq);
      DistinctIdsMultiset(b, s);
      assert r[0] == n;
      forall m | m in s ensures m in b && m.id != n.id { assert m in multiset(s); }
    }
  }

  lemma {:induction false} LivingIn(b: Bucket, now: u64, timeout: u64)
    ensures |Living(b, now, timeout)| <= |b|
    ensures forall n :: n in Living(b, now, timeout) <==> n in b && Alive(n, now, timeout)
  {
    if b != [] {
      LivingIn(b[1..], now, timeout);
      assert b == [b[0]] + b[1..];
    }
  }

  lemma {:induction false} LivingDistinct(b: Bucket, now: u64, timeout: u64)
    requires DistinctIds(b)
    ensures DistinctIds(Living(b, now, timeout))
  {
    if b != [] {
      LivingDistinct(b[1..], now, timeout);
      LivingIn(b[1..], now, timeout);
      forall n | n in b[1..] ensures n.id != b[0].id {
      }
    }
  }

  lemma AddedOk(own: Hash, t: Table, n: Node)
    requires TableOk(own, t)
    ensures TableOk(own, Added(own, t, n))
  {
    hide BucketOk, Slot, AddedTo;
    if n.id != own { AddedToOk(own, t[Slot(own, n.id)], Slot(own, n.id), n); }
  }

  lemma CleanedOk(own: Hash, t: Table, now: u64, timeout: u64)
    requires TableOk(own, t)
    ensures TableOk(own, Cleaned(t, now, timeout))
  {
    hide Slot;
    forall k | 0 <= k < K_BUCKETS ensures BucketOk(own, Cleaned(t, now, timeout)[k], k) {
      LivingIn(t[k], now, timeout);
      LivingDistinct(t[k], now, timeout);
    }
  }

  datatype Op = AddOrUpdate(node: Node) | Cleanup(now: u64, timeout: u64)

  function NewTable(): (t: Table)
    ensures |t| == K_BUCKETS && forall k :: 0 <= k < K_BUCKETS ==> t[k] == []
  {
    seq(K_BUCKETS, _ => [])
  }

  ghost function Step(own: Hash, t: Table, op: Op): (t': Table)
    requires |t| == K_BUCKETS
    ensures |t'| == K_BUCKETS
  {
    match op
    case AddOrUpdate(n) => Added(own, t, n)
    case Cleanup(now, timeout) => Cleaned(t, now, timeout)
  }

  ghost function Run(own: Hash, ops: seq<Op>): (t: Table)
    ensures |t| == K_BUCKETS
  {
    if ops == [] then NewTable() else Step(own, Run(own, ops[..|ops| - 1]), ops[|ops| - 1])
  }

  /** In every reachable table no bucket holds more than 8 nodes, our own id is absent and every
      node sits in the bucket computed for it, so that ids are unique across the whole table. */
  lemma {:induction false} EveryRunTableOk(own: Hash, ops: seq<Op>)
    ensures TableOk(own, Run(own, ops))
    ensures UniqueIds(Run(own, ops))
  {
    hide BucketOk, Added, Cleaned;
    if ops == [] {
      NewTableOk(own);
    } else {
      var t := Run(own, ops[..|ops| - 1]);
      EveryRunTableOk(own, ops[..|ops| - 1]);
      match ops[|ops| - 1]
      case AddOrUpdate(n) => AddedOk(own, t, n);
      case Cleanup(now, timeout) => CleanedOk(own, t, now, timeout);
    }
    TableUnique(own, Run(own, ops));
  }

  lemma NewTableOk(own: Hash)
    ensures TableOk(own, NewTable())
  {
    hide Slot;
  }

  ghost predicate UniqueIds(t: Table) {
    forall k, i, l, j :: 0 <= k < |t| && 0 <= i < |t[k]| && 0 <= l < |t| && 0 <= j < |t[l]| && t[k][i].id == t[l][j].id
      ==> k == l && i == j
  }

  lemma TableUnique(own: Hash, t: Table)
    requires TableOk(own, t)
    ensures UniqueIds(t)
  {
    hide Slot;
    forall k, i, l, j | 0 <= k < |t| && 0 <= i < |t[k]| && 0 <= l < |t| && 0 <= j < |t[l]| && t[k][i].id == t[l][j].id
      ensures k == l && i == j {
      assert BucketOk(own, t[k], k) && BucketOk(own, t[l], l);
      assert t[k][i] in t[k] && t[l][j] in t[l];
    }
  }

  // ---------- collecting living nodes from buckets ----------

  /** The living nodes of a run of buckets, bucket by bucket. */
  function AllLiving(t: Table, now: u64, timeout: u64): Bucket {
    if t == [] then [] else Living(t[0], now, timeout) + AllLiving(t[1..], now, timeout)
  }

  lemma {:induction false} AllLivingConcat(a: Table, b: Table, now: u64, timeout: u64)
    ensures AllLiving(a + b, now, timeout) == AllLiving(a, now, timeout) + AllLiving(b, now, timeout)
  {
    hide Living;
    if a == [] {
      assert a + b == b;
    } else {
      AllLivingConcat(a[1..], b, now, timeout);
      assert (a + b)[0] == a[0] && (a + b)[1..] == a[1..] + b;
      Associative(Living(a[0], now, timeout), AllLiving(a[1..], now, timeout), AllLiving(b, now, timeout));
    }
  }

  lemma Associative(a: Bucket, b: Bucket, c: Bucket)
    ensures a + (b + c) == a + b + c
  {
  }

  lemma AllLivingOne(b: Bucket, now: u64, timeout: u64)
    ensures AllLiving([b], now, timeout) == Living(b, now, timeout)
  {
    assert [b][1..] == [];
    assert AllLiving([], now, timeout) == [];
  }

  /** Three adjoining runs of buckets. */
  lemma AllLivingCut(t: Table, lo: nat, hi: nat, now: u64, timeout: u64)
    requires lo <= hi <= |t|
    ensures AllLiving(t, now, timeout)
         == AllLiving(t[..lo], now, timeout) + AllLiving(t[lo..hi], now, timeout) + AllLiving(t[hi..], now, timeout)
  {
    hide AllLiving;
    assert t == t[..hi] + t[hi..] && t[..hi] == t[..lo] + t[lo..hi];
    AllLivingConcat(t[..hi], t[hi..], now, timeout);
    AllLivingConcat(t[..lo], t[lo..hi], now, timeout);
  }

  lemma WidenLeft(t: Table, lo: nat, hi: nat, now: u64, timeout: u64)
    requires 0 < lo <= hi <= |t|
    ensures AllLiving(t[lo - 1..hi], now, timeout)
         == Living(t[lo - 1], now, timeout) + AllLiving(t[lo..hi], now, timeout)
  {
    hide Living;
    assert t[lo - 1..hi][0] == t[lo - 1] && t[lo - 1..hi][1..] == t[lo..hi];
  }

  lemma WidenRight(t: Table, lo: nat, hi: nat, now: u64, timeout: u64)
    requires lo <= hi < |t|
    ensures AllLiving(t[lo..hi + 1], now, timeout) == AllLiving(t[lo..hi], now, timeout) + Living(t[hi], now, timeout)
  {
    hide Living, AllLiving;
    assert t[lo..hi + 1] == t[lo..hi] + [t[hi]];
    AllLivingConcat(t[lo..hi], [t[hi]], now, timeout);
    AllLivingOne(t[hi], now, timeout);
  }

  lemma {:induction false} AllLivingMember(t: Table, now: u64, timeout: u64, n: Node)
    ensures n in AllLiving(t, now, timeout) <==> Alive(n, now, timeout) && exists k :: 0 <= k < |t| && n in t[k]
  {
    if t != [] {
      hide Alive, Living;
      LivingIn(t[0], now, timeout);
      AllLivingMember(t[1..], now, timeout, n);
      if k :| 0 <= k < |t| && n in t[k] {
        assert k == 0 || n in t[1..][k - 1];
      }
      if k :| 0 <= k < |t[1..]| && n in t[1..][k] {
        assert n in t[k + 1];
      }
    }
  }

  /** Consecutive buckets of a valid table, numbered from `first`. */
  ghost predicate RunOk(own: Hash, t: Table, first: nat) {
    forall k :: 0 <= k < |t| ==> BucketOk(own, t[k], first + k)
  }

  lemma {:induction false} AllLivingDistinct(own: Hash, t: Table, first: nat, now: u64, timeout: u64)
    requires RunOk(own, t, first)
    ensures DistinctIds(AllLiving(t, now, timeout))
    ensures forall n :: n in AllLiving(t, now, timeout) ==> first <= Slot(own, n.id)
  {
    hide Alive, Living, Slot, DistinctIds;
    if t == [] {
      NoIds();
    } else {
      assert BucketOk(own, t[0], first);
      forall k | 0 <= k < |t[1..]| ensures BucketOk(own, t[1..][k], first + 1 + k) {
        assert BucketOk(own, t[k + 1], first + (k + 1));
      }
      AllLivingDistinct(own, t[1..], first + 1, now, timeout);
      LivingIn(t[0], now, timeout);
      LivingDistinct(t[0], now, timeout);
      DistinctJoin(own, Living(t[0], now, timeout), AllLiving(t[1..], now, timeout), first);
    }
  }

  lemma NoIds()
    ensures DistinctIds([])
  {
  }

  lemma DistinctJoin(own: Hash, a: Bucket, b: Bucket, k: nat)
    requires DistinctIds(a) && DistinctIds(b)
    requires forall n :: n in a ==> Slot(own, n.id) == k
    requires forall n :: n in b ==> Slot(own, n.id) > k
    ensures DistinctIds(a + b)
  {
    hide Slot;
    forall i, j | 0 <= i < |a| && 0 <= j < |b| ensures a[i].id != b[j].id {
      assert a[i] in a && b[j] in b;
    }
  }

  // ---------- the search ----------

  /** The XOR distance of a node to the target. */
  function Gap(n: Node, target: Hash): nat { BE(Distance(n.id, target)) }

  function Nearer(target: Hash): (Node, Node) -> bool {
    (a: Node, b: Node) => Gap(a, target) <= Gap(b, target)
  }

  /** The closure given to `sort_by_key`. */
  function ByWords(target: Hash): (Node, Node) -> bool {
    (a: Node, b: Node) => WordsLeq(Words(Distance(a.id, target)), Words(Distance(b.id, target)))
  }

  lemma NearerOrder(target: Hash)
    ensures TotalPreorder(Nearer(target))
  {
    hide Gap;
  }

  lemma ByWordsIsNearer(target: Hash)
    ensures forall a, b :: ByWords(target)(a, b) == Nearer(target)(a, b)
  {
    forall a, b ensures ByWords(target)(a, b) == Nearer(target)(a, b) {
      hide Words, BE, Distance;
      WordsLeqIsNumeric(Distance(a.id, target), Distance(b.id, target));
    }
  }

  lemma SameGap(a: Node, b: Node, target: Hash)
    requires Gap(a, target) == Gap(b, target)
    ensures a.id == b.id
  {
    hide BE, Distance;
    BEInjective(Distance(a.id, target), Distance(b.id, target));
    DistanceCancel(a.id, b.id, target);
  }

  /** After k rounds starting from bucket `idx` the buckets from Lo(k) up to Hi(k) were read. */
  function Lo(idx: nat, k: nat): nat { if k <= idx then idx + 1 - k else 0 }

  function Hi(idx: nat, k: nat): nat { if idx + 1 + k <= K_BUCKETS then idx + 1 + k else K_BUCKETS }

  function Window(t: Table, idx: nat, k: nat): Table
    requires |t| == K_BUCKETS && idx < K_BUCKETS
  {
    t[Lo(idx, k)..Hi(idx, k)]
  }

  /** Enough nodes were found, or every bucket was read. */
  predicate Enough(t: Table, idx: nat, k: nat, count: nat, now: u64, timeout: u64)
    requires |t| == K_BUCKETS && idx < K_BUCKETS
  {
    |AllLiving(Window(t, idx, k), now, timeout)| >= count || (Lo(idx, k) == 0 && Hi(idx, k) == K_BUCKETS)
  }

  /** The least number of rounds, from k on, after which the search stops. */
  function Rounds(t: Table, idx: nat, k: nat, count: nat, now: u64, timeout: u64): (n: nat)
    requires |t| == K_BUCKETS && idx < K_BUCKETS
    ensures n >= k && Enough(t, idx, n, count, now, timeout)
    ensures forall j :: k <= j < n ==> !Enough(t, idx, j, count, now, timeout)
    decreases if k < K_BUCKETS then K_BUCKETS - k else 0
  {
    if Enough(t, idx, k, count, now, timeout) then k else Rounds(t, idx, k + 1, count, now, timeout)
  }

  function Reach(t: Table, idx: nat, count: nat, now: u64, timeout: u64): Bucket
    requires |t| == K_BUCKETS && idx < K_BUCKETS
  {
    AllLiving(Window(t, idx, Rounds(t, idx, 0, count, now, timeout)), now, timeout)
  }

  function Take(s: Bucket, count: nat): Bucket { if count < |s| then s[..count] else s }

  /** The nearest `count` living nodes of the smallest window around the target's bucket that
      holds `count` of them. */
  function Closest(own: Hash, t: Table, target: Hash, count: nat, now: u64, timeout: u64): Bucket
    requires |t| == K_BUCKETS
  {
    Take(Sort(Reach(t, Slot(target, own), count, now, timeout), Nearer(target)), count)
  }

  ghost predicate StrictlyNearer(s: Bucket, target: Hash) {
    forall i, j :: 0 <= i < j < |s| ==> Gap(s[i], target) < Gap(s[j], target)
  }

  lemma SortedStrictly(s: Bucket, target: Hash)
    requires DistinctIds(s) && Sorted(s, Nearer(target))
    ensures StrictlyNearer(s, target)
  {
    hide Gap;
    forall i, j | 0 <= i < j < |s| ensures Gap(s[i], target) < Gap(s[j], target) {
      assert Nearer(target)(s[i], s[j]);
      if Gap(s[i], target) == Gap(s[j], target) { SameGap(s[i], s[j], target); }
    }
  }

  lemma ReachDistinct(own: Hash, t: Table, idx: nat, count: nat, now: u64, timeout: u64)
    requires TableOk(own, t) && idx < K_BUCKETS
    ensures DistinctIds(Reach(t, idx, count, now, timeout))
  {
    hide BucketOk, AllLiving, Rounds, DistinctIds;
    var k := Rounds(t, idx, 0, count, now, timeout);
    var lo := Lo(idx, k);
    var w := Window(t, idx, k);
    forall j | 0 <= j < |w| ensures BucketOk(own, w[j], lo + j) {
      assert w[j] == t[lo + j];
    }
    AllLivingDistinct(own, w, lo, now, timeout);
  }

  /** Sorting what was reached: the same nodes, strictly nearer first. */
  lemma ReachSorted(own: Hash, t: Table, idx: nat, target: Hash, count: nat, now: u64, timeout: u64)
    requires TableOk(own, t) && idx < K_BUCKETS
    ensures var r := Reach(t, idx, count, now, timeout);
            var s := Sort(r, Nearer(target));
            StrictlyNearer(s, target) && multiset(s) == multiset(r) && |s| == |r|
  {
    assert |t| == K_BUCKETS;
    hide TableOk, Reach, Gap, Sort, DistinctIds, StrictlyNearer;
    var r := Reach(t, idx, count, now, timeout);
    NearerOrder(target);
    SortProps(r, Nearer(target));
    ReachDistinct(own, t, idx, count, now, timeout);
    DistinctIdsMultiset(r, Sort(r, Nearer(target)));
    SortedStrictly(Sort(r, Nearer(target)), target);
  }

  lemma ReachCut(t: Table, idx: nat, count: nat, now: u64, timeout: u64)
    requires |t| == K_BUCKETS && idx < K_BUCKETS
    ensures var k := Rounds(t, idx, 0, count, now, timeout);
            AllLiving(t, now, timeout) == AllLiving(t[..Lo(idx, k)], now, timeout)
              + Reach(t, idx, count, now, timeout) + AllLiving(t[Hi(idx, k)..], now, timeout)
    ensures |Reach(t, idx, count, now, timeout)| < count
            ==> Reach(t, idx, count, now, timeout) == AllLiving(t, now, timeout)
  {
    hide AllLiving, Rounds;
    var k := Rounds(t, idx, 0, count, now, timeout);
    AllLivingCut(t, Lo(idx, k), Hi(idx, k), now, timeout);
    if |Reach(t, idx, count, now, timeout)| < count {
      assert Window(t, idx, k) == t;
    }
  }

  /** The search returns exactly min(count, alive) nodes, all living members of the table, in
      strictly increasing XOR distance (so no node twice). */
  lemma ClosestFacts(own: Hash, t: Table, target: Hash, count: nat, now: u64, timeout: u64)
    requires TableOk(own, t)
    ensures var r, all := Closest(own, t, target, count, now, timeout), AllLiving(t, now, timeout);
            && |r| == (if count < |all| then count else |all|)
            && StrictlyNearer(r, target)
            && (forall n :: n in r ==> n in all)
  {
    var idx := Slot(target, own);
    assert |t| == K_BUCKETS;
    hide TableOk, Reach, Gap, Sort, AllLiving, Slot, Lo, Hi, Rounds, StrictlyNearer;
    ReachSorted(own, t, idx, target, count, now, timeout);
    ReachCut(t, idx, count, now, timeout);
    var reach := Reach(t, idx, count, now, timeout);
    TakeFacts(Sort(reach, Nearer(target)), reach, count, target);
  }

  lemma TakeFacts(s: Bucket, reach: Bucket, count: nat, target: Hash)
    requires StrictlyNearer(s, target) && multiset(s) == multiset(reach)
    ensures StrictlyNearer(Take(s, count), target)
    ensures forall n :: n in Take(s, count) ==> n in reach
  {
    hide Gap;
    forall n | n in s ensures n in reach { assert n in multiset(s); }
  }

  /** When `count` covers all living nodes, they are all returned. */
  lemma ClosestIsAll(own: Hash, t: Table, target: Hash, count: nat, now: u64, timeout: u64)
    requires TableOk(own, t) && count >= |AllLiving(t, now, timeout)|
    ensures multiset(Closest(own, t, target, count, now, timeout)) == multiset(AllLiving(t, now, timeout))
  {
    var idx := Slot(target, own);
    assert |t| == K_BUCKETS;
    hide TableOk, Gap, Sort, AllLiving, Slot, Lo, Hi, Rounds, StrictlyNearer, Reach;
    ReachSorted(own, t, idx, target, count, now, timeout);
    ReachCut(t, idx, count, now, timeout);
    var r, all := Reach(t, idx, count, now, timeout), AllLiving(t, now, timeout);
    var k := Rounds(t, idx, 0, count, now, timeout);
    WholeMiddle(AllLiving(t[..Lo(idx, k)], now, timeout), r, AllLiving(t[Hi(idx, k)..], now, timeout), count);
  }

  lemma WholeMiddle(a: Bucket, r: Bucket, c: Bucket, count: nat)
    requires |a + r + c| <= count
    ensures count <= |r| ==> a + r + c == r
    ensures |r| <= count
  {
  }

  /** Nothing living that was left out is nearer than anything returned. */
  ghost predicate NoneNearer(r: Bucket, all: Bucket, target: Hash) {
    forall m, n :: m in r && n in all && n !in r ==> Gap(m, target) < Gap(n, target)
  }

  lemma TakeIsNearest(s: Bucket, count: nat, target: Hash)
    requires StrictlyNearer(s, target)
    ensures var r := Take(s, count);
            && (forall n :: n in r ==> n in s && Gap(n, target) <= Gap(r[|r| - 1], target))
            && (forall m, n :: m in r && n in s && n !in r ==> Gap(m, target) < Gap(n, target))
  {
    hide Gap;
    var r := Take(s, count);
    forall m, n | m in r && n in s && n !in r ensures Gap(m, target) < Gap(n, target) {
      var i :| 0 <= i < |r| && r[i] == m;
      var j :| 0 <= j < |s| && s[j] == n;
      assert j >= |r|;
    }
  }

  // ---------- cleaning up changes no search ----------

  lemma {:induction false} LivingTwice(b: Bucket, now: u64, timeout: u64)
    ensures Living(Living(b, now, timeout), now, timeout) == Living(b, now, timeout)
  {
    if b != [] {
      hide Alive;
      LivingTwice(b[1..], now, timeout);
      if Alive(b[0], now, timeout) {
        assert Living(b, now, timeout)[1..] == Living(b[1..], now, timeout);
      }
    }
  }

  lemma {:induction false} CleanedLiving(t: Table, now: u64, timeout: u64)
    ensures AllLiving(Cleaned(t, now, timeout), now, timeout) == AllLiving(t, now, timeout)
  {
    if t != [] {
      hide Living;
      LivingTwice(t[0], now, timeout);
      CleanedLiving(t[1..], now, timeout);
      assert Cleaned(t, now, timeout)[1..] == Cleaned(t[1..], now, timeout);
    }
  }

  lemma CleanedWindow(t: Table, idx: nat, k: nat, now: u64, timeout: u64)
    requires |t| == K_BUCKETS && idx < K_BUCKETS
    ensures AllLiving(Window(Cleaned(t, now, timeout), idx, k), now, timeout)
         == AllLiving(Window(t, idx, k), now, timeout)
  {
    hide Living, AllLiving;
    assert Window(Cleaned(t, now, timeout), idx, k) == Cleaned(Window(t, idx, k), now, timeout);
    CleanedLiving(Window(t, idx, k), now, timeout);
  }

  lemma {:induction false} CleanedRounds(t: Table, idx: nat, k: nat, count: nat, now: u64, timeout: u64)
    requires |t| == K_BUCKETS && idx < K_BUCKETS
    ensures Rounds(Cleaned(t, now, timeout), idx, k, count, now, timeout) == Rounds(t, idx, k, count, now, timeout)
    decreases if k < K_BUCKETS then K_BUCKETS - k else 0
  {
    hide Cleaned, AllLiving, Window;
    CleanedWindow(t, idx, k, now, timeout);
    if !Enough(t, idx, k, count, now, timeout) {
      CleanedRounds(t, idx, k + 1, count, now, timeout);
    }
  }

  /** A cleanup at the time of a search removes nothing that any search would return. */
  lemma CleanupIsInvisible(own: Hash, t: Table, target: Hash, count: nat, now: u64, timeout: u64)
    requires |t| == K_BUCKETS
    ensures Closest(own, Cleaned(t, now, timeout), target, count, now, timeout)
         == Closest(own, t, target, count, now, timeout)
  {
    hide Cleaned, AllLiving, Window, Rounds;
    var idx := Slot(target, own);
    CleanedRounds(t, idx, 0, count, now, timeout);
    CleanedWindow(t, idx, Rounds(t, idx, 0, count, now, timeout), now, timeout);
  }

  // ---------- the search need not find the closest ----------

  lemma DistanceToZero(h: Hash)
    ensures Distance(ZeroHash(), h) == h && Distance(h, ZeroHash()) == h
  {
    Widths();
    forall i | 0 <= i < 32 ensures Distance(ZeroHash(), h)[i] == h[i] && Distance(h, ZeroHash())[i] == h[i] {
      XorZero(8, h[i]);
    }
  }

  lemma FirstByteDecides(a: Hash, b: Hash)
    requires a[0] < b[0]
    ensures BE(a) < BE(b)
  {
    assert a == [a[0]] + a[1..] && b == [b[0]] + b[1..];
    BEConcat([a[0]], a[1..]);
    BEConcat([b[0]], b[1..]);
    BEBound(a[1..]);
    OneByte(a[0]);
    OneByte(b[0]);
    hide BE, Pow256;
    HeadDecides(a[0], b[0], Pow256(31), BE(a[1..]));
  }

  lemma HeadDecides(x: nat, y: nat, p: nat, u: nat)
    requires x < y && u < p
    ensures x * p + u < y * p
  {
    assert (x + 1) * p <= y * p;
  }

  lemma OneByte(x: byte)
    ensures BE([x]) == x
  {
    assert [x][..0] == [];
    assert BE([]) == 0;
  }

  /** The id with byte i set to x and all others zero. */
  function Unit(i: nat, x: byte): Hash
    requires i < 32
  {
    ZeroHash()[i := x]
  }

  /** A table of two living nodes where the nearer one is missed: for the target 01 00 .. the node
      03 00 .. in the neighbouring bucket is returned, though 00 02 .. is closer. */
  lemma MissesTheClosest()
    ensures var own, target := ZeroHash(), Unit(0, 1);
            var far, near := Node(Unit(0, 3), 0, 0), Node(Unit(1, 2), 0, 0);
            var t := Run(own, [AddOrUpdate(far), AddOrUpdate(near)]);
            && AllLiving(t, 0, 1) == [far, near]
            && Closest(own, t, target, 1, 0, 1) == [far]
            && Gap(near, target) < Gap(far, target)
  {
    hide *;
    ExampleTable();
    ExampleSearch();
    ExampleGaps();
  }

  ghost function ExampleT(): Table {
    NewTable()[1 := [Node(Unit(0, 3), 0, 0)]][9 := [Node(Unit(1, 2), 0, 0)]]
  }

  lemma ExampleSlots()
    ensures Slot(ZeroHash(), Unit(0, 3)) == 1 && Slot(ZeroHash(), Unit(1, 2)) == 9
    ensures Slot(Unit(0, 1), ZeroHash()) == 0
  {
    DistanceToZero(Unit(0, 3));
    DistanceToZero(Unit(1, 2));
    DistanceToZero(Unit(0, 1));
    assert Log2(3) == 1 + Log2(1) && Log2(2) == 1 + Log2(1) && Log2(1) == 0;
    assert FirstNonZero(Unit(1, 2), 0) == 1;
  }

  lemma ExampleTable()
    ensures Run(ZeroHash(), [AddOrUpdate(Node(Unit(0, 3), 0, 0)), AddOrUpdate(Node(Unit(1, 2), 0, 0))]) == ExampleT()
  {
    ExampleSlots();
    hide Slot;
    var own := ZeroHash();
    var far, near := Node(Unit(0, 3), 0, 0), Node(Unit(1, 2), 0, 0);
    var ops := [AddOrUpdate(far), AddOrUpdate(near)];
    assert own[0] == 0 && own[1] == 0 && far.id[0] == 3 && near.id[1] == 2;
    assert AddedTo([], far) == [far] && AddedTo([], near) == [near];
    assert ops[..1] == [AddOrUpdate(far)] && ops[..1][..0] == [];
    assert Run(own, []) == NewTable();
    assert Run(own, ops[..1]) == NewTable()[1 := [far]];
  }

  lemma ExampleSearch()
    ensures var far, near := Node(Unit(0, 3), 0, 0), Node(Unit(1, 2), 0, 0);
            AllLiving(ExampleT(), 0, 1) == [far, near] && Closest(ZeroHash(), ExampleT(), Unit(0, 1), 1, 0, 1) == [far]
  {
    var far, near := Node(Unit(0, 3), 0, 0), Node(Unit(1, 2), 0, 0);
    var t := ExampleT();
    ExampleLiving(far, near);
    ExampleRounds(far, near);
    ExampleSlots();
    hide Slot, AllLiving, Rounds, ExampleT, Sort, Nearer, Unit;
    assert Window(t, 0, 1) == t[0..2];
    SortOne(far, Nearer(Unit(0, 1)));
  }

  lemma SortOne(n: Node, le: (Node, Node) -> bool)
    ensures Sort([n], le) == [n]
  {
    assert [n][1..] == [];
    assert Sort([], le) == [];
  }

  lemma {:induction false} NoLiving(t: Table, now: u64, timeout: u64)
    requires forall k :: 0 <= k < |t| ==> t[k] == []
    ensures AllLiving(t, now, timeout) == []
  {
    if t != [] {
      NoLiving(t[1..], now, timeout);
    }
  }

  lemma ExampleLiving(far: Node, near: Node)
    requires far == Node(Unit(0, 3), 0, 0) && near == Node(Unit(1, 2), 0, 0)
    ensures AllLiving(ExampleT()[0..2], 0, 1) == [far]
    ensures AllLiving(ExampleT(), 0, 1) == [far, near]
  {
    var t := ExampleT();
    hide Unit, AllLiving;
    NoLiving(t[0..1], 0, 1);
    WidenRight(t, 0, 1, 0, 1);
    NoLiving(t[2..9], 0, 1);
    AllLivingConcat(t[0..2], t[2..9], 0, 1);
    assert t[0..2] + t[2..9] == t[0..9];
    WidenRight(t, 0, 9, 0, 1);
    NoLiving(t[10..], 0, 1);
    AllLivingConcat(t[0..10], t[10..], 0, 1);
    assert t[0..10] + t[10..] == t;
    assert Living([far], 0, 1) == [far] && Living([near], 0, 1) == [near];
  }

  lemma ExampleRounds(far: Node, near: Node)
    requires far == Node(Unit(0, 3), 0, 0) && near == Node(Unit(1, 2), 0, 0)
    ensures Rounds(ExampleT(), 0, 0, 1, 0, 1) == 1
  {
    ExampleLiving(far, near);
    var t := ExampleT();
    hide ExampleT, Unit;
    assert Window(t, 0, 0) == [] && Window(t, 0, 1) == t[0..2];
    assert AllLiving([], 0, 1) == [];
    hide AllLiving;
    assert !Enough(t, 0, 0, 1, 0, 1) && Enough(t, 0, 1, 1, 0, 1);
  }

  lemma ExampleGaps()
    ensures Gap(Node(Unit(1, 2), 0, 0), Unit(0, 1)) < Gap(Node(Unit(0, 3), 0, 0), Unit(0, 1))
  {
    Widths();
    var d, e := Distance(Unit(1, 2), Unit(0, 1)), Distance(Unit(0, 3), Unit(0, 1));
    XorZero(8, 1);
    assert d[0] == Xor(8, 0, 1);
    assert e[0] == Xor(8, 3, 1);
    assert Xor(8, 3, 1) == 2 * Xor(7, 1, 0) + 0;
    XorZero(7, 1) by { assert Pow2(7) == 2 * Pow2(6); }
    FirstByteDecides(d, e);
  }

  // ---------- the table, updated in place ----------

  method ComputeDistance(a: Hash, b: Hash) returns (d: Hash)
    ensures d == Distance(a, b)
  {
    d := ZeroHash();
    for i := 0 to 32
      invariant forall k :: 0 <= k < i ==> d[k] == XorByte(a[k], b[k])
    {
      d := d[i := XorByte(a[i], b[i])];
    }
  }

  method ComputeBucketIndex(d: Hash) returns (r: nat)
    ensures r == BucketIndex(d)
  {
    for i := 0 to 32
      invariant FirstNonZero(d, 0) == FirstNonZero(d, i)
    {
      if d[i] != 0 {
        var bit := Log2(d[i]);
        r := if i * 8 + bit < K_BUCKETS - 1 then i * 8 + bit else K_BUCKETS - 1;
        assert FirstNonZero(d, i) == i;
        Widths();
        Log2Below(d[i], 8);
        return;
      }
    }
    return 0;
  }

  method CountAlive(b: Bucket, now: u64, timeout: u64) returns (n: nat)
    ensures n == |Living(b, now, timeout)|
  {
    hide Alive;
    n := 0;
    for i := 0 to |b|
      invariant n + |Living(b[i..], now, timeout)| == |Living(b, now, timeout)|
    {
      if Alive(b[i], now, timeout) {
        n := n + 1;
      }
    }
  }

  /** The left/right loop over the buckets. None is read twice: what is collected is the living
      content of a run of buckets. */
  method Collect(t: Table, idx: nat, count: nat, now: u64, timeout: u64) returns (closest: Bucket)
    requires |t| == K_BUCKETS && idx < K_BUCKETS
    ensures multiset(closest) == multiset(Reach(t, idx, count, now, timeout))
  {
    hide Living, AllLiving, Gathered, Rounds, Enough, Window, Lo, Hi, Reach;
    closest := [];
    var left, right := idx as int, idx + 1;
    ghost var k := 0;
    WindowStarts(t, idx, now, timeout);
    while |closest| < count && (left >= 0 || right < K_BUCKETS)
      invariant left + 1 == Lo(idx, k) && right == Hi(idx, k)
      invariant 0 <= left + 1 <= right <= K_BUCKETS && Gathered(t, left + 1, right, closest, now, timeout)
      invariant Rounds(t, idx, 0, count, now, timeout) == Rounds(t, idx, k, count, now, timeout)
      decreases left + 1 + K_BUCKETS - right
    {
      NotEnough(t, idx, k, count, now, timeout, closest);
      WindowGrows(idx, k);
      if left >= 0 {
        GatherLeft(t, left + 1, right, closest, now, timeout);
        closest := closest + Living(t[left], now, timeout);
        left := left - 1;
      }
      if right < K_BUCKETS {
        GatherRight(t, left + 1, right, closest, now, timeout);
        closest := closest + Living(t[right], now, timeout);
        right := right + 1;
      }
      k := k + 1;
    }
    GatheredEnough(t, idx, k, count, now, timeout, closest);
  }

  lemma WindowStarts(t: Table, idx: nat, now: u64, timeout: u64)
    requires |t| == K_BUCKETS && idx < K_BUCKETS
    ensures Lo(idx, 0) == idx + 1 == Hi(idx, 0) && Gathered(t, idx + 1, idx + 1, [], now, timeout)
  {
    NoLiving(t[idx + 1..idx + 1], now, timeout);
  }

  class Dht {
    const ourId: Hash
    const buckets: array<Bucket>

    ghost predicate Valid()
      reads this, buckets
    {
      buckets.Length == K_BUCKETS && TableOk(ourId, buckets[..])
    }

    constructor (id: Hash)
      ensures Valid() && fresh(buckets) && ourId == id && buckets[..] == NewTable()
    {
      ourId := id;
      buckets := new Bucket[K_BUCKETS](_ => []);
      new;
      NewTableOk(id);
      assert buckets[..] == NewTable();
    }

    method AddOrUpdate(id: Hash, addr: int, now: u64)
      requires Valid()
      modifies buckets
      ensures Valid() && buckets[..] == Added(ourId, old(buckets[..]), Node(id, addr, now))
    {
      hide TableOk, Distance, BucketIndex;
      var n := Node(id, addr, now);
      AddedOk(ourId, buckets[..], n);
      if id == ourId {
        return;
      }
      var d := ComputeDistance(ourId, id);
      var k := ComputeBucketIndex(d);
      var bucket := buckets[k];
      var i := IndexOf(bucket, id);
      if i < |bucket| {
        buckets[k] := bucket[i := bucket[i].(addr := addr, lastSeen := now)];
      } else if |bucket| < K {
        buckets[k] := bucket + [n];
      } else {
        var s := Sort(bucket, SeenLeq);
        SeenOrder();
        SortProps(bucket, SeenLeq);
        buckets[k] := s[0 := n];
      }
    }

    method Cleanup(now: u64, timeout: u64)
      requires Valid()
      modifies buckets
      ensures Valid() && buckets[..] == Cleaned(old(buckets[..]), now, timeout)
    {
      hide TableOk, Living;
      CleanedOk(ourId, buckets[..], now, timeout);
      for k := 0 to K_BUCKETS
        invariant buckets.Length == K_BUCKETS
        invariant forall j :: 0 <= j < k ==> buckets[j] == Living(old(buckets[j]), now, timeout)
        invariant forall j :: k <= j < K_BUCKETS ==> buckets[j] == old(buckets[j])
      {
        buckets[k] := Living(buckets[k], now, timeout);
      }
      assert buckets[..] == Cleaned(old(buckets[..]), now, timeout);
    }

    /** Counts bucket by bucket the nodes that a search could return. */
    method AliveNodes(now: u64, timeout: u64) returns (n: nat)
      requires Valid()
      ensures n == |AllLiving(buckets[..], now, timeout)|
    {
      hide TableOk, Living, AllLiving;
      n := 0;
      ghost var t := buckets[..];
      NoLiving(t[0..0], now, timeout);
      for k := 0 to K_BUCKETS
        invariant t == buckets[..] && n == |AllLiving(t[0..k], now, timeout)|
      {
        var m := CountAlive(buckets[k], now, timeout);
        WidenRight(t, 0, k, now, timeout);
        n := n + m;
      }
      assert t[0..K_BUCKETS] == t;
    }

    method FindClosest(target: Hash, count: nat, now: u64, timeout: u64) returns (closest: Bucket)
      requires Valid()
      ensures closest == Closest(ourId, buckets[..], target, count, now, timeout)
    {
      hide TableOk, Reach, Distance, BucketIndex, Sort, Nearer, ByWords;
      var d := ComputeDistance(target, ourId);
      var idx := ComputeBucketIndex(d);
      closest := Collect(buckets[..], idx, count, now, timeout);
      SortAgrees(ourId, buckets[..], idx, target, count, now, timeout, closest);
      closest := Sort(closest, ByWords(target));
      if |closest| > count {
        closest := closest[..count];
      }
    }
  }

  lemma WindowGrows(idx: nat, k: nat)
    requires idx < K_BUCKETS
    ensures Lo(idx, k + 1) == (if Lo(idx, k) > 0 then Lo(idx, k) - 1 else 0)
    ensures Hi(idx, k + 1) == (if Hi(idx, k) < K_BUCKETS then Hi(idx, k) + 1 else K_BUCKETS)
  {
  }

  /** Some list of the living nodes of buckets l up to r. */
  ghost predicate Gathered(t: Table, l: nat, r: nat, closest: Bucket, now: u64, timeout: u64)
    requires l <= r <= |t|
  {
    multiset(closest) == multiset(AllLiving(t[l..r], now, timeout))
  }

  lemma GatherLeft(t: Table, l: nat, r: nat, closest: Bucket, now: u64, timeout: u64)
    requires 0 < l <= r <= |t| && Gathered(t, l, r, closest, now, timeout)
    ensures Gathered(t, l - 1, r, closest + Living(t[l - 1], now, timeout), now, timeout)
  {
    hide Living, AllLiving;
    WidenLeft(t, l, r, now, timeout);
  }

  lemma GatherRight(t: Table, l: nat, r: nat, closest: Bucket, now: u64, timeout: u64)
    requires l <= r < |t| && Gathered(t, l, r, closest, now, timeout)
    ensures Gathered(t, l, r + 1, closest + Living(t[r], now, timeout), now, timeout)
  {
    hide Living, AllLiving;
    WidenRight(t, l, r, now, timeout);
  }

  lemma SizeOf(a: Bucket, b: Bucket)
    requires multiset(a) == multiset(b)
    ensures |a| == |b|
  {
    assert |multiset(a)| == |a| && |multiset(b)| == |b|;
  }

  lemma NotEnough(t: Table, idx: nat, k: nat, count: nat, now: u64, timeout: u64, closest: Bucket)
    requires |t| == K_BUCKETS && idx < K_BUCKETS && Gathered(t, Lo(idx, k), Hi(idx, k), closest, now, timeout)
    requires |closest| < count && (Lo(idx, k) > 0 || Hi(idx, k) < K_BUCKETS)
    ensures Rounds(t, idx, k, count, now, timeout) == Rounds(t, idx, k + 1, count, now, timeout)
  {
    hide AllLiving;
    SizeOf(closest, AllLiving(Window(t, idx, k), now, timeout));
  }

  lemma GatheredEnough(t: Table, idx: nat, k: nat, count: nat, now: u64, timeout: u64, closest: Bucket)
    requires |t| == K_BUCKETS && idx < K_BUCKETS && Gathered(t, Lo(idx, k), Hi(idx, k), closest, now, timeout)
    requires |closest| >= count || (Lo(idx, k) == 0 && Hi(idx, k) == K_BUCKETS)
    requires Rounds(t, idx, 0, count, now, timeout) == Rounds(t, idx, k, count, now, timeout)
    ensures multiset(closest) == multiset(Reach(t, idx, count, now, timeout))
  {
    hide AllLiving;
    SizeOf(closest, AllLiving(Window(t, idx, k), now, timeout));
    assert Enough(t, idx, k, count, now, timeout);
    assert Rounds(t, idx, k, count, now, timeout) == k;
  }

  /** The order of collection and the form of the sort key do not matter. */
  lemma SortAgrees(own: Hash, t: Table, idx: nat, target: Hash, count: nat, now: u64, timeout: u64, closest: Bucket)
    requires TableOk(own, t) && idx < K_BUCKETS
    requires multiset(closest) == multiset(Reach(t, idx, count, now, timeout))
    ensures Sort(closest, ByWords(target)) == Sort(Reach(t, idx, count, now, timeout), Nearer(target))
  {
    assert |t| == K_BUCKETS;
    hide TableOk, Reach, Sort, Nearer, ByWords;
    var reach := Reach(t, idx, count, now, timeout);
    var s := Sort(reach, Nearer(target));
    ByWordsOrder(target);
    SortProps(closest, ByWords(target));
    ReachSorted(own, t, idx, target, count, now, timeout);
    StrictIsSorted(s, target);
    SortedUnique(s, Sort(closest, ByWords(target)), ByWords(target));
  }

  lemma ByWordsOrder(target: Hash)
    ensures TotalPreorder(ByWords(target))
  {
    NearerOrder(target);
    ByWordsIsNearer(target);
    hide ByWords, Nearer;
  }

  lemma StrictIsSorted(s: Bucket, target: Hash)
    requires StrictlyNearer(s, target)
    ensures Sorted(s, ByWords(target)) && AntisymmetricOn(s, ByWords(target))
  {
    ByWordsIsNearer(target);
    hide ByWords, Gap;
    forall i, j | 0 <= i < |s| && 0 <= j < |s| && ByWords(target)(s[i], s[j]) && ByWords(target)(s[j], s[i])
      ensures s[i] == s[j] {
      assert Nearer(target)(s[i], s[j]) && Nearer(target)(s[j], s[i]);
    }
    forall i, j | 0 <= i < j < |s| ensures ByWords(target)(s[i], s[j]) {
      assert Nearer(target)(s[i], s[j]);
    }
  }
}
