/** crates/aevum-p2p/src/dht.rs: how buckets and XOR distances are related, and hence when
    `find_closest` returns the closest nodes of the whole table. */
module DhtGeometry {
  import opened Integers
  import opened Collections
  import opened Bytes
  import opened Sorting
  import opened Routing = Dht

  // ---------- exclusive or of numbers ----------

  lemma {:induction false} XorSymmetric(k: nat, a: nat, b: nat)
    ensures Xor(k, a, b) == Xor(k, b, a)
  {
    if k > 0 { XorSymmetric(k - 1, a / 2, b / 2); }
  }

  lemma {:induction false} XorSelf(k: nat, a: nat)
    ensures Xor(k, a, a) == 0
  {
    if k > 0 { XorSelf(k - 1, a / 2); }
  }

  /** Distances to a common origin combine to the distance between two points. */
  lemma {:induction false} XorCombine(k: nat, o: nat, a: nat, b: nat)
    ensures Xor(k, Xor(k, o, a), Xor(k, o, b)) == Xor(k, a, b)
  {
    if k > 0 {
      var u, v := Xor(k, o, a), Xor(k, o, b);
      assert u / 2 == Xor(k - 1, o / 2, a / 2) && v / 2 == Xor(k - 1, o / 2, b / 2);
      assert u % 2 == v % 2 <==> a % 2 == b % 2;
      XorCombine(k - 1, o / 2, a / 2, b / 2);
    }
  }

  lemma Halves(z: nat, c: nat)
    ensures (2 * z + c) / 2 == z + c / 2 && (2 * z + c) % 2 == c % 2
  {
  }

  lemma XorUnfold(k: nat, a: nat, b: nat)
    requires k > 0
    ensures Xor(k, a, b) == 2 * Xor(k - 1, a / 2, b / 2) + (if a % 2 == b % 2 then 0 else 1)
  {
  }

  /** What the parts X and Y above the low parts c and d contribute. */
  function Upper(k: nat, j: nat, X: nat, Y: nat, c: nat, d: nat): int {
    Xor(k + j, X + c, Y + d) - Xor(j, c, d)
  }

  lemma XorPeel(k: nat, j: nat, X: nat, Y: nat, c: nat, d: nat)
    requires j > 0
    ensures Upper(k, j, 2 * X, 2 * Y, c, d) == 2 * Upper(k, j - 1, X, Y, c / 2, d / 2)
  {
    hide Xor;
    Halves(X, c);
    Halves(Y, d);
    XorUnfold(k + j, 2 * X + c, 2 * Y + d);
    XorUnfold(j, c, d);
  }

  /** High and low digits do not mix. */
  lemma {:induction false} XorDigits(k: nat, j: nat, x: nat, y: nat, c: nat, d: nat)
    requires c < Pow2(j) && d < Pow2(j)
    ensures Upper(k, j, Pow2(j) * x, Pow2(j) * y, c, d) == Pow2(j) * Xor(k, x, y)
  {
    if j > 0 {
      var p := Pow2(j - 1);
      XorDigits(k, j - 1, x, y, c / 2, d / 2);
      hide Upper, Xor;
      Doubled(p, x);
      Doubled(p, y);
      Doubled(p, Xor(k, x, y));
      XorPeel(k, j, p * x, p * y, c, d);
    }
  }

  lemma Doubled(p: nat, x: nat)
    ensures (2 * p) * x == 2 * (p * x)
  {
  }

  lemma XorPushByte(k: nat, x: nat, y: nat, c: byte, d: byte)
    ensures Xor(k + 8, 256 * x + c, 256 * y + d) == 256 * Xor(k, x, y) + Xor(8, c, d)
  {
    Widths();
    hide Xor, Pow2;
    XorDigits(k, 8, x, y, c, d);
  }

  function XorBytes(a: Bytes, b: Bytes): (d: Bytes)
    requires |a| == |b|
    ensures |d| == |a|
  {
    seq(|a|, i requires 0 <= i < |a| => XorByte(a[i], b[i]))
  }

  /** The bytewise exclusive or, read as a number, is the exclusive or of the numbers. */
  lemma {:induction false} XorBytesValue(a: Bytes, b: Bytes)
    requires |a| == |b|
    ensures BE(XorBytes(a, b)) == Xor(8 * |a|, BE(a), BE(b))
  {
    if a != [] {
      var n := |a| - 1;
      var d := XorBytes(a, b);
      XorBytesValue(a[..n], b[..n]);
      assert d[..n] == XorBytes(a[..n], b[..n]) && d[n] == XorByte(a[n], b[n]);
      hide XorBytes, Xor;
      XorPushByte(8 * n, BE(a[..n]), BE(b[..n]), a[n], b[n]);
    }
  }

  /** The distance between two ids from their distances to a third. */
  lemma GapFromOrigin(own: Hash, n: Node, target: Hash)
    ensures Gap(n, target) == Xor(256, BE(Distance(own, n.id)), BE(Distance(own, target)))
  {
    var d, e := Distance(own, n.id), Distance(own, target);
    forall i | 0 <= i < 32 ensures Distance(n.id, target)[i] == XorByte(d[i], e[i]) {
      XorCombine(8, own[i], n.id[i], target[i]);
    }
    hide XorByte, BE;
    assert Distance(n.id, target) == XorBytes(d, e);
    XorBytesValue(d, e);
  }

  lemma DistanceSymmetric(a: Hash, b: Hash)
    ensures Distance(a, b) == Distance(b, a)
  {
    forall i | 0 <= i < 32 ensures Distance(a, b)[i] == Distance(b, a)[i] {
      XorSymmetric(8, a[i], b[i]);
    }
  }

  lemma DistancePositive(a: Hash, b: Hash)
    ensures BE(Distance(a, b)) > 0 <==> a != b
  {
    if a == b {
      forall i | 0 <= i < 32 ensures Distance(a, a)[i] == 0 { XorSelf(8, a[i]); }
      BEZeros(Distance(a, a));
    } else if BE(Distance(a, b)) == 0 {
      forall i | 0 <= i < 32 ensures Distance(b, b)[i] == 0 { XorSelf(8, b[i]); }
      BEZeros(Distance(b, b));
      hide BE, Distance;
      BEInjective(Distance(a, b), Distance(b, b));
      DistanceCancel(a, b, b);
    }
  }

  // ---------- the highest bit of a distance ----------

  /** Numbers with the same highest bit differ below it. */
  lemma {:induction false} XorSameHigh(k: nat, x: nat, y: nat)
    requires 0 < x < Pow2(k) && 0 < y < Pow2(k) && Log2(x) == Log2(y)
    ensures Xor(k, x, y) < Pow2(Log2(x))
  {
    if x == 1 || y == 1 {
      XorSelf(k, 1);
    } else {
      XorSameHigh(k - 1, x / 2, y / 2);
    }
  }

  /** Otherwise the higher of the two highest bits stays. */
  lemma {:induction false} XorHigher(k: nat, x: nat, y: nat)
    requires 0 < x < Pow2(k) && y < Pow2(k) && (y == 0 || Log2(y) < Log2(x))
    ensures Xor(k, x, y) > 0 && Log2(Xor(k, x, y)) == Log2(x)
  {
    if x == 1 {
      assert y == 0;
      XorUnfold(k, 1, 0);
      XorSelf(k - 1, 0);
    } else {
      XorHigher(k - 1, x / 2, y / 2);
      var v := Xor(k - 1, x / 2, y / 2);
      XorUnfold(k, x, y);
      assert Xor(k, x, y) / 2 == v && Log2(Xor(k, x, y)) == 1 + Log2(v);
    }
  }

  /** The highest bit of every distance from our id that leads to bucket b. */
  function Height(b: nat): int { 8 * (31 - b / 8) + b % 8 }

  lemma HeightInjective(a: nat, b: nat)
    requires a < K_BUCKETS && b < K_BUCKETS && Height(a) == Height(b)
    ensures a == b
  {
  }

  /** What a bucket says about the distance of its nodes to the target: -1 for the target's own
      bucket, otherwise the highest bit of that distance. */
  function Band(own: Hash, target: Hash, b: nat): int {
    if target == own then Height(b)
    else if b == Slot(target, own) then -1
    else Max(Height(b), Height(Slot(target, own)))
  }

  lemma HeightOf(own: Hash, id: Hash)
    requires id != own
    ensures var x := BE(Distance(own, id)); 0 < x < Pow2(256) && Log2(x) == Height(Slot(own, id))
  {
    DistancePositive(own, id);
    hide BE, Distance, Log2, BucketIndex;
    BucketPosition(Distance(own, id));
    BEBound(Distance(own, id));
    BytesAreBits(32);
  }

  lemma {:induction false} BytesAreBits(n: nat)
    ensures Pow2(8 * n) == Pow256(n)
  {
    if n > 0 {
      BytesAreBits(n - 1);
      EightMore(8 * (n - 1));
    }
  }

  /** A node of the target's bucket is nearer than the target is to us, by its highest bit; any other
      node's distance has the highest bit its band says. */
  lemma BandOfGap(own: Hash, target: Hash, n: Node)
    requires n.id != own
    ensures var b := Band(own, target, Slot(own, n.id));
            if b == -1 then target != own && Gap(n, target) < Pow2(Height(Slot(target, own)))
            else Gap(n, target) > 0 && Log2(Gap(n, target)) == b
  {
    hide Gap, BE, Distance, Log2, Xor, Slot, BucketIndex;
    var x, y := BE(Distance(own, n.id)), BE(Distance(own, target));
    GapFromOrigin(own, n, target);
    HeightOf(own, n.id);
    if target == own {
      DistancePositive(own, target);
      XorHigher(256, x, y);
    } else {
      HeightOf(own, target);
      SlotSymmetric(own, target);
      if Slot(own, n.id) == Slot(target, own) {
        XorSameHigh(256, x, y);
      } else {
        BandOfOthers(own, target, n, x, y);
      }
    }
  }

  lemma SlotSymmetric(a: Hash, b: Hash)
    ensures Slot(a, b) == Slot(b, a)
  {
    DistanceSymmetric(a, b);
  }

  lemma BandOfOthers(own: Hash, target: Hash, n: Node, x: nat, y: nat)
    requires Slot(own, n.id) != Slot(target, own)
    requires 0 < x < Pow2(256) && 0 < y < Pow2(256)
    requires Log2(x) == Height(Slot(own, n.id)) && Log2(y) == Height(Slot(target, own))
    ensures Xor(256, x, y) > 0 && Log2(Xor(256, x, y)) == Max(Height(Slot(own, n.id)), Height(Slot(target, own)))
  {
    hide Log2, Xor, Slot;
    if Height(Slot(own, n.id)) == Height(Slot(target, own)) {
      HeightInjective(Slot(own, n.id), Slot(target, own));
    }
    if Log2(y) < Log2(x) {
      XorHigher(256, x, y);
    } else {
      XorHigher(256, y, x);
      XorSymmetric(256, x, y);
    }
  }

  lemma LowerHighBit(x: nat, y: nat, h: nat)
    requires y > 0 && h <= Log2(y) && x < Pow2(h)
    ensures x < y
  {
    Log2Bounds(y);
    Pow2Monotone(h, Log2(y));
  }

  /** Bands order distances. */
  lemma BandsOrder(own: Hash, target: Hash, m: Node, n: Node)
    requires m.id != own && n.id != own
    requires Band(own, target, Slot(own, m.id)) < Band(own, target, Slot(own, n.id))
    ensures Gap(m, target) < Gap(n, target)
  {
    hide Gap, Log2, Slot, Height;
    BandOfGap(own, target, m);
    BandOfGap(own, target, n);
    BandRange(own, target, Slot(own, m.id));
    var b := Band(own, target, Slot(own, m.id));
    if b == -1 {
      BandRange(own, target, Slot(own, n.id));
      HeightRange(Slot(target, own));
      LowerHighBit(Gap(m, target), Gap(n, target), Height(Slot(target, own)));
    } else {
      Log2Bounds(Gap(m, target));
      assert Gap(m, target) < Pow2(b + 1);
      LowerHighBit(Gap(m, target), Gap(n, target), b + 1);
    }
  }

  lemma HeightRange(b: nat)
    requires b < K_BUCKETS
    ensures 0 <= Height(b) < 256
  {
  }

  lemma BandRange(own: Hash, target: Hash, b: nat)
    requires b < K_BUCKETS
    ensures Band(own, target, b) >= -1
    ensures target != own && Band(own, target, b) != -1 ==> Band(own, target, b) >= Height(Slot(target, own))
    ensures target == own ==> Band(own, target, b) >= 0
  {
    hide Slot;
  }

  // ---------- the closest nodes of the whole table ----------

  /** The `count` nearest of some nodes. */
  function Nearest(nodes: Bucket, target: Hash, count: nat): Bucket { Take(Sort(nodes, Nearer(target)), count) }

  /** The bucket of a node is among those the search reads, which depends on how many living nodes
      the buckets around the target's hold, and on nothing else. */
  ghost predicate InWindow(own: Hash, t: Table, target: Hash, count: nat, now: u64, timeout: u64, n: Node)
    requires |t| == K_BUCKETS
  {
    var c := Slot(target, own);
    var k := Rounds(t, c, 0, count, now, timeout);
    Lo(c, k) <= Slot(own, n.id) < Hi(c, k)
  }

  lemma LivingBucket(own: Hash, t: Table, now: u64, timeout: u64, n: Node)
    requires TableOk(own, t) && n in AllLiving(t, now, timeout)
    ensures n.id != own && Slot(own, n.id) < K_BUCKETS && n in t[Slot(own, n.id)]
  {
    hide Slot, AllLiving;
    AllLivingMember(t, now, timeout, n);
    var k :| 0 <= k < |t| && n in t[k];
    assert BucketOk(own, t[k], k);
  }

  /** Of the living nodes, exactly those in the window are reached. */
  lemma ReachedIffInWindow(own: Hash, t: Table, target: Hash, count: nat, now: u64, timeout: u64, n: Node)
    requires TableOk(own, t) && n in AllLiving(t, now, timeout)
    ensures n in Reach(t, Slot(target, own), count, now, timeout) <==> InWindow(own, t, target, count, now, timeout, n)
  {
    LivingBucket(own, t, now, timeout, n);
    AllLivingMember(t, now, timeout, n);
    assert |t| == K_BUCKETS;
    hide Slot, AllLiving, Rounds, Alive, TableOk;
    var c := Slot(target, own);
    var k := Rounds(t, c, 0, count, now, timeout);
    AllLivingMember(Window(t, c, k), now, timeout, n);
    SliceMember(own, t, Lo(c, k), Hi(c, k), n);
  }

  lemma SliceMember(own: Hash, t: Table, lo: nat, hi: nat, n: Node)
    requires TableOk(own, t) && lo <= hi <= K_BUCKETS && n in t[Slot(own, n.id)]
    ensures (exists j :: 0 <= j < hi - lo && n in t[lo..hi][j]) <==> lo <= Slot(own, n.id) < hi
  {
    hide Slot;
    var b, w := Slot(own, n.id), t[lo..hi];
    if lo <= b < hi {
      assert w[b - lo] == t[b];
    }
    if j :| 0 <= j < hi - lo && n in w[j] {
      assert w[j] == t[lo + j];
      assert BucketOk(own, t[lo + j], lo + j);
    }
  }

  lemma LivingDistinctIds(own: Hash, t: Table, now: u64, timeout: u64)
    requires TableOk(own, t)
    ensures DistinctIds(AllLiving(t, now, timeout))
  {
    hide BucketOk, AllLiving, DistinctIds;
    forall j | 0 <= j < |t| ensures BucketOk(own, t[j], 0 + j) {}
    AllLivingDistinct(own, t, 0, now, timeout);
  }

  lemma NearestFacts(nodes: Bucket, target: Hash, count: nat)
    requires DistinctIds(nodes)
    ensures var r := Nearest(nodes, target, count);
            && |r| == Min(count, |nodes|) && StrictlyNearer(r, target) && NoneNearer(r, nodes, target)
            && forall n :: n in r ==> n in nodes
  {
    hide Gap, Sort, DistinctIds;
    var s := Sort(nodes, Nearer(target));
    NearerOrder(target);
    SortProps(nodes, Nearer(target));
    DistinctIdsMultiset(nodes, s);
    SortedStrictly(s, target);
    hide Nearer;
    forall n ensures n in s <==> n in nodes { assert n in multiset(s) <==> n in multiset(nodes); }
    TakeIsNearest(s, count, target);
    TakeFacts(s, nodes, count, target);
  }

  lemma StrictlyDistinct(p: Bucket, target: Hash)
    requires StrictlyNearer(p, target)
    ensures Distinct(p)
  {
    hide Gap;
  }

  /** Only one list holds the nearest nodes of a collection in order. */
  lemma NearestUnique(p: Bucket, q: Bucket, nodes: Bucket, target: Hash)
    requires |p| == |q| && StrictlyNearer(p, target) && StrictlyNearer(q, target)
    requires NoneNearer(p, nodes, target) && NoneNearer(q, nodes, target)
    requires forall n :: n in p || n in q ==> n in nodes
    ensures p == q
  {
    StrictlyDistinct(p, target);
    StrictlyDistinct(q, target);
    DistinctCardinality(p);
    DistinctCardinality(q);
    var a, b := Elements(p), Elements(q);
    NoneApart(p, q, nodes, target);
    if a <= b {
      SameSize(a, b);
    } else {
      SameSize(b, a);
    }
    DistinctMultiset(p, q);
    NearestSorted(p, target);
    NearestSorted(q, target);
    hide StrictlyNearer, NoneNearer, Elements, Distinct;
    SortedUnique(p, q, Nearer(target));
  }

  lemma NoneApart(p: Bucket, q: Bucket, nodes: Bucket, target: Hash)
    requires NoneNearer(p, nodes, target) && NoneNearer(q, nodes, target)
    requires forall n :: n in p || n in q ==> n in nodes
    ensures Elements(p) <= Elements(q) || Elements(q) <= Elements(p)
  {
    hide Gap;
    forall m, n | m in p && m !in q && n in q ensures n in p { }
  }

  lemma SameSize(a: set<Node>, b: set<Node>)
    requires a <= b && |a| == |b|
    ensures a == b
  {
    SubsetSize(b - a, b);
    assert |b - a| == |b| - |a|;
  }

  lemma NearestSorted(p: Bucket, target: Hash)
    requires StrictlyNearer(p, target)
    ensures Sorted(p, Nearer(target)) && AntisymmetricOn(p, Nearer(target))
  {
    hide Gap;
  }

  /** The search returns the closest living nodes of the whole table if and only if each of these
      nodes lies in the window of buckets that it reads. */
  lemma GloballyClosestIffInWindow(own: Hash, t: Table, target: Hash, count: nat, now: u64, timeout: u64)
    requires TableOk(own, t)
    ensures var nearest := Nearest(AllLiving(t, now, timeout), target, count);
            Closest(own, t, target, count, now, timeout) == nearest
            <==> forall n :: n in nearest ==> InWindow(own, t, target, count, now, timeout, n)
  {
    assert |t| == K_BUCKETS;
    var all, reach := AllLiving(t, now, timeout), Reach(t, Slot(target, own), count, now, timeout);
    var r, nearest := Closest(own, t, target, count, now, timeout), Nearest(all, target, count);
    LivingDistinctIds(own, t, now, timeout);
    ReachDistinct(own, t, Slot(target, own), count, now, timeout);
    assert r == Nearest(reach, target, count);
    hide TableOk, AllLiving, Reach, Slot, DistinctIds, Closest, Nearest, InWindow, NoneNearer, StrictlyNearer;
    ClosestFacts(own, t, target, count, now, timeout);
    NearestFacts(all, target, count);
    NearestFacts(reach, target, count);
    ReachWithin(t, Slot(target, own), count, now, timeout);
    forall n | n in all ensures n in reach <==> InWindow(own, t, target, count, now, timeout, n) {
      ReachedIffInWindow(own, t, target, count, now, timeout, n);
    }
    if forall n :: n in nearest ==> n in reach {
      FewerNodes(nearest, all, reach, target);
      NearestUnique(r, nearest, reach, target);
    }
  }

  lemma ReachWithin(t: Table, idx: nat, count: nat, now: u64, timeout: u64)
    requires |t| == K_BUCKETS && idx < K_BUCKETS
    ensures forall n :: n in Reach(t, idx, count, now, timeout) ==> n in AllLiving(t, now, timeout)
  {
    hide Reach, AllLiving, Rounds, Lo, Hi;
    ReachCut(t, idx, count, now, timeout);
  }

  lemma FewerNodes(r: Bucket, all: Bucket, some: Bucket, target: Hash)
    requires NoneNearer(r, all, target) && forall n :: n in some ==> n in all
    ensures NoneNearer(r, some, target)
  {
    hide Gap;
  }

  /** And being the closest list of the table is the same as leaving out nothing nearer. */
  lemma ClosestIffNoneNearer(own: Hash, t: Table, target: Hash, count: nat, now: u64, timeout: u64)
    requires TableOk(own, t)
    ensures var all, r := AllLiving(t, now, timeout), Closest(own, t, target, count, now, timeout);
            r == Nearest(all, target, count) <==> NoneNearer(r, all, target)
  {
    var all, r := AllLiving(t, now, timeout), Closest(own, t, target, count, now, timeout);
    LivingDistinctIds(own, t, now, timeout);
    hide TableOk, AllLiving, DistinctIds, Closest, Nearest, NoneNearer, StrictlyNearer;
    ClosestFacts(own, t, target, count, now, timeout);
    NearestFacts(all, target, count);
    if NoneNearer(r, all, target) {
      NearestUnique(r, Nearest(all, target, count), all, target);
    }
  }

  // ---------- tests on the buckets alone ----------

  ghost function BandOf(own: Hash, target: Hash, n: Node): int { Band(own, target, Slot(own, n.id)) }

  /** The reached nodes in bands below `limit`. */
  ghost function ReachedBelow(
      own: Hash, t: Table, target: Hash, count: nat, now: u64, timeout: u64, limit: int): set<Node>
    requires |t| == K_BUCKETS
  {
    set n | n in Reach(t, Slot(target, own), count, now, timeout) && BandOf(own, target, n) < limit
  }

  lemma TakeHoldsNearer(nodes: Bucket, r: Bucket, near: set<Node>, m: Node, target: Hash)
    requires NoneNearer(r, nodes, target) && m in r
    requires forall n :: n in near ==> n in nodes && Gap(n, target) < Gap(m, target)
    ensures |near| < |r|
  {
    hide Gap;
    forall n | n in near ensures n in r && n != m { }
    SubsetSize(near + {m}, Elements(r));
    ElementsSize(r);
  }

  lemma {:induction false} ElementsSize<T>(s: seq<T>)
    ensures |Elements(s)| <= |s|
  {
    if s != [] {
      var n := |s| - 1;
      ElementsSize(s[..n]);
      assert Elements(s) == Elements(s[..n]) + {s[n]};
    }
  }

  /** Enough reached nodes in bands below those of all unread nodes: the search is right. */
  lemma EnoughInNearBands(own: Hash, t: Table, target: Hash, count: nat, now: u64, timeout: u64, limit: int)
    requires TableOk(own, t)
    requires |ReachedBelow(own, t, target, count, now, timeout, limit)| >= count
    requires forall n :: n in AllLiving(t, now, timeout) && !InWindow(own, t, target, count, now, timeout, n)
               ==> BandOf(own, target, n) >= limit
    ensures Closest(own, t, target, count, now, timeout) == Nearest(AllLiving(t, now, timeout), target, count)
  {
    assert |t| == K_BUCKETS;
    var all, reach := AllLiving(t, now, timeout), Reach(t, Slot(target, own), count, now, timeout);
    var nearest := Nearest(all, target, count);
    var near := ReachedBelow(own, t, target, count, now, timeout, limit);
    LivingDistinctIds(own, t, now, timeout);
    ReachWithin(t, Slot(target, own), count, now, timeout);
    NearestFacts(all, target, count);
    assert forall n :: n in near ==> n in all && BandOf(own, target, n) < limit;
    GloballyClosestIffInWindow(own, t, target, count, now, timeout);
    hide TableOk, AllLiving, Reach, Slot, Closest, Nearest, InWindow, NoneNearer, StrictlyNearer;
    hide DistinctIds, Band, ReachedBelow, Gap;
    forall m | m in nearest ensures InWindow(own, t, target, count, now, timeout, m) {
      if !InWindow(own, t, target, count, now, timeout, m) {
        forall n | n in near ensures n in all && Gap(n, target) < Gap(m, target) {
          LivingBucket(own, t, now, timeout, m);
          LivingBucket(own, t, now, timeout, n);
          BandsOrder(own, target, n, m);
        }
        TakeHoldsNearer(all, nearest, near, m, target);
      }
    }
  }

  /** An unread node with fewer reached nodes up to its band than are returned: the search is wrong. */
  lemma TooFewInNearBands(own: Hash, t: Table, target: Hash, count: nat, now: u64, timeout: u64, u: Node)
    requires TableOk(own, t) && u in AllLiving(t, now, timeout)
    requires !InWindow(own, t, target, count, now, timeout, u)
    requires |ReachedBelow(own, t, target, count, now, timeout, BandOf(own, target, u) + 1)|
             < Min(count, |AllLiving(t, now, timeout)|)
    ensures Closest(own, t, target, count, now, timeout) != Nearest(AllLiving(t, now, timeout), target, count)
  {
    assert |t| == K_BUCKETS;
    var all, reach := AllLiving(t, now, timeout), Reach(t, Slot(target, own), count, now, timeout);
    var r := Closest(own, t, target, count, now, timeout);
    var near := ReachedBelow(own, t, target, count, now, timeout, BandOf(own, target, u) + 1);
    ReturnedAreReached(own, t, target, count, now, timeout);
    ReachedIffInWindow(own, t, target, count, now, timeout, u);
    ClosestIffNoneNearer(own, t, target, count, now, timeout);
    ClosestFacts(own, t, target, count, now, timeout);
    StrictlyDistinct(r, target);
    DistinctCardinality(r);
    assert forall n :: n in reach && n !in near ==> BandOf(own, target, n) > BandOf(own, target, u);
    hide TableOk, AllLiving, Reach, Slot, Closest, Nearest, InWindow, StrictlyNearer, Band, ReachedBelow, Gap;
    if Elements(r) <= near {
      SubsetSize(Elements(r), near);
    }
    var m :| m in r && m !in near;
    LivingBucket(own, t, now, timeout, m);
    LivingBucket(own, t, now, timeout, u);
    BandsOrder(own, target, u, m);
  }

  lemma ReturnedAreReached(own: Hash, t: Table, target: Hash, count: nat, now: u64, timeout: u64)
    requires TableOk(own, t)
    ensures forall n :: n in Closest(own, t, target, count, now, timeout)
              ==> n in Reach(t, Slot(target, own), count, now, timeout)
  {
    ReachDistinct(own, t, Slot(target, own), count, now, timeout);
    NearestFacts(Reach(t, Slot(target, own), count, now, timeout), target, count);
  }

  /** The target's own bucket first: as long as it holds `count` living nodes, the search is right. */
  lemma OwnBucketSuffices(own: Hash, t: Table, target: Hash, count: nat, now: u64, timeout: u64)
    requires TableOk(own, t) && target != own
    requires count <= |Living(t[Slot(target, own)], now, timeout)|
    ensures Closest(own, t, target, count, now, timeout) == Nearest(AllLiving(t, now, timeout), target, count)
  {
    assert |t| == K_BUCKETS;
    var c := Slot(target, own);
    var home := Living(t[c], now, timeout);
    if count > 0 {
      forall n | n in AllLiving(t, now, timeout) && !InWindow(own, t, target, count, now, timeout, n)
        ensures BandOf(own, target, n) >= 0 {
        LivingBucket(own, t, now, timeout, n);
        HomeIsRead(t, c, count, now, timeout);
        HeightRange(c);
      }
      HomeReached(own, t, target, count, now, timeout);
      hide *;
      EnoughInNearBands(own, t, target, count, now, timeout, 0);
    } else {
      assert Nearest(AllLiving(t, now, timeout), target, 0) == [];
      assert Closest(own, t, target, 0, now, timeout) == [];
    }
  }

  lemma HomeIsRead(t: Table, c: nat, count: nat, now: u64, timeout: u64)
    requires |t| == K_BUCKETS && c < K_BUCKETS && count > 0
    ensures var k := Rounds(t, c, 0, count, now, timeout); Lo(c, k) <= c < Hi(c, k)
  {
    assert Window(t, c, 0) == [];
    assert AllLiving([], now, timeout) == [];
    assert !Enough(t, c, 0, count, now, timeout);
  }

  lemma HomeReached(own: Hash, t: Table, target: Hash, count: nat, now: u64, timeout: u64)
    requires TableOk(own, t) && target != own && count > 0
    ensures |ReachedBelow(own, t, target, count, now, timeout, 0)| >= |Living(t[Slot(target, own)], now, timeout)|
  {
    assert |t| == K_BUCKETS;
    var c := Slot(target, own);
    var home := Living(t[c], now, timeout);
    assert BucketOk(own, t[c], c);
    LivingDistinct(t[c], now, timeout);
    assert Distinct(home);
    DistinctCardinality(home);
    LivingIn(t[c], now, timeout);
    HomeIsRead(t, c, count, now, timeout);
    hide Slot, AllLiving, Rounds, Living, Alive;
    forall n | n in home ensures n in ReachedBelow(own, t, target, count, now, timeout, 0) {
      AllLivingMember(t, now, timeout, n);
      ReachedIffInWindow(own, t, target, count, now, timeout, n);
    }
    SubsetSize(Elements(home), ReachedBelow(own, t, target, count, now, timeout, 0));
  }
}
