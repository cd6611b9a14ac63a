/** The level-by-level Merkle tree with odd-leaf duplication that `state_root.rs` and
    `settlement.rs` both use, each with its own node tag. */
module Merkle {
  import opened Integers
  import opened Collections
  import opened Bytes

  /** Bytes hashed for the i-th node above a level: a lone last child is hashed with itself. */
  function PairBytes(tag: Bytes, level: seq<Hash>, i: nat): Bytes
    requires 2 * i < |level|
  {
    tag + level[2 * i] + (if 2 * i + 1 < |level| then level[2 * i + 1] else level[2 * i])
  }

  function NextLevel(H: Hasher, tag: Bytes, level: seq<Hash>): (next: seq<Hash>)
    ensures |next| == (|level| + 1) / 2
  {
    seq<Hash>((|level| + 1) / 2, i requires 0 <= i < (|level| + 1) / 2 => H(PairBytes(tag, level, i)))
  }

  function Root(H: Hasher, tag: Bytes, level: seq<Hash>): Hash
    requires level != []
    decreases |level|
  {
    if |level| == 1 then level[0] else Root(H, tag, NextLevel(H, tag, level))
  }

  /** `compute_merkle_root` on a non-empty leaf list: the layer is rewritten until one hash is left. */
  method ComputeRoot(H: Hasher, tag: Bytes, leaves: seq<Hash>) returns (root: Hash)
    requires leaves != []
    ensures root == Root(H, tag, leaves)
  {
    var layer := leaves;
    while |layer| > 1
      invariant layer != []
      invariant Root(H, tag, layer) == Root(H, tag, leaves)
    {
      var next: seq<Hash> := [];
      var i := 0;
      while i < |layer|
        invariant 0 <= i <= |layer| + 1
        invariant i % 2 == 0
        invariant |next| == i / 2
        invariant forall k :: 0 <= k < |next| ==> next[k] == NextLevel(H, tag, layer)[k]
      {
        var right := if i + 1 < |layer| then layer[i + 1] else layer[i];
        assert 2 * (i / 2) == i && tag + layer[i] + right == PairBytes(tag, layer, i / 2);
        next := next + [H(tag + layer[i] + right)];
        i := i + 2;
      }
      assert next == NextLevel(H, tag, layer);
      layer := next;
    }
    root := layer[0];
  }

  // ---------- what is hashed ----------

  ghost function LevelBytes(tag: Bytes, level: seq<Hash>): set<Bytes> {
    set i | 0 <= i < (|level| + 1) / 2 :: PairBytes(tag, level, i)
  }

  /** Every byte string hashed on the way from `level` to its root. */
  ghost function TreeBytes(H: Hasher, tag: Bytes, level: seq<Hash>): set<Bytes>
    decreases |level|
  {
    if |level| <= 1 then {} else LevelBytes(tag, level) + TreeBytes(H, tag, NextLevel(H, tag, level))
  }

  // ---------- one level determines the level below ----------

  lemma PairDetermined(tag: Bytes, x: seq<Hash>, y: seq<Hash>, i: nat)
    requires 2 * i < |x| && 2 * i < |y|
    requires PairBytes(tag, x, i) == PairBytes(tag, y, i)
    ensures x[2 * i] == y[2 * i]
    ensures 2 * i + 1 < |x| && 2 * i + 1 < |y| ==> x[2 * i + 1] == y[2 * i + 1]
    ensures 2 * i + 1 == |x| && 2 * i + 1 < |y| ==> y[2 * i] == y[2 * i + 1]
    ensures 2 * i + 1 < |x| && 2 * i + 1 == |y| ==> x[2 * i] == x[2 * i + 1]
  {
    var p, q := PairBytes(tag, x, i), PairBytes(tag, y, i);
    var k := |tag|;
    assert p[k..k + 32] == x[2 * i] && q[k..k + 32] == y[2 * i];
    assert p[k + 32..] == (if 2 * i + 1 < |x| then x[2 * i + 1] else x[2 * i]);
    assert q[k + 32..] == (if 2 * i + 1 < |y| then y[2 * i + 1] else y[2 * i]);
  }

  /** Equal next levels come from equal levels, unless one list is the other with its last leaf
      repeated; distinct leaves or equal lengths rule that out. */
  lemma NextLevelInjective(H: Hasher, tag: Bytes, x: seq<Hash>, y: seq<Hash>, hashed: set<Bytes>)
    requires CollisionFree(H, hashed)
    requires LevelBytes(tag, x) <= hashed && LevelBytes(tag, y) <= hashed
    requires NextLevel(H, tag, x) == NextLevel(H, tag, y)
    requires |x| == |y| || (Distinct(x) && Distinct(y))
    ensures x == y
  {
    var nx, ny := NextLevel(H, tag, x), NextLevel(H, tag, y);
    forall i: nat | i < |nx| ensures PairBytes(tag, x, i) == PairBytes(tag, y, i) {
      assert nx[i] == ny[i];
      assert PairBytes(tag, x, i) in LevelBytes(tag, x) && PairBytes(tag, y, i) in LevelBytes(tag, y);
      SameHash(H, hashed, PairBytes(tag, x, i), PairBytes(tag, y, i));
    }
    if |x| != |y| {
      PairDetermined(tag, x, y, |nx| - 1);
      assert false;
    }
    forall k | 0 <= k < |x| ensures x[k] == y[k] {
      PairDetermined(tag, x, y, k / 2);
    }
  }

  lemma DistinctNextLevel(H: Hasher, tag: Bytes, x: seq<Hash>, hashed: set<Bytes>)
    requires CollisionFree(H, hashed) && LevelBytes(tag, x) <= hashed && Distinct(x)
    ensures Distinct(NextLevel(H, tag, x))
  {
    var n := NextLevel(H, tag, x);
    forall i, j | 0 <= i < j < |n| ensures n[i] != n[j] {
      var p, q, k := PairBytes(tag, x, i), PairBytes(tag, x, j), |tag|;
      assert p[k..k + 32] == x[2 * i] && q[k..k + 32] == x[2 * j];
      assert p in LevelBytes(tag, x) && q in LevelBytes(tag, x);
      SameHash(H, hashed, p, q);
    }
  }

  /** A root determines a leaf list of known length (no leaf need be distinct). */
  lemma {:induction false} RootInjectiveSameLength(
      H: Hasher, tag: Bytes, x: seq<Hash>, y: seq<Hash>, hashed: set<Bytes>)
    requires |x| == |y| > 0
    requires CollisionFree(H, hashed)
    requires TreeBytes(H, tag, x) <= hashed && TreeBytes(H, tag, y) <= hashed
    requires Root(H, tag, x) == Root(H, tag, y)
    ensures x == y
    decreases |x|
  {
    if |x| > 1 {
      RootInjectiveSameLength(H, tag, NextLevel(H, tag, x), NextLevel(H, tag, y), hashed);
      NextLevelInjective(H, tag, x, y, hashed);
    }
  }

  // ---------- a root determines even the number of distinct leaves ----------

  function Depth(n: nat): nat
    requires n > 0
  {
    if n == 1 then 0 else 1 + Depth((n + 1) / 2)
  }

  /** The level k steps above the leaves. */
  function Level(H: Hasher, tag: Bytes, k: nat, leaves: seq<Hash>): (l: seq<Hash>)
    ensures leaves != [] ==> l != []
  {
    if k == 0 then leaves else NextLevel(H, tag, Level(H, tag, k - 1, leaves))
  }

  /** The nodes of the first k levels above the leaves are all among `hashed`. */
  ghost predicate LevelsHashed(H: Hasher, tag: Bytes, k: nat, leaves: seq<Hash>, hashed: set<Bytes>) {
    k == 0
    || (LevelBytes(tag, Level(H, tag, k - 1, leaves)) <= hashed && LevelsHashed(H, tag, k - 1, leaves, hashed))
  }

  lemma {:induction false} LevelsHashedShift(
      H: Hasher, tag: Bytes, k: nat, leaves: seq<Hash>, hashed: set<Bytes>, more: set<Bytes>)
    requires LevelsHashed(H, tag, k, NextLevel(H, tag, leaves), hashed)
    requires hashed <= more && LevelBytes(tag, leaves) <= more
    ensures LevelsHashed(H, tag, k + 1, leaves, more)
  {
    if k > 0 {
      LevelsHashedShift(H, tag, k - 1, leaves, hashed, more);
      LevelShift(H, tag, k - 1, leaves);
    }
  }

  lemma {:induction false} LevelsHashedGrow(
      H: Hasher, tag: Bytes, k: nat, leaves: seq<Hash>, hashed: set<Bytes>, more: set<Bytes>)
    requires LevelsHashed(H, tag, k, leaves, hashed) && hashed <= more
    ensures LevelsHashed(H, tag, k, leaves, more)
  {
    if k > 0 {
      LevelsHashedGrow(H, tag, k - 1, leaves, hashed, more);
    }
  }

  lemma {:induction false} LevelShift(H: Hasher, tag: Bytes, k: nat, leaves: seq<Hash>)
    ensures Level(H, tag, k + 1, leaves) == Level(H, tag, k, NextLevel(H, tag, leaves))
  {
    if k > 0 {
      LevelShift(H, tag, k - 1, leaves);
    }
  }

  /** The root is the single hash of level `Depth`, and every level below it was hashed. */
  lemma {:induction false} RootIsTopLevel(H: Hasher, tag: Bytes, leaves: seq<Hash>)
    requires leaves != []
    ensures Level(H, tag, Depth(|leaves|), leaves) == [Root(H, tag, leaves)]
    ensures LevelsHashed(H, tag, Depth(|leaves|), leaves, TreeBytes(H, tag, leaves))
    decreases |leaves|
  {
    hide PairBytes, NextLevel;
    if |leaves| == 1 {
    } else {
      var next := NextLevel(H, tag, leaves);
      RootIsTopLevel(H, tag, next);
      LevelShift(H, tag, Depth(|next|), leaves);
      LevelsHashedShift(H, tag, Depth(|next|), leaves, TreeBytes(H, tag, next), TreeBytes(H, tag, leaves));
    }
  }

  /** Leaf hashes come from hashed byte strings that do not begin with the node tag. */
  ghost predicate LeavesHashed(H: Hasher, tag: Bytes, leaves: seq<Hash>, hashed: set<Bytes>) {
    forall i :: 0 <= i < |leaves| ==> LeafHashed(H, tag, leaves[i], hashed)
  }

  ghost predicate LeafHashed(H: Hasher, tag: Bytes, leaf: Hash, hashed: set<Bytes>) {
    exists p :: p in hashed && H(p) == leaf && !(tag <= p)
  }

  lemma LeftmostNode(H: Hasher, tag: Bytes, k: nat, a: seq<Hash>, hashed: set<Bytes>)
    requires k > 0 && a != [] && LevelsHashed(H, tag, k, a, hashed)
    ensures var p := PairBytes(tag, Level(H, tag, k - 1, a), 0);
            p in hashed && tag <= p && H(p) == Level(H, tag, k, a)[0]
  {
    var below := Level(H, tag, k - 1, a);
    assert PairBytes(tag, below, 0) in LevelBytes(tag, below);
  }

  lemma LeafIsNoNode(H: Hasher, tag: Bytes, leaves: seq<Hash>, k: nat, a: seq<Hash>, hashed: set<Bytes>)
    requires leaves != [] && CollisionFree(H, hashed) && LeavesHashed(H, tag, leaves, hashed)
    requires k > 0 && a != [] && LevelsHashed(H, tag, k, a, hashed)
    ensures Level(H, tag, k, a)[0] != leaves[0]
  {
    LeftmostNode(H, tag, k, a, hashed);
    assert LeafHashed(H, tag, leaves[0], hashed);
    var p :| p in hashed && H(p) == leaves[0] && !(tag <= p);
    SameHash(H, hashed, p, PairBytes(tag, Level(H, tag, k - 1, a), 0));
  }

  lemma LeftmostChildrenAgree(
      H: Hasher, tag: Bytes, i: nat, a: seq<Hash>, j: nat, b: seq<Hash>, hashed: set<Bytes>)
    requires i > 0 && j > 0 && a != [] && b != [] && CollisionFree(H, hashed)
    requires LevelsHashed(H, tag, i, a, hashed) && LevelsHashed(H, tag, j, b, hashed)
    requires Level(H, tag, i, a)[0] == Level(H, tag, j, b)[0]
    ensures Level(H, tag, i - 1, a)[0] == Level(H, tag, j - 1, b)[0]
  {
    LeftmostNode(H, tag, i, a, hashed);
    LeftmostNode(H, tag, j, b, hashed);
    SameHash(H, hashed, PairBytes(tag, Level(H, tag, i - 1, a), 0), PairBytes(tag, Level(H, tag, j - 1, b), 0));
    PairDetermined(tag, Level(H, tag, i - 1, a), Level(H, tag, j - 1, b), 0);
  }

  /** Down the leftmost path: hashes of different heights never coincide. */
  lemma {:induction false} HeightsAgree(
      H: Hasher, tag: Bytes, i: nat, a: seq<Hash>, j: nat, b: seq<Hash>, hashed: set<Bytes>)
    requires a != [] && b != [] && CollisionFree(H, hashed)
    requires LeavesHashed(H, tag, a, hashed) && LeavesHashed(H, tag, b, hashed)
    requires LevelsHashed(H, tag, i, a, hashed) && LevelsHashed(H, tag, j, b, hashed)
    requires Level(H, tag, i, a)[0] == Level(H, tag, j, b)[0]
    ensures i == j
    decreases i + j
  {
    if i > 0 && j > 0 {
      LeftmostChildrenAgree(H, tag, i, a, j, b, hashed);
      HeightsAgree(H, tag, i - 1, a, j - 1, b, hashed);
    } else if i > 0 {
      LeafIsNoNode(H, tag, b, i, a, hashed);
    } else if j > 0 {
      LeafIsNoNode(H, tag, a, j, b, hashed);
    }
  }

  lemma {:induction false} LevelDistinct(H: Hasher, tag: Bytes, k: nat, a: seq<Hash>, hashed: set<Bytes>)
    requires CollisionFree(H, hashed) && Distinct(a)
    requires LevelsHashed(H, tag, k, a, hashed)
    ensures Distinct(Level(H, tag, k, a))
  {
    if k > 0 {
      LevelDistinct(H, tag, k - 1, a, hashed);
      DistinctNextLevel(H, tag, Level(H, tag, k - 1, a), hashed);
    }
  }

  lemma {:induction false} LevelInjective(
      H: Hasher, tag: Bytes, k: nat, a: seq<Hash>, b: seq<Hash>, hashed: set<Bytes>)
    requires CollisionFree(H, hashed) && Distinct(a) && Distinct(b)
    requires LevelsHashed(H, tag, k, a, hashed) && LevelsHashed(H, tag, k, b, hashed)
    requires Level(H, tag, k, a) == Level(H, tag, k, b)
    ensures a == b
  {
    if k > 0 {
      LevelDistinct(H, tag, k - 1, a, hashed);
      LevelDistinct(H, tag, k - 1, b, hashed);
      NextLevelInjective(H, tag, Level(H, tag, k - 1, a), Level(H, tag, k - 1, b), hashed);
      LevelInjective(H, tag, k - 1, a, b, hashed);
    }
  }

  /** Two lists of distinct leaf hashes, of any lengths, with one root are the same list. */
  lemma RootInjective(H: Hasher, tag: Bytes, a: seq<Hash>, b: seq<Hash>, hashed: set<Bytes>)
    requires a != [] && b != [] && Distinct(a) && Distinct(b)
    requires CollisionFree(H, hashed)
    requires TreeBytes(H, tag, a) <= hashed && TreeBytes(H, tag, b) <= hashed
    requires LeavesHashed(H, tag, a, hashed) && LeavesHashed(H, tag, b, hashed)
    requires Root(H, tag, a) == Root(H, tag, b)
    ensures a == b
  {
    RootIsTopLevel(H, tag, a);
    RootIsTopLevel(H, tag, b);
    LevelsHashedGrow(H, tag, Depth(|a|), a, TreeBytes(H, tag, a), hashed);
    LevelsHashedGrow(H, tag, Depth(|b|), b, TreeBytes(H, tag, b), hashed);
    HeightsAgree(H, tag, Depth(|a|), a, Depth(|b|), b, hashed);
    LevelInjective(H, tag, Depth(|a|), a, b, hashed);
  }

  /** A root of two or more leaves is itself the hash of tagged node bytes. */
  lemma {:induction false} RootIsNode(H: Hasher, tag: Bytes, leaves: seq<Hash>)
    requires |leaves| > 1
    ensures exists p :: p in TreeBytes(H, tag, leaves) && tag <= p && H(p) == Root(H, tag, leaves)
    decreases |leaves|
  {
    var next := NextLevel(H, tag, leaves);
    if |next| == 1 {
      var p := PairBytes(tag, leaves, 0);
      assert p in LevelBytes(tag, leaves) && tag <= p;
      assert Root(H, tag, next) == next[0] == H(p);
    } else {
      RootIsNode(H, tag, next);
    }
  }

  /** Without distinct leaves the root does not determine the list: the odd leaf is hashed twice. */
  lemma OddLeafAmbiguous(H: Hasher, tag: Bytes, a: Hash, b: Hash, c: Hash)
    ensures Root(H, tag, [a, b, c]) == Root(H, tag, [a, b, c, c])
    ensures [a, b, c] != [a, b, c, c]
  {
    var x, y := [a, b, c], [a, b, c, c];
    assert |x| != |y|;
    assert PairBytes(tag, x, 0) == PairBytes(tag, y, 0) && PairBytes(tag, x, 1) == PairBytes(tag, y, 1);
    assert NextLevel(H, tag, x) == NextLevel(H, tag, y);
  }
}
