/** Byte strings, 32-byte hashes, little-endian integers and the ordering of byte strings. */
module Bytes {
  import opened Integers

  type byte = x: int | 0 <= x < 256
  type Bytes = seq<byte>

  function ZeroHash(): Hash { seq(32, _ => 0) }

  /** A `Hash` of the source: any 32 bytes. */
  type Hash = h: Bytes | |h| == 32 witness seq(32, _ => 0)

  datatype Option<+T> = None | Some(value: T)
  datatype Result<+T, +E> = Ok(value: T) | Err(error: E)

  // ---------- hashing ----------

  /** The hash function is a parameter of every model that hashes: nothing is assumed about it
      except, where a theorem says so, that it has no collision among the byte strings that were
      actually hashed in the runs being compared. */
  type Hasher = Bytes -> Hash

  ghost predicate CollisionFree(H: Hasher, hashed: set<Bytes>) {
    forall p, q {:trigger NoCollision(H, p, q)} :: p in hashed && q in hashed ==> NoCollision(H, p, q)
  }

  ghost predicate NoCollision(H: Hasher, p: Bytes, q: Bytes) {
    H(p) == H(q) ==> p == q
  }

  lemma SameHash(H: Hasher, hashed: set<Bytes>, p: Bytes, q: Bytes)
    requires CollisionFree(H, hashed) && p in hashed && q in hashed
    ensures H(p) == H(q) ==> p == q
  {
    assert NoCollision(H, p, q);
  }

  /** A domain-separation tag such as b"AEVUM_BLOCK". */
  function Tag(s: string): (t: Bytes)
    ensures |t| == |s|
    ensures forall i :: 0 <= i < |s| ==> t[i] == s[i] as int % 256
  {
    seq(|s|, i requires 0 <= i < |s| => s[i] as int % 256)
  }

  /** Cutting equal byte strings at the same place gives equal parts. */
  lemma SplitEqual(a: Bytes, b: Bytes, c: Bytes, d: Bytes)
    requires a + b == c + d && |a| == |c|
    ensures a == c && b == d
  {
    assert (a + b)[..|a|] == a && (c + d)[..|c|] == c;
    assert (a + b)[|a|..] == b && (c + d)[|c|..] == d;
  }

  /** Successive `h.update(..)` calls hash the concatenation of their arguments. */
  function Concat(parts: seq<Bytes>): Bytes {
    if parts == [] then [] else parts[0] + Concat(parts[1..])
  }

  /** Fields of fixed widths can be read back from their concatenation. */
  lemma {:induction false} ConcatInjective(a: seq<Bytes>, b: seq<Bytes>)
    requires |a| == |b| && (forall i :: 0 <= i < |a| ==> |a[i]| == |b[i]|)
    requires Concat(a) == Concat(b)
    ensures a == b
  {
    if a != [] {
      SplitEqual(a[0], Concat(a[1..]), b[0], Concat(b[1..]));
      ConcatInjective(a[1..], b[1..]);
      assert a == [a[0]] + a[1..] && b == [b[0]] + b[1..];
    }
  }

  lemma {:induction false} ConcatAppend(a: seq<Hash>, b: seq<Hash>)
    ensures Concat(a + b) == Concat(a) + Concat(b)
  {
    if a == [] {
      assert a + b == b;
    } else {
      assert (a + b)[1..] == a[1..] + b;
      ConcatAppend(a[1..], b);
    }
  }

  lemma {:induction false} ConcatHashes(a: seq<Hash>, b: seq<Hash>)
    requires Concat(a) == Concat(b)
    ensures a == b
  {
    ConcatLength(a);
    ConcatLength(b);
    if a != [] {
      SplitEqual(a[0], Concat(a[1..]), b[0], Concat(b[1..]));
      ConcatHashes(a[1..], b[1..]);
      assert a == [a[0]] + a[1..] && b == [b[0]] + b[1..];
    }
  }

  lemma {:induction false} ConcatLength(a: seq<Hash>)
    ensures |Concat(a)| == 32 * |a|
  {
    if a != [] { ConcatLength(a[1..]); }
  }

  // ---------- little-endian integers ----------

  function Pow256(k: nat): (p: nat)
    ensures p >= 1
  {
    if k == 0 then 1 else 256 * Pow256(k - 1)
  }

  /** `to_le_bytes` for a k-byte integer. */
  function LE(n: nat, k: nat): (s: Bytes)
    ensures |s| == k
  {
    if k == 0 then [] else [n % 256] + LE(n / 256, k - 1)
  }

  /** `from_le_bytes`. */
  function FromLE(s: Bytes): nat {
    if s == [] then 0 else s[0] + 256 * FromLE(s[1..])
  }

  lemma {:induction false} FromLEOfLE(n: nat, k: nat)
    requires n < Pow256(k)
    ensures FromLE(LE(n, k)) == n
  {
    if k == 0 {
    } else {
      FromLEOfLE(n / 256, k - 1);
      assert LE(n, k)[1..] == LE(n / 256, k - 1);
    }
  }

  lemma LEPush(b: byte, x: nat, k: nat)
    ensures LE(b + 256 * x, k + 1) == [b] + LE(x, k)
  {
    assert (b + 256 * x) % 256 == b && (b + 256 * x) / 256 == x;
  }

  lemma {:induction false} LEOfFromLE(s: Bytes)
    ensures FromLE(s) < Pow256(|s|)
    ensures LE(FromLE(s), |s|) == s
  {
    if s == [] {
    } else {
      LEOfFromLE(s[1..]);
      LEPush(s[0], FromLE(s[1..]), |s| - 1);
      hide LE;
      assert s == [s[0]] + s[1..];
    }
  }

  lemma WidthFacts()
    ensures Pow256(1) == 256 && Pow256(2) == 0x1_0000 && Pow256(4) == U32 && Pow256(8) == U64
  {
    assert Pow256(4) == 256 * Pow256(3) && Pow256(3) == 256 * Pow256(2) && Pow256(2) == 256 * Pow256(1);
    assert Pow256(8) == 256 * Pow256(7) && Pow256(7) == 256 * Pow256(6)
        && Pow256(6) == 256 * Pow256(5) && Pow256(5) == 256 * Pow256(4);
  }

  lemma U64LEInjective(a: u64, b: u64)
    requires LE(a, 8) == LE(b, 8)
    ensures a == b
  {
    WidthFacts();
    FromLEOfLE(a, 8);
    FromLEOfLE(b, 8);
  }

  lemma U32LEInjective(a: u32, b: u32)
    requires LE(a, 4) == LE(b, 4)
    ensures a == b
  {
    WidthFacts();
    FromLEOfLE(a, 4);
    FromLEOfLE(b, 4);
  }

  // ---------- the ordering of byte strings ----------

  /** The order Rust gives `[u8]`, `Vec<u8>` and `[u8; 32]`: lexicographic, a prefix being smaller. */
  predicate LexLeq(a: Bytes, b: Bytes)
    decreases |a|
  {
    if a == [] then true
    else if b == [] then false
    else if a[0] != b[0] then a[0] < b[0]
    else LexLeq(a[1..], b[1..])
  }

  lemma {:induction false} LexTotal(a: Bytes, b: Bytes)
    ensures LexLeq(a, b) || LexLeq(b, a)
    decreases |a|
  {
    if a != [] && b != [] && a[0] == b[0] {
      LexTotal(a[1..], b[1..]);
    }
  }

  lemma {:induction false} LexAntisymmetric(a: Bytes, b: Bytes)
    requires LexLeq(a, b) && LexLeq(b, a)
    ensures a == b
    decreases |a|
  {
    if a != [] {
      LexAntisymmetric(a[1..], b[1..]);
      assert a == [a[0]] + a[1..] && b == [b[0]] + b[1..];
    }
  }

  lemma {:induction false} LexTransitive(a: Bytes, b: Bytes, c: Bytes)
    requires LexLeq(a, b) && LexLeq(b, c)
    ensures LexLeq(a, c)
    decreases |a|
  {
    if a != [] && a[0] == b[0] && b[0] == c[0] {
      LexTransitive(a[1..], b[1..], c[1..]);
    }
  }
}
