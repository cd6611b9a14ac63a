/** crates/aevum-db/src/bloom.rs: a Bloom filter over 64-bit words, and its byte form. */
module Bloom {
  import opened Integers
  import opened Collections
  import opened Bytes

  type Key = int

  /** The seeded key hash (FxHasher) is a parameter: any function. */
  type KeyHash = (Key, u64) -> u64

  const MAX_HASHES: nat := 32

  datatype Filter = Filter(bits: seq<u64>, numHashes: u32, count: nat)

  // ---------- one word ----------

  /** `w & (1 << k) != 0`. */
  predicate Bit(w: nat, k: nat) {
    if k == 0 then w % 2 == 1 else Bit(w / 2, k - 1)
  }

  /** `w | (1 << k)`. */
  function SetBit(w: nat, k: nat): nat {
    if k == 0 then (if w % 2 == 1 then w else w + 1) else w % 2 + 2 * SetBit(w / 2, k - 1)
  }

  lemma {:induction false} SetBitBits(w: nat, k: nat, j: nat)
    ensures Bit(SetBit(w, k), j) <==> j == k || Bit(w, j)
  {
    if j > 0 && k > 0 {
      SetBitBits(w / 2, k - 1, j - 1);
    }
  }

  lemma {:induction false} SetBitRange(w: nat, k: nat, n: nat)
    requires w < Pow2(n) && k < n
    ensures SetBit(w, k) < Pow2(n)
  {
    if k > 0 {
      SetBitRange(w / 2, k - 1, n - 1);
    } else {
      assert Pow2(n) == 2 * Pow2(n - 1);
    }
  }

  lemma {:induction false} BitsDetermine(a: nat, b: nat, n: nat)
    requires a < Pow2(n) && b < Pow2(n) && forall k :: 0 <= k < n ==> Bit(a, k) == Bit(b, k)
    ensures a == b
  {
    if n > 0 {
      forall k | 0 <= k < n - 1 ensures Bit(a / 2, k) == Bit(b / 2, k) {
        assert Bit(a, k + 1) == Bit(b, k + 1);
      }
      BitsDetermine(a / 2, b / 2, n - 1);
      assert Bit(a, 0) == Bit(b, 0);
    }
  }

  function Or(w: u64, k: nat): u64
    requires k < 64
  {
    Widths();
    SetBitRange(w, k, 64);
    SetBit(w, k)
  }

  // ---------- the array of words ----------

  predicate BitAt(bits: seq<u64>, idx: nat)
    requires idx < 64 * |bits|
  {
    Bit(bits[idx / 64], idx % 64)
  }

  function SetAt(bits: seq<u64>, idx: nat): (r: seq<u64>)
    requires idx < 64 * |bits|
    ensures |r| == |bits|
  {
    bits[idx / 64 := Or(bits[idx / 64], idx % 64)]
  }

  /** The positions of the set bits. */
  ghost function Ones(bits: seq<u64>): set<nat> {
    set i | 0 <= i < 64 * |bits| && BitAt(bits, i)
  }

  lemma SetAtOnes(bits: seq<u64>, idx: nat)
    requires idx < 64 * |bits|
    ensures Ones(SetAt(bits, idx)) == Ones(bits) + {idx}
  {
    forall i | 0 <= i < 64 * |bits| ensures BitAt(SetAt(bits, idx), i) <==> i == idx || BitAt(bits, i) {
      SetBitBits(bits[idx / 64], idx % 64, i % 64);
    }
  }

  /** The set bits determine the words. */
  lemma OnesDetermine(a: seq<u64>, b: seq<u64>)
    requires |a| == |b| && Ones(a) == Ones(b)
    ensures a == b
  {
    Widths();
    forall w | 0 <= w < |a| ensures a[w] == b[w] {
      forall k | 0 <= k < 64 ensures Bit(a[w], k) == Bit(b[w], k) {
        var i := 64 * w + k;
        assert i / 64 == w && i % 64 == k;
        assert BitAt(a, i) <==> i in Ones(a);
        assert BitAt(b, i) <==> i in Ones(b);
      }
      BitsDetermine(a[w], b[w], 64);
    }
  }

  // ---------- keys ----------

  function Hash1(hk: KeyHash, key: Key): u64 { hk(key, 0x5bd1e995) }

  /** `| 1`: always odd. */
  function Hash2(hk: KeyHash, key: Key): (h: u64)
    ensures h % 2 == 1
  {
    var h := hk(key, 0xc6a4a793);
    if h % 2 == 1 then h else h + 1
  }

  function BitIndex(h1: u64, h2: u64, i: nat, words: nat): (idx: nat)
    requires words > 0
    ensures idx < 64 * words
  {
    (h1 + (i * h2) % U64) % U64 % (words * 64)
  }

  /** The bits a key stands for. */
  ghost function Mask(hk: KeyHash, key: Key, n: nat, words: nat): set<nat>
    requires words > 0
  {
    set i | 0 <= i < n :: BitIndex(Hash1(hk, key), Hash2(hk, key), i, words)
  }

  function AddedBits(bits: seq<u64>, h1: u64, h2: u64, n: nat): (r: seq<u64>)
    requires bits != []
    ensures |r| == |bits|
  {
    if n == 0 then bits else SetAt(AddedBits(bits, h1, h2, n - 1), BitIndex(h1, h2, n - 1, |bits|))
  }

  function Added(f: Filter, hk: KeyHash, key: Key): Filter {
    if f.bits == [] then f
    else f.(bits := AddedBits(f.bits, Hash1(hk, key), Hash2(hk, key), f.numHashes), count := f.count + 1)
  }

  predicate MayContain(f: Filter, hk: KeyHash, key: Key) {
    f.bits != [] && f.numHashes != 0
    && forall i :: 0 <= i < f.numHashes ==> BitAt(f.bits, BitIndex(Hash1(hk, key), Hash2(hk, key), i, |f.bits|))
  }

  function AddAll(f: Filter, hk: KeyHash, keys: seq<Key>): Filter {
    if keys == [] then f else Added(AddAll(f, hk, keys[..|keys| - 1]), hk, keys[|keys| - 1])
  }

  ghost function Masks(hk: KeyHash, keys: seq<Key>, n: nat, words: nat): set<nat>
    requires words > 0
  {
    set k, x | k in keys && x in Mask(hk, k, n, words) :: x
  }

  lemma MaskStep(hk: KeyHash, key: Key, n: nat, words: nat)
    requires words > 0 && n > 0
    ensures Mask(hk, key, n, words)
         == Mask(hk, key, n - 1, words) + {BitIndex(Hash1(hk, key), Hash2(hk, key), n - 1, words)}
  {
    hide BitIndex;
  }

  lemma {:induction false} AddedBitsOnes(bits: seq<u64>, hk: KeyHash, key: Key, n: nat)
    requires bits != []
    ensures Ones(AddedBits(bits, Hash1(hk, key), Hash2(hk, key), n)) == Ones(bits) + Mask(hk, key, n, |bits|)
  {
    hide BitIndex, Ones, SetAt;
    if n > 0 {
      AddedBitsOnes(bits, hk, key, n - 1);
      MaskStep(hk, key, n, |bits|);
      SetAtOnes(AddedBits(bits, Hash1(hk, key), Hash2(hk, key), n - 1),
                BitIndex(Hash1(hk, key), Hash2(hk, key), n - 1, |bits|));
    }
  }

  // ---------- a key's bits are all different ----------

  lemma OddProduct(d: nat, h: nat, z: nat)
    requires h % 2 == 1 && d * h == 2 * z
    ensures d % 2 == 0
  {
    var b := h / 2;
    assert h == 2 * b + 1;
    assert d * h == 2 * (d * b) + d;
  }

  lemma TwiceFactor(e: nat, h: nat, z: nat)
    requires (2 * e) * h == 2 * z
    ensures e * h == z
  {
    assert (2 * e) * h == 2 * (e * h);
  }

  lemma Scale(q: nat, p: nat)
    ensures q * (2 * p) == 2 * (q * p)
  {
  }

  /** An odd factor cannot help a product to a power of two. */
  lemma {:induction false} OddCancels(k: nat, d: nat, h: nat, q: nat) returns (r: nat)
    requires h % 2 == 1 && d * h == q * Pow2(k)
    ensures d == r * Pow2(k)
  {
    if k == 0 {
      OddCancelsOne(d, h, q);
      r := d;
    } else {
      var p := Pow2(k - 1);
      Scale(q, p);
      OddProduct(d, h, q * p);
      TwiceFactor(d / 2, h, q * p);
      r := OddCancels(k - 1, d / 2, h, q);
      Scale(r, p);
    }
  }

  lemma OddCancelsOne(d: nat, h: nat, q: nat)
    ensures d == d * Pow2(0)
  {
  }

  /** Where a bit index comes from: what two reductions and one remainder drop is a multiple of m. */
  lemma IndexQuotient(h1: u64, h2: u64, i: nat, words: nat, c: nat) returns (q: nat)
    requires words > 0 && U64 == (64 * words) * c
    ensures h1 + i * h2 == (64 * words) * q + BitIndex(h1, h2, i, words)
  {
    q := ReductionQuotient(h1, i * h2, 64 * words, c);
  }

  lemma ReductionQuotient(h: nat, x: nat, m: nat, c: nat) returns (q: nat)
    requires m > 0 && U64 == m * c
    ensures h + x == m * q + (h + x % U64) % U64 % m
  {
    var s := x / U64 + (h + x % U64) / U64;
    var z := (h + x % U64) % U64;
    assert h + x == U64 * s + z;
    DivMod(z, m);
    Collect(m, c, s, z / m);
    q := c * s + z / m;
  }

  lemma DivMod(z: nat, m: nat)
    requires m > 0
    ensures z == m * (z / m) + z % m
  {
  }

  lemma Collect(m: nat, c: nat, s: nat, e: nat)
    ensures (m * c) * s + m * e == m * (c * s + e)
  {
  }

  lemma IndexesDiffer(h1: u64, h2: u64, i: nat, j: nat, words: nat, k: nat, c: nat)
    requires words > 0 && 64 * words == Pow2(k) && U64 == (64 * words) * c
    requires h2 % 2 == 1 && i < j && j - i < 64 * words
    ensures BitIndex(h1, h2, i, words) != BitIndex(h1, h2, j, words)
  {
    var m := 64 * words;
    var p := IndexQuotient(h1, h2, i, words, c);
    var q := IndexQuotient(h1, h2, j, words, c);
    if BitIndex(h1, h2, i, words) == BitIndex(h1, h2, j, words) {
      Differences(m, p, q, i, j, h2);
      var r := OddCancels(k, j - i, h2, q - p);
      NoSmallMultiple(r, m, j - i);
    }
  }

  lemma Differences(m: nat, p: nat, q: nat, i: nat, j: nat, h: nat)
    requires m > 0 && i < j && m * q - m * p == j * h - i * h
    ensures q >= p && (j - i) * h == (q - p) * m
  {
    assert (j - i) * h == j * h - i * h;
    assert (q - p) * m == m * q - m * p;
    assert (j - i) * h >= 0;
  }

  lemma NoSmallMultiple(r: nat, m: nat, d: nat)
    ensures d == r * m ==> d == 0 || d >= m
  {
    if r > 0 { assert r * m >= m; }
  }

  /** The second hash being odd, a key's bits are all different whenever the number of bits is a power
      of two: the key sets exactly as many bits as there are hash functions. */
  lemma {:induction false} MaskIsFull(hk: KeyHash, key: Key, n: nat, words: nat, k: nat)
    requires words > 0 && 64 * words == Pow2(k) && k <= 64 && n <= 64 * words
    ensures |Mask(hk, key, n, words)| == n
  {
    if n > 0 {
      MaskIsFull(hk, key, n - 1, words, k);
      MaskStep(hk, key, n, words);
      var h1, h2 := Hash1(hk, key), Hash2(hk, key);
      Pow2Product(k, 64 - k);
      Widths();
      hide BitIndex, Pow2;
      forall i | 0 <= i < n - 1 ensures BitIndex(h1, h2, i, words) != BitIndex(h1, h2, n - 1, words) {
        IndexesDiffer(h1, h2, i, n - 1, words, k, Pow2(64 - k));
      }
      assert BitIndex(h1, h2, n - 1, words) !in Mask(hk, key, n - 1, words);
    }
  }

  lemma {:induction false} Pow2Product(a: nat, b: nat)
    ensures Pow2(a + b) == Pow2(a) * Pow2(b)
  {
    if b > 0 {
      Pow2Product(a, b - 1);
      Scale(Pow2(a), Pow2(b - 1));
    }
  }

  /** A filter that can be built: at least one word and 1 to 32 hash functions. */
  ghost predicate WellFormed(f: Filter) { |f.bits| > 0 && 1 <= f.numHashes <= MAX_HASHES }

  /** A key is reported present exactly when all its bits are set. */
  lemma MayContainIffCovered(f: Filter, hk: KeyHash, key: Key)
    requires WellFormed(f)
    ensures MayContain(f, hk, key) <==> Mask(hk, key, f.numHashes, |f.bits|) <= Ones(f.bits)
  {
    hide BitIndex, BitAt;
    if Mask(hk, key, f.numHashes, |f.bits|) <= Ones(f.bits) {
      forall i | 0 <= i < f.numHashes ensures BitAt(f.bits, BitIndex(Hash1(hk, key), Hash2(hk, key), i, |f.bits|)) {
        assert BitIndex(Hash1(hk, key), Hash2(hk, key), i, |f.bits|) in Mask(hk, key, f.numHashes, |f.bits|);
      }
    }
  }

  lemma MasksPush(hk: KeyHash, keys: seq<Key>, n: nat, words: nat)
    requires words > 0 && keys != []
    ensures var k := |keys| - 1;
            Masks(hk, keys, n, words) == Masks(hk, keys[..k], n, words) + Mask(hk, keys[k], n, words)
  {
    hide Mask;
    var k := |keys| - 1;
    assert keys == keys[..k] + [keys[k]];
  }

  /** After any adds the bit array is the union of the keys' masks with what was there before. */
  lemma {:induction false} AddsAreUnion(f: Filter, hk: KeyHash, keys: seq<Key>)
    requires WellFormed(f)
    ensures var g := AddAll(f, hk, keys);
            && |g.bits| == |f.bits| && g.numHashes == f.numHashes && g.count == f.count + |keys|
            && Ones(g.bits) == Ones(f.bits) + Masks(hk, keys, f.numHashes, |f.bits|)
  {
    hide Ones, AddedBits, Mask, Masks;
    if keys == [] {
      NoMasks(hk, f.numHashes, |f.bits|);
    } else {
      var init, last := keys[..|keys| - 1], keys[|keys| - 1];
      AddsAreUnion(f, hk, init);
      var g := AddAll(f, hk, init);
      AddedBitsOnes(g.bits, hk, last, g.numHashes);
      MasksPush(hk, keys, f.numHashes, |f.bits|);
    }
  }

  lemma NoMasks(hk: KeyHash, n: nat, words: nat)
    requires words > 0
    ensures Masks(hk, [], n, words) == {}
  {
  }

  /** Neither the order of the adds nor their repetition matters. */
  lemma AddOrderFree(f: Filter, hk: KeyHash, a: seq<Key>, b: seq<Key>)
    requires WellFormed(f) && Elements(a) == Elements(b)
    ensures AddAll(f, hk, a).bits == AddAll(f, hk, b).bits
  {
    AddsAreUnion(f, hk, a);
    AddsAreUnion(f, hk, b);
    hide Ones, AddAll, Mask;
    assert forall k :: k in a <==> k in Elements(a);
    assert forall k :: k in b <==> k in Elements(b);
    assert Masks(hk, a, f.numHashes, |f.bits|) == Masks(hk, b, f.numHashes, |f.bits|);
    OnesDetermine(AddAll(f, hk, a).bits, AddAll(f, hk, b).bits);
  }

  /** After adding `keys` to an empty filter, exactly the keys whose bits the added keys cover are
      reported present; every added key is among them. */
  lemma PresentIffCovered(f: Filter, hk: KeyHash, keys: seq<Key>, key: Key)
    requires WellFormed(f) && Ones(f.bits) == {}
    ensures MayContain(AddAll(f, hk, keys), hk, key)
            <==> Mask(hk, key, f.numHashes, |f.bits|) <= Masks(hk, keys, f.numHashes, |f.bits|)
  {
    hide Ones, AddAll, Mask, Masks, MayContain;
    AddsAreUnion(f, hk, keys);
    MayContainIffCovered(AddAll(f, hk, keys), hk, key);
  }

  /** No false negatives, whatever else was added before or after. */
  lemma AddedIsPresent(f: Filter, hk: KeyHash, keys: seq<Key>, key: Key)
    requires WellFormed(f) && key in keys
    ensures MayContain(AddAll(f, hk, keys), hk, key)
  {
    hide Ones, AddAll, Mask, MayContain;
    AddsAreUnion(f, hk, keys);
    MayContainIffCovered(AddAll(f, hk, keys), hk, key);
  }

  // ---------- creating, saving and loading ----------

  function Clamp(n: nat): (r: nat)
    ensures 1 <= r <= MAX_HASHES
    ensures 1 <= n <= MAX_HASHES ==> r == n
  {
    if n < 1 then 1 else if n > MAX_HASHES then MAX_HASHES else n
  }

  function Zeros(words: nat): seq<u64> { seq(words, _ => 0) }

  /** `new`; its floating-point estimate of the number of hashes is the argument `estimate`. */
  function New(expectedKeys: nat, bitsPerKey: nat, estimate: nat): (f: Filter)
    ensures |f.bits| > 0
  {
    var wanted := expectedKeys * (if bitsPerKey < 1 then 1 else bitsPerKey);
    var bits := if wanted < 64 then 64 else wanted;
    Filter(Zeros((bits + 63) / 64), Clamp(estimate), 0)
  }

  function FromRaw(bits: seq<u64>, numHashes: nat): Filter {
    Filter(if bits == [] then Zeros(1) else bits, Clamp(numHashes), 0)
  }

  function WordBytes(bits: seq<u64>): (s: Bytes)
    ensures |s| == 8 * |bits|
  {
    if bits == [] then [] else WordBytes(bits[..|bits| - 1]) + LE(bits[|bits| - 1], 8)
  }

  function ToBytes(f: Filter): Bytes { LE(f.numHashes, 4) + WordBytes(f.bits) }

  function Word(data: Bytes, i: nat): u64
    requires 8 * i + 8 <= |data|
  {
    WidthFacts();
    LEOfFromLE(data[8 * i..8 * i + 8]);
    FromLE(data[8 * i..8 * i + 8])
  }

  function Words(data: Bytes, n: nat): (bits: seq<u64>)
    requires 8 * n <= |data|
    ensures |bits| == n
  {
    if n == 0 then [] else Words(data, n - 1) + [Word(data, n - 1)]
  }

  function FromBytes(data: Bytes): Option<Filter> {
    if |data| < 8 then None
    else if (|data| - 4) / 8 == 0 then None
    else if (|data| - 4) % 8 != 0 then None
    else Some(Filter(Words(data[4..], (|data| - 4) / 8), Clamp(FromLE(data[..4])), 0))
  }

  lemma WordRead(before: Bytes, w: u64, tail: Bytes, i: nat)
    requires |before| == 8 * i
    ensures Word(before + (LE(w, 8) + tail), i) == w
  {
    WidthFacts();
    FromLEOfLE(w, 8);
    hide LE, FromLE, Pow256;
    assert (before + (LE(w, 8) + tail))[8 * i..8 * i + 8] == LE(w, 8);
  }

  lemma WordWritten(data: Bytes, i: nat)
    requires 8 * i + 8 <= |data|
    ensures LE(Word(data, i), 8) == data[8 * i..8 * i + 8]
  {
    hide LE, FromLE;
    LEOfFromLE(data[8 * i..8 * i + 8]);
  }

  lemma {:induction false} WordsOfWordBytes(bits: seq<u64>, tail: Bytes)
    ensures Words(WordBytes(bits) + tail, |bits|) == bits
  {
    hide Word, LE;
    if bits != [] {
      var n := |bits| - 1;
      var init, last := bits[..n], bits[n];
      assert WordBytes(bits) + tail == WordBytes(init) + (LE(last, 8) + tail);
      WordsOfWordBytes(init, LE(last, 8) + tail);
      WordRead(WordBytes(init), last, tail, n);
      assert bits == init + [last];
    }
  }

  lemma {:induction false} WordBytesOfWords(data: Bytes, n: nat)
    requires |data| >= 8 * n
    ensures WordBytes(Words(data, n)) == data[..8 * n]
  {
    hide Word, LE;
    if n > 0 {
      WordBytesOfWords(data, n - 1);
      var bits := Words(data, n);
      assert bits[..n - 1] == Words(data, n - 1) && bits[n - 1] == Word(data, n - 1);
      WordWritten(data, n - 1);
      assert data[..8 * n] == data[..8 * (n - 1)] + data[8 * (n - 1)..8 * (n - 1) + 8];
    }
  }

  /** Saving and loading restores the bits and the hash count of every filter that can be built. */
  lemma RoundTrip(f: Filter)
    requires WellFormed(f)
    ensures FromBytes(ToBytes(f)) == Some(f.(count := 0))
  {
    hide LE, FromLE, Words, WordBytes, Pow256, ToBytes;
    SavedParts(f);
    WordsOfWordBytes(f.bits, []);
    assert WordBytes(f.bits) + [] == WordBytes(f.bits);
  }

  lemma SavedParts(f: Filter)
    ensures var data := ToBytes(f);
            && |data| == 4 + 8 * |f.bits| && data[4..] == WordBytes(f.bits) && FromLE(data[..4]) == f.numHashes
  {
    WidthFacts();
    FromLEOfLE(f.numHashes, 4);
    hide LE, FromLE, WordBytes, Pow256;
    assert ToBytes(f)[..4] == LE(f.numHashes, 4);
  }

  /** Bytes load exactly when they are a 4-byte header and one or more whole words; what is loaded
      is well formed and saves to the same bytes exactly when the header is between 1 and 32. */
  lemma LoadsExactly(data: Bytes)
    ensures FromBytes(data).Some? <==> |data| >= 12 && (|data| - 4) % 8 == 0
    ensures FromBytes(data).Some? ==>
              && WellFormed(FromBytes(data).value)
              && (ToBytes(FromBytes(data).value) == data <==> 1 <= FromLE(data[..4]) <= MAX_HASHES)
  {
    if FromBytes(data).Some? {
      var f, n := FromBytes(data).value, FromLE(data[..4]);
      WordBytesOfWords(data[4..], (|data| - 4) / 8);
      assert data[4..][..|data| - 4] == data[4..];
      LEOfFromLE(data[..4]);
      WidthFacts();
      FromLEOfLE(Clamp(n), 4);
      hide LE, FromLE, Words, WordBytes, Clamp;
      assert data == data[..4] + data[4..];
      HeaderDecides(LE(Clamp(n), 4), data[..4], data[4..]);
    }
  }

  lemma HeaderDecides(a: Bytes, b: Bytes, rest: Bytes)
    requires |a| == |b|
    ensures a + rest == b + rest <==> a == b
  {
    if a + rest == b + rest { SplitEqual(a, rest, b, rest); }
  }

  // ---------- every filter that can be reached ----------

  datatype Origin =
    | FromNew(expectedKeys: nat, bitsPerKey: nat, estimate: nat)
    | FromWords(bits: seq<u64>, numHashes: nat)

  datatype Op = OpAdd(key: Key) | OpSaveAndLoad

  function Start(o: Origin): Filter {
    match o
    case FromNew(k, b, e) => New(k, b, e)
    case FromWords(bits, n) => FromRaw(bits, n)
  }

  function Step(f: Filter, hk: KeyHash, op: Op): Filter {
    match op
    case OpAdd(key) => Added(f, hk, key)
    case OpSaveAndLoad => var g := FromBytes(ToBytes(f)); if g.Some? then g.value else f
  }

  function Run(o: Origin, hk: KeyHash, ops: seq<Op>): Filter {
    if ops == [] then Start(o) else Step(Run(o, hk, ops[..|ops| - 1]), hk, ops[|ops| - 1])
  }

  lemma StepGrows(f: Filter, hk: KeyHash, op: Op)
    requires WellFormed(f)
    ensures var g := Step(f, hk, op);
            && WellFormed(g) && |g.bits| == |f.bits| && g.numHashes == f.numHashes && Ones(f.bits) <= Ones(g.bits)
            && (op.OpAdd? ==> Mask(hk, op.key, f.numHashes, |f.bits|) <= Ones(g.bits))
  {
    hide Ones, AddedBits, Mask, ToBytes, FromBytes;
    match op
    case OpAdd(key) => AddedBitsOnes(f.bits, hk, key, f.numHashes);
    case OpSaveAndLoad => RoundTrip(f);
  }

  lemma {:induction false} EveryRunWellFormed(o: Origin, hk: KeyHash, ops: seq<Op>)
    ensures WellFormed(Run(o, hk, ops))
  {
    if ops != [] {
      hide Step;
      EveryRunWellFormed(o, hk, ops[..|ops| - 1]);
      StepGrows(Run(o, hk, ops[..|ops| - 1]), hk, ops[|ops| - 1]);
    }
  }

  /** Whatever is added, saved and loaded, in any order, an added key is reported present ever after. */
  lemma {:induction false} EveryRunRemembers(o: Origin, hk: KeyHash, ops: seq<Op>, key: Key)
    requires OpAdd(key) in ops
    ensures MayContain(Run(o, hk, ops), hk, key)
  {
    hide Step, Ones, Mask, MayContain;
    var init, last := ops[..|ops| - 1], ops[|ops| - 1];
    var f := Run(o, hk, init);
    EveryRunWellFormed(o, hk, init);
    StepGrows(f, hk, last);
    if last != OpAdd(key) {
      assert ops == init + [last];
      EveryRunRemembers(o, hk, init, key);
      MayContainIffCovered(f, hk, key);
    }
    MayContainIffCovered(Run(o, hk, ops), hk, key);
  }

  // ---------- the filter, updated in place ----------

  class BloomFilter {
    var bits: seq<u64>
    var numHashes: u32
    var count: nat

    ghost function F(): Filter
      reads this
    {
      Filter(bits, numHashes, count)
    }

    constructor (f: Filter)
      ensures F() == f
    {
      bits, numHashes, count := f.bits, f.numHashes, f.count;
    }

    method Add(hk: KeyHash, key: Key)
      modifies this`bits, this`count
      ensures F() == Added(old(F()), hk, key)
    {
      hide BitIndex, SetAt;
      if bits == [] {
        return;
      }
      var h1, h2 := Hash1(hk, key), Hash2(hk, key);
      ghost var start := bits;
      for i := 0 to numHashes
        invariant bits == AddedBits(start, h1, h2, i) && count == old(count)
      {
        var idx := BitIndex(h1, h2, i, |bits|);
        bits := SetAt(bits, idx);
      }
      count := count + 1;
    }

    method Contains(hk: KeyHash, key: Key) returns (present: bool)
      ensures present == MayContain(F(), hk, key)
    {
      hide BitIndex, BitAt;
      if bits == [] || numHashes == 0 {
        return false;
      }
      var h1, h2 := Hash1(hk, key), Hash2(hk, key);
      for i := 0 to numHashes
        invariant forall j :: 0 <= j < i ==> BitAt(bits, BitIndex(h1, h2, j, |bits|))
      {
        var idx := BitIndex(h1, h2, i, |bits|);
        if !BitAt(bits, idx) {
          return false;
        }
      }
      return true;
    }

    method Save() returns (out: Bytes)
      ensures out == ToBytes(F())
      ensures WellFormed(F()) ==> FromBytes(out) == Some(F().(count := 0))
    {
      hide LE;
      out := LE(numHashes, 4);
      for i := 0 to |bits|
        invariant out == LE(numHashes, 4) + WordBytes(bits[..i])
      {
        assert bits[..i + 1][..i] == bits[..i];
        out := out + LE(bits[i], 8);
      }
      assert bits[..|bits|] == bits;
      if 1 <= numHashes <= MAX_HASHES && |bits| > 0 {
        RoundTrip(F());
      }
    }
  }

  method Load(data: Bytes) returns (r: Option<Filter>)
    ensures r == FromBytes(data)
  {
    hide FromLE;
    if |data| < 8 {
      return None;
    }
    var numHashes := FromLE(data[0..4]);
    var words := (|data| - 4) / 8;
    if words == 0 {
      return None;
    }
    if (|data| - 4) % 8 != 0 {
      return None;
    }
    var bits: seq<u64> := [];
    for i := 0 to words
      invariant bits == Words(data[4..], i)
    {
      bits := bits + [Word(data[4..], i)];
    }
    assert data[0..4] == data[..4];
    return Some(Filter(bits, Clamp(numHashes), 0));
  }
}
