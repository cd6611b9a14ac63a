/** Integer widths, saturating arithmetic, powers of two and binary logarithms. */
module Integers {

  const U32: nat := 0x1_0000_0000
  const U64: nat := 0x1_0000_0000_0000_0000
  type u8 = x: int | 0 <= x < 256
  type u16 = x: int | 0 <= x < 0x1_0000
  type u32 = x: int | 0 <= x < 0x1_0000_0000
  type u64 = x: int | 0 <= x < 0x1_0000_0000_0000_0000

  function Min(a: int, b: int): int { if a <= b then a else b }

  function Max(a: int, b: int): int { if a <= b then b else a }

  /** `saturating_add` on 64 bits. */
  function SatAdd(a: nat, b: nat): u64 { if a + b < U64 then a + b else U64 - 1 }

  /** `saturating_sub`. */
  function SatSub(a: nat, b: nat): nat { if a >= b then a - b else 0 }

  function Pow2(k: nat): (p: nat)
    ensures p >= 1
  {
    if k == 0 then 1 else 2 * Pow2(k - 1)
  }

  /** The position of the highest set bit; 0 for 0. */
  function Log2(n: nat): nat { if n < 2 then 0 else 1 + Log2(n / 2) }

  lemma {:induction false} Pow2Monotone(a: nat, b: nat)
    requires a <= b
    ensures Pow2(a) <= Pow2(b)
  {
    if a < b { Pow2Monotone(a, b - 1); }
  }

  lemma {:induction false} Log2Bounds(n: nat)
    requires n >= 1
    ensures Pow2(Log2(n)) <= n < 2 * Pow2(Log2(n))
  {
    if n >= 2 { Log2Bounds(n / 2); }
  }

  lemma {:induction false} Log2Below(n: nat, k: nat)
    requires 1 <= n < Pow2(k)
    ensures Log2(n) < k
  {
    if n >= 2 { Log2Below(n / 2, k - 1); }
  }

  lemma EightMore(k: nat)
    ensures Pow2(k + 8) == 256 * Pow2(k)
  {
    assert Pow2(k + 8) == 2 * Pow2(k + 7) && Pow2(k + 7) == 2 * Pow2(k + 6) && Pow2(k + 6) == 2 * Pow2(k + 5);
    assert Pow2(k + 5) == 2 * Pow2(k + 4) && Pow2(k + 4) == 2 * Pow2(k + 3) && Pow2(k + 3) == 2 * Pow2(k + 2);
    assert Pow2(k + 2) == 2 * Pow2(k + 1) && Pow2(k + 1) == 2 * Pow2(k);
  }

  lemma Widths()
    ensures Pow2(8) == 256 && Pow2(64) == U64
  {
    hide Pow2;
    ThirtyTwoMore(0);
    ThirtyTwoMore(32);
    EightMore(0);
    NoBits();
  }

  lemma NoBits()
    ensures Pow2(0) == 1
  {
  }

  lemma ThirtyTwoMore(k: nat)
    ensures Pow2(k + 32) == U32 * Pow2(k)
  {
    hide Pow2;
    EightMore(k);
    EightMore(k + 8);
    EightMore(k + 16);
    EightMore(k + 24);
  }
}
