/**
 * The C operators the AHT10 driver applies to its reply bytes, stated on
 * mathematical integers: `<<` on a 32-bit unsigned value (bits moved past bit
 * 31 are lost), `>>`, and the bitwise `|` and `&`, defined one bit at a time.
 * The lemmas connect them to ordinary arithmetic: `|` of two values whose set
 * bits do not overlap is their sum, and `&` with a low mask is a remainder.
 */
module Bits {

  type Uint8 = x: int | 0 <= x < 0x100
  type Uint32 = x: int | 0 <= x < 0x1_0000_0000

  const Uint32Modulus: int := 0x1_0000_0000

  function Pow2(k: nat): (r: nat)
    ensures r > 0
  {
    if k == 0 then 1 else 2 * Pow2(k - 1)
  }

  /** The powers of two the driver's shifts and masks use. */
  lemma Pow2Values()
    ensures Pow2(4) == 0x10 && Pow2(8) == 0x100 && Pow2(12) == 0x1000 && Pow2(16) == 0x1_0000
  {
  }

  /** `x << k` on a `uint32_t`: the product, reduced modulo 2^32. */
  function Shl(x: Uint32, k: nat): (r: Uint32)
    requires k < 32
    ensures x * Pow2(k) < Uint32Modulus ==> r == x * Pow2(k)
  {
    (x * Pow2(k)) % Uint32Modulus
  }

  /** `x >> k` on a byte: the low k bits are dropped, one bit at a time. */
  function Shr(x: Uint8, k: nat): (r: Uint8)
    requires k < 8
    ensures r <= x
    ensures r * Pow2(k) <= x < (r + 1) * Pow2(k)
  {
    if k == 0 then x
    else
      var r := Shr(x / 2, k - 1);
      ShrStep(x, r, k);
      r
  }

  /** One bit of Shr: the bounds for x / 2 and k - 1 give those for x and k. */
  lemma ShrStep(x: nat, r: nat, k: nat)
    requires k > 0
    requires r * Pow2(k - 1) <= x / 2 < (r + 1) * Pow2(k - 1)
    ensures r * Pow2(k) <= x < (r + 1) * Pow2(k)
  {
    ScaledIsProduct(r, k - 1);
    ScaledIsProduct(r + 1, k - 1);
    ScaledIsProduct(r, k);
    ScaledIsProduct(r + 1, k);
  }

  /** Bitwise `|`: bit i of the result is set when bit i of a or of b is. */
  function Or(a: nat, b: nat): nat
    decreases a + b
  {
    if a == 0 then b
    else if b == 0 then a
    else 2 * Or(a / 2, b / 2) + (if a % 2 == 1 || b % 2 == 1 then 1 else 0)
  }

  /** Bitwise `&`: bit i of the result is set when bit i of both a and b is. */
  function And(a: nat, b: nat): nat
    decreases a + b
  {
    if a == 0 || b == 0 then 0
    else 2 * And(a / 2, b / 2) + (if a % 2 == 1 && b % 2 == 1 then 1 else 0)
  }

  /** q · 2^k, by doubling k times. */
  function Scaled(q: nat, k: nat): nat
  {
    if k == 0 then q else 2 * Scaled(q, k - 1)
  }

  lemma Twice(q: nat, h: nat)
    ensures q * (2 * h) == 2 * (q * h)
  {
  }

  lemma {:induction false} ScaledIsProduct(q: nat, k: nat)
    ensures Scaled(q, k) == q * Pow2(k)
  {
    if k > 0 {
      ScaledIsProduct(q, k - 1);
      Twice(q, Pow2(k - 1));
    }
  }

  /** The multiples the driver's shifts produce. */
  lemma ScaledValues(q: nat)
    ensures Scaled(q, 4) == 0x10 * q && Scaled(q, 8) == 0x100 * q
    ensures Scaled(q, 12) == 0x1000 * q && Scaled(q, 16) == 0x1_0000 * q
  {
    Pow2Values();
    ScaledIsProduct(q, 4);
    ScaledIsProduct(q, 8);
    ScaledIsProduct(q, 12);
    ScaledIsProduct(q, 16);
  }

  /** One bit of OrDisjoint: the even value a = 2m or-ed with b. */
  lemma OrStep(m: nat, b: nat, a: nat)
    requires a == 2 * m
    requires Or(m, b / 2) == m + b / 2
    ensures Or(a, b) == a + b
  {
    if m != 0 && b != 0 {
      assert a / 2 == m && a % 2 == 0;
    }
  }

  /** Or-ing a multiple of 2^k with a value below 2^k adds the two. */
  lemma {:induction false} OrDisjoint(q: nat, b: nat, k: nat)
    requires b < Pow2(k)
    ensures Or(Scaled(q, k), b) == Scaled(q, k) + b
  {
    if k == 0 {
      assert b == 0;
    } else {
      OrDisjoint(q, b / 2, k - 1);
      OrStep(Scaled(q, k - 1), b, Scaled(q, k));
    }
  }

  /** One bit of AndLowMask: and-ing x = 2(m + high) + low with the odd mask 2h - 1. */
  lemma AndStep(m: nat, high: nat, low: nat, h: nat, x: nat, mask: nat, r: nat)
    requires h >= 1 && low < 2 && high < h
    requires x == 2 * (m + high) + low && mask == 2 * h - 1 && r == 2 * high + low
    requires And(m + high, h - 1) == high
    ensures And(x, mask) == r
  {
    if x != 0 {
      assert x / 2 == m + high && x % 2 == low;
      assert mask / 2 == h - 1 && mask % 2 == 1;
    }
  }

  /** And-ing with the mask 2^k - 1 keeps the low k bits. */
  lemma {:induction false} AndLowMask(q: nat, r: nat, k: nat)
    requires r < Pow2(k)
    ensures And(Scaled(q, k) + r, Pow2(k) - 1) == r
  {
    if k == 0 {
      assert And(q, 0) == 0;
    } else {
      AndLowMask(q, r / 2, k - 1);
      AndStep(Scaled(q, k - 1), r / 2, r % 2, Pow2(k - 1), Scaled(q, k) + r, Pow2(k) - 1, r);
    }
  }

  /** OrDisjoint for a value given as any multiple of 2^k. */
  lemma OrAdd(a: nat, b: nat, q: nat, k: nat)
    requires a == q * Pow2(k) && b < Pow2(k)
    ensures Or(a, b) == a + b
  {
    ScaledIsProduct(q, k);
    OrDisjoint(q, b, k);
  }

  /** AndLowMask for a value given as any multiple of 2^k plus r. */
  lemma AndMask(a: nat, q: nat, r: nat, k: nat)
    requires a == q * Pow2(k) + r && r < Pow2(k)
    ensures And(a, Pow2(k) - 1) == r
  {
    ScaledIsProduct(q, k);
    AndLowMask(q, r, k);
  }
}
