/** File addresses (haddr_t): 64-bit unsigned integers whose arithmetic wraps
    modulo 2^64, with the all-ones value reserved as the "undefined" sentinel.
    Also the powers of two and bit lengths used by the signature search. */
module Addresses {

  /** haddr_t and size_t are 64 bits wide. */
  const ADDR_MOD: nat := 0x1_0000_0000_0000_0000

  type Haddr = a: nat | a < ADDR_MOD

  /** HADDR_UNDEF: every bit set. */
  const HADDR_UNDEF: Haddr := 0xFFFF_FFFF_FFFF_FFFF

  /** An address other than the sentinel (H5F_addr_defined). */
  type DefinedAddr = a: Haddr | a != HADDR_UNDEF

  /** Unsigned addition as C performs it on haddr_t: the carry out of bit 63 is lost. */
  function Add(a: Haddr, b: Haddr): Haddr
  {
    if a + b < ADDR_MOD then a + b else a + b - ADDR_MOD
  }

  /** Unsigned subtraction as C performs it on haddr_t: a borrow wraps around. */
  function Sub(a: Haddr, b: Haddr): Haddr
  {
    if b <= a then a - b else a - b + ADDR_MOD
  }

  /** Adding a base offset and subtracting it again gives back the address,
      whatever wrap-around happened on the way out. */
  lemma TranslateRoundTrip(x: Haddr, base: Haddr)
    ensures Sub(Add(x, base), base) == x
    ensures Add(Sub(x, base), base) == x
  {
  }

  /** Defined addresses can translate to the sentinel: adding a base can
      carry into all ones, and subtracting one can borrow to all ones. */
  lemma TranslateCanGiveUndef()
    ensures Add(0x7FFF_FFFF_FFFF_FFFF, 0x8000_0000_0000_0000) == HADDR_UNDEF
    ensures Sub(0, 1) == HADDR_UNDEF && Sub(10, 11) == HADDR_UNDEF
  {
  }

  function Pow2(n: nat): (r: nat)
    ensures r >= 1
  {
    if n == 0 then 1 else 2 * Pow2(n - 1)
  }

  lemma {:induction false} Pow2Monotone(i: nat, j: nat)
    requires i <= j
    ensures Pow2(i) <= Pow2(j)
    decreases j - i
  {
    if i < j {
      Pow2Monotone(i + 1, j);
    }
  }

  lemma Pow2StrictlyMonotone(i: nat, j: nat)
    requires i < j
    ensures Pow2(i) < Pow2(j)
  {
  }

  /** Number of significant bits of x: how often x can be halved before it is zero. */
  function BitLen(x: nat): nat
  {
    if x == 0 then 0 else 1 + BitLen(x / 2)
  }

  /** BitLen(x) is the least N with 2^N > x: 2^BitLen(x) exceeds x, and
      2^(BitLen(x) - 1) does not. */
  lemma {:induction false} BitLenBounds(x: nat)
    ensures x < Pow2(BitLen(x))
    ensures x > 0 ==> Pow2(BitLen(x) - 1) <= x
  {
    if x > 0 {
      BitLenBounds(x / 2);
    }
  }

  /** 2^n exceeds x exactly when n is at least the bit length of x. */
  lemma BitLenLeast(x: nat, n: nat)
    ensures x < Pow2(n) <==> BitLen(x) <= n
  {
  }
}
