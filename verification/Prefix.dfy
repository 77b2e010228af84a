/** Addresses and prefixes as the trie code sees them (lib/ip.h, lib/ip.c).

    Inside the trie both families use 128-bit addresses; an IPv4 address is
    zero-padded from the right.  An address is the sequence of its bits, most
    significant first, and a C bit mask is the set of positions of its one bits.
 */
module Prefix {
  const WIDTH := 128
  const STEP := 4

  type Addr = a: seq<bool> | |a| == 128 witness seq(128, i => false)

  /** ip6_prefix_equal: the first n bits are the same. */
  predicate Agree(a: Addr, b: Addr, n: nat)
    requires n <= WIDTH
  {
    forall i :: 0 <= i < n ==> a[i] == b[i]
  }

  function Min(a: nat, b: nat): nat { if a < b then a else b }

  function Max(a: nat, b: nat): nat { if a < b then b else a }

  /** Multiples of the trie step. */
  predicate Aligned(n: nat) {
    n == 0 || (STEP <= n && Aligned(n - STEP))
  }

  /** ROUND_DOWN_POW2(n, TRIE_STEP) */
  function RoundDown(n: nat): (r: nat)
    ensures r <= n < r + STEP && Aligned(r)
  {
    if n < STEP then 0 else RoundDown(n - STEP) + STEP
  }

  /** RoundDown clears the low bits: it is n & ~(STEP - 1). */
  lemma {:induction false} RoundDownIs(n: nat)
    ensures RoundDown(n) == n - n % STEP
    ensures Aligned(n) <==> n % STEP == 0
  {
    if n >= STEP {
      RoundDownIs(n - STEP);
    }
  }

  /** Different node lengths are at least a step apart. */
  lemma {:induction false} StepApart(a: nat, b: nat)
    requires Aligned(a) && Aligned(b) && a < b
    ensures a + STEP <= b
  {
    if a > 0 {
      StepApart(a - STEP, b - STEP);
    }
  }

  /** A node above the full width leaves room for a whole step. */
  lemma RoomBelow(n: nat)
    requires Aligned(n) && n < WIDTH
    ensures n + STEP <= WIDTH
  {
    RoundDownIs(128);
    StepApart(n, WIDTH);
  }

  /** The powers of two the trie needs (1u << k). */
  function Pow2(k: nat): (r: nat)
    requires k <= STEP
    ensures 1 <= r <= 16
  {
    if k == 0 then 1 else if k == 1 then 2 else if k == 2 then 4 else if k == 3 then 8 else 16
  }

  /** No bit is set from position n on. */
  predicate Clear(a: Addr, n: nat) {
    forall i :: n <= i < WIDTH ==> !a[i]
  }

  /** No bit is set from position lo to hi - 1. */
  predicate Unset(a: Addr, lo: nat, hi: nat) {
    forall i :: lo <= i < hi && i < WIDTH ==> !a[i]
  }

  /** ipa_and(a, ipa_mkmask(n)) */
  function Masked(a: Addr, n: nat): (r: Addr)
    requires n <= WIDTH
    ensures Agree(r, a, n) && Clear(r, n)
  {
    seq(WIDTH, i requires 0 <= i < WIDTH => i < n && a[i])
  }

  lemma MaskedEqual(a: Addr, b: Addr, n: nat)
    requires n <= WIDTH && Agree(a, b, n)
    ensures Masked(a, n) == Masked(b, n)
  {
  }

  /** ipa_and(m, ipa_mkmask(n)) for a mask m. */
  function Below(m: set<nat>, n: nat): set<nat>
  {
    set b | b in m && b < n
  }

  function Bit(b: bool): nat { if b then 1 else 0 }

  /** ip6_getbits: the number spelled by n bits from position p. */
  function GetBits(a: Addr, p: nat, n: nat): (r: nat)
    requires p + n <= WIDTH && n <= STEP
    ensures r < Pow2(n)
  {
    if n == 0 then 0 else 2 * GetBits(a, p, n - 1) + Bit(a[p + n - 1])
  }

  /** Equal numbers are spelled by equal bits, and conversely. */
  lemma {:induction false} GetBitsEqual(a: Addr, b: Addr, p: nat, n: nat)
    requires p + n <= WIDTH && n <= STEP
    ensures GetBits(a, p, n) == GetBits(b, p, n) <==> forall i :: p <= i < p + n ==> a[i] == b[i]
  {
    if n > 0 {
      GetBitsEqual(a, b, p, n - 1);
      assert GetBits(a, p, n) == GetBits(b, p, n) <==>
             GetBits(a, p, n - 1) == GetBits(b, p, n - 1) && a[p + n - 1] == b[p + n - 1];
    }
  }

  /** trie_local_mask6: position of the prefix a/len in the local bit mask of
      a node of length nlen. */
  function LocalPos(a: Addr, len: nat, nlen: nat): (r: nat)
    requires nlen <= len < nlen + STEP && len <= WIDTH
    ensures 1 <= r < 16
  {
    Pow2(len - nlen) + GetBits(a, nlen, len - nlen)
  }

  /** Local positions separate prefixes of one node. */
  lemma LocalPosEqual(a: Addr, la: nat, b: Addr, lb: nat, nlen: nat)
    requires nlen <= la < nlen + STEP && la <= WIDTH
    requires nlen <= lb < nlen + STEP && lb <= WIDTH
    ensures LocalPos(a, la, nlen) == LocalPos(b, lb, nlen) <==>
            la == lb && forall i :: nlen <= i < la ==> a[i] == b[i]
  {
    GetBitsEqual(a, b, nlen, la - nlen);
  }

  /** Number of leading bits on which two different addresses agree (ip6_pxlen). */
  function PxLen(a: Addr, b: Addr, from: nat := 0): (r: nat)
    requires from < WIDTH && Agree(a, b, from) && a != b
    ensures from <= r < WIDTH && Agree(a, b, r) && a[r] != b[r]
    decreases WIDTH - from
  {
    if a[from] != b[from] then from
    else
      assert from + 1 == WIDTH ==> a == b;
      PxLen(a, b, from + 1)
  }
}
