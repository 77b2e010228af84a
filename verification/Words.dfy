/** Bit buffers made of 32-bit words (lib/bitmap.c, lib/bitops.h).

    A u32 buffer is represented by the sequence of its bits, lowest first, so
    that BIT32_TEST, BIT32_SET and BIT32_CLR are accesses to one element and
    word i is the slice of 32 bits from 32 * i on.
 */
module Words {
  type Bits = seq<bool>

  type Word = w: seq<bool> | |w| == 32 witness seq(32, _ => false)

  function WordAt(p: Bits, i: nat): (w: Word)
    requires 32 * i + 32 <= |p|
    ensures forall k :: 0 <= k < 32 ==> w[k] == p[32 * i + k]
  {
    p[32 * i..32 * i + 32]
  }

  /** (1 << n) - 1 */
  function LowMask(n: nat): (w: Word)
    ensures forall k :: 0 <= k < 32 ==> w[k] == (k < n)
  {
    seq(32, k => k < n)
  }

  function Not(v: Word): (w: Word)
    ensures forall k :: 0 <= k < 32 ==> w[k] == !v[k]
  {
    seq(32, k requires 0 <= k < 32 => !v[k])
  }

  function Or(u: Word, v: Word): (w: Word)
    ensures forall k :: 0 <= k < 32 ==> w[k] == (u[k] || v[k])
  {
    seq(32, k requires 0 <= k < 32 => u[k] || v[k])
  }

  function And(u: Word, v: Word): (w: Word)
    ensures forall k :: 0 <= k < 32 ==> w[k] == (u[k] && v[k])
  {
    seq(32, k requires 0 <= k < 32 => u[k] && v[k])
  }

  predicate IsZero(w: Word) { forall k :: 0 <= k < 32 ==> !w[k] }

  /** u32_ctz */
  method Ctz(w: Word) returns (r: nat)
    requires !IsZero(w)
    ensures r < 32 && w[r] && forall k :: 0 <= k < r ==> !w[k]
  {
    r := 0;
    while !w[r]
      invariant r < 32 && forall k :: 0 <= k < r ==> !w[k]
      decreases 32 - r
    {
      r := r + 1;
    }
  }

  /** u32_clz */
  method Clz(w: Word) returns (r: nat)
    requires !IsZero(w)
    ensures r < 32 && w[31 - r] && forall k :: 31 - r < k < 32 ==> !w[k]
  {
    r := 0;
    while !w[31 - r]
      invariant r < 32 && forall k :: 31 - r < k < 32 ==> !w[k]
      decreases 32 - r
    {
      r := r + 1;
    }
  }

  ghost predicate AllSet(p: Bits, lo: int, hi: int) {
    forall k :: lo <= k < hi && 0 <= k < |p| ==> p[k]
  }

  ghost predicate NoneSet(p: Bits, lo: int, hi: int) {
    forall k :: lo <= k < hi && 0 <= k < |p| ==> !p[k]
  }

  // ---- Whole buffers of n words ----

  /** b256_and, b1024_and */
  method AndAll(p: Bits, n: nat) returns (r: bool)
    requires |p| == 32 * n
    ensures r <==> AllSet(p, 0, |p|)
  {
    for i := 0 to n
      invariant AllSet(p, 0, 32 * i)
    {
      if !IsZero(Not(WordAt(p, i))) {
        return false;
      }
    }
    return true;
  }

  /** b1024_or */
  method OrAll(p: Bits, n: nat) returns (r: bool)
    requires |p| == 32 * n
    ensures r <==> !NoneSet(p, 0, |p|)
  {
    for i := 0 to n
      invariant NoneSet(p, 0, 32 * i)
    {
      if !IsZero(WordAt(p, i)) {
        return true;
      }
    }
    return false;
  }

  /** b256_first_zero, b1024_first_zero */
  method FirstZero(p: Bits, n: nat) returns (r: nat)
    requires |p| == 32 * n
    ensures r <= |p| && AllSet(p, 0, r) && (r < |p| ==> !p[r])
  {
    for i := 0 to n
      invariant AllSet(p, 0, 32 * i)
    {
      if !IsZero(Not(WordAt(p, i))) {
        var z := Ctz(Not(WordAt(p, i)));
        return 32 * i + z;
      }
    }
    return |p|;
  }

  /** b1024_last_one */
  method LastOne(p: Bits, n: nat) returns (r: nat)
    requires |p| == 32 * n
    ensures r <= |p| && (r < |p| ==> p[r] && NoneSet(p, r + 1, |p|)) && (r == |p| ==> NoneSet(p, 0, |p|))
  {
    for i := n downto 0
      invariant NoneSet(p, 32 * i, |p|)
    {
      if !IsZero(WordAt(p, i)) {
        var z := Clz(WordAt(p, i));
        return 32 * i + (31 - z);
      }
    }
    return |p|;
  }

  /** The mask leaves out bits a..b only, or keeps them only. */
  ghost predicate Hides(mask: Word, a: int, b: int) {
    forall k :: 0 <= k < 32 ==> (mask[k] <==> !(a <= k < b))
  }

  ghost predicate Keeps(mask: Word, a: int, b: int) {
    forall k :: 0 <= k < 32 ==> (mask[k] <==> a <= k < b)
  }

  /** First zero bit of word i not hidden by the mask; 32 if there is none. */
  method ZeroInWord(p: Bits, i: nat, mask: Word, ghost a: int, ghost b: int) returns (z: nat)
    requires 32 * i + 32 <= |p| && Hides(mask, a, b) && 0 <= a && b <= 32
    ensures z <= 32
    ensures z < 32 ==> a <= z < b && !p[32 * i + z] && AllSet(p, 32 * i + a, 32 * i + z)
    ensures z == 32 ==> AllSet(p, 32 * i + a, 32 * i + b)
  {
    var val := Or(WordAt(p, i), mask);
    z := 32;
    if !IsZero(Not(val)) {
      z := Ctz(Not(val));
    }
    forall k | 32 * i + a <= k < 32 * i + b && k < 32 * i + z ensures p[k] {
      var j := k - 32 * i;
      assert val[j] && !mask[j];
    }
  }

  /** Last one bit of word i kept by the mask; 32 if there is none. */
  method OneInWord(p: Bits, i: nat, mask: Word, ghost a: int, ghost b: int) returns (z: nat)
    requires 32 * i + 32 <= |p| && Keeps(mask, a, b) && 0 <= a && b <= 32
    ensures z <= 32
    ensures z < 32 ==> a <= z < b && p[32 * i + z] && NoneSet(p, 32 * i + z + 1, 32 * i + b)
    ensures z == 32 ==> NoneSet(p, 32 * i + a, 32 * i + b)
  {
    var val := And(WordAt(p, i), mask);
    z := 32;
    if !IsZero(val) {
      var c := Clz(val);
      z := 31 - c;
    }
    forall k | 32 * i + a <= k < 32 * i + b && (z < 32 ==> k > 32 * i + z) ensures !p[k] {
      var j := k - 32 * i;
      assert !val[j] && mask[j];
    }
  }

  /** b1024_first_zero_in_range */
  method FirstZeroInRange(p: Bits, n: nat, lo: nat, hi: nat) returns (r: nat)
    requires |p| == 32 * n && lo <= hi <= |p|
    ensures lo <= r <= hi && AllSet(p, lo, r) && (r < hi ==> !p[r])
  {
    var lo0, lo1, hi0, hi1 := lo / 32, lo % 32, hi / 32, hi % 32;
    var mask := LowMask(lo1);
    ghost var a: nat := lo1;
    for i := lo0 to hi0
      invariant AllSet(p, lo, 32 * i) && Hides(mask, a, 32) && a == if i == lo0 then lo1 else 0
    {
      var z := ZeroInWord(p, i, mask, a, 32);
      mask, a := LowMask(0), 0;
      if z < 32 {
        return 32 * i + z;
      }
    }
    if hi1 != 0 {
      mask := Or(mask, Not(LowMask(hi1)));
      var z := ZeroInWord(p, hi0, mask, a, hi1);
      if z < 32 {
        return 32 * hi0 + z;
      }
    }
    return hi;
  }

  /** b1024_last_one_in_range */
  method LastOneInRange(p: Bits, n: nat, lo: nat, hi: nat) returns (r: nat)
    requires |p| == 32 * n && lo <= hi < |p|
    ensures lo <= r <= hi && (r < hi ==> p[r] && NoneSet(p, r + 1, hi)) && (r == hi ==> NoneSet(p, lo, hi))
  {
    var lo0, lo1, hi0, hi1 := lo / 32, lo % 32, hi / 32, hi % 32;
    var mask := LowMask(hi1);
    ghost var b: nat := hi1;
    for i := hi0 + 1 downto lo0 + 1
      invariant NoneSet(p, 32 * i, hi) && Keeps(mask, 0, b) && b == if i == hi0 + 1 then hi1 else 32
    {
      var z := OneInWord(p, i, mask, 0, b);
      mask, b := Not(LowMask(0)), 32;
      if z < 32 {
        return 32 * i + z;
      }
    }
    mask := And(mask, Not(LowMask(lo1)));
    var z := OneInWord(p, lo0, mask, lo1, b);
    if z < 32 {
      return 32 * lo0 + z;
    }
    return hi;
  }
}
