/** Indirect bitmap for MPLS labels (lib/bitmap.c): blocks of 1024 bits allocated
    on demand, and a root that tells which blocks are full.
 */
module Lmap {
  import opened Words

  const BLOCK := 1024
  const LABELS := 1048576

  /** A pointer to a block of 32 words. */
  datatype Block = Null | Block(bits: Bits)

  predicate Full(b: Block) { b.Block? && forall k :: 0 <= k < |b.bits| ==> b.bits[k] }

  predicate Empty(b: Block) { b.Block? && forall k :: 0 <= k < |b.bits| ==> !b.bits[k] }

  function Zeros(): (r: Bits)
    ensures |r| == BLOCK && forall k :: 0 <= k < BLOCK ==> !r[k]
  {
    seq(BLOCK, _ => false)
  }

  predicate HasBit(data: seq<Block>, n0: nat, n1: nat) {
    n0 < |data| && data[n0].Block? && n1 < |data[n0].bits| && data[n0].bits[n1]
  }

  predicate Has(data: seq<Block>, n: nat) { HasBit(data, n / BLOCK, n % BLOCK) }

  predicate Sizes(size: nat) {
    size == 8 || size == 16 || size == 32 || size == 64 || size == 128 || size == 256 || size == 512 || size == 1024
  }

  /** Allocating or freeing an empty block changes no label. */
  lemma EmptySame(data: seq<Block>, n0: nat, b: Block)
    requires n0 < |data| && (data[n0].Null? || Empty(data[n0])) && (b.Null? || Empty(b))
    ensures forall n: nat :: Has(data[n0 := b], n) <==> Has(data, n)
  {
  }

  /** Writing one bit changes one label. */
  lemma BitWritten(data: seq<Block>, n: nat, v: bool)
    requires n / BLOCK < |data| && data[n / BLOCK].Block? && |data[n / BLOCK].bits| == BLOCK
    ensures var n0 := n / BLOCK;
      forall k: nat :: Has(data[n0 := Block(data[n0].bits[n % BLOCK := v])], k) <==> if k == n then v else Has(data, k)
  {
    var n0, n1 := n / BLOCK, n % BLOCK;
    var now := data[n0 := Block(data[n0].bits[n1 := v])];
    forall k: nat ensures Has(now, k) <==> if k == n then v else Has(data, k) {
      if k / BLOCK == n0 && k % BLOCK == n1 {
        assert k == n;
      }
    }
  }

  class LabelMap {
    var size: nat
    var data: seq<Block>
    var root: Bits
    /** The labels in the map. */
    ghost var labels: set<nat>

    ghost predicate Valid()
      reads this
    {
      && Sizes(size) && |data| == size && |root| == BLOCK
      // allocated blocks are never empty
      && (forall i :: 0 <= i < size && data[i].Block? ==> |data[i].bits| == BLOCK && !Empty(data[i]))
      // a root bit is set iff its block is full
      && (forall i :: 0 <= i < BLOCK ==> (root[i] <==> i < size && Full(data[i])))
      && (forall n: nat :: n in labels <==> Has(data, n))
    }

    /** lmap_init */
    constructor ()
      ensures Valid() && labels == {}
    {
      size := 8;
      data := seq(8, _ => Null);
      root := Zeros();
      labels := {};
    }

    /** lmap_test */
    method Test(n: nat) returns (r: bool)
      requires Valid()
      ensures r <==> n in labels
    {
      var n0, n1 := n / BLOCK, n % BLOCK;
      r := n0 < size && data[n0].Block? && data[n0].bits[n1];
    }

    /** lmap_grow */
    method Grow(need: nat)
      requires Valid() && size < need <= BLOCK
      modifies this`size, this`data
      ensures Valid() && need <= size && labels == old(labels)
      ensures forall i :: old(size) <= i < size ==> data[i] == Null
    {
      var newSize := size;
      while newSize < need
        invariant Sizes(newSize) && size <= newSize
      {
        newSize := newSize * 2;
      }
      data := data + seq(newSize - size, _ => Null);
      size := newSize;
    }

    /** lmap_set */
    method Set(n: nat)
      requires Valid() && n < LABELS
      modifies this
      ensures Valid() && labels == old(labels) + {n}
    {
      var n0, n1 := n / BLOCK, n % BLOCK;
      if n0 >= size {
        Grow(n0 + 1);
      }
      if data[n0].Null? {
        EmptySame(data, n0, Block(Zeros()));
        data := data[n0 := Block(Zeros())];
      }
      BitWritten(data, n, true);
      data := data[n0 := Block(data[n0].bits[n1 := true])];
      labels := labels + {n};
      assert data[n0].bits[n1];
      var full := AndAll(data[n0].bits, 32);
      if full {
        root := root[n0 := true];
      }
    }

    /** lmap_clear */
    method Clear(n: nat)
      requires Valid() && n < LABELS
      modifies this
      ensures Valid() && labels == old(labels) - {n}
    {
      var n0, n1 := n / BLOCK, n % BLOCK;
      if n0 >= size {
        return;
      }
      if data[n0].Null? {
        return;
      }
      BitWritten(data, n, false);
      data := data[n0 := Block(data[n0].bits[n1 := false])];
      root := root[n0 := false];
      labels := labels - {n};
      assert !data[n0].bits[n1];
      var some := OrAll(data[n0].bits, 32);
      if !some {
        EmptySame(data, n0, Null);
        data := data[n0 := Null];
      }
    }

    /** lmap_first_zero */
    method FirstAbsent() returns (r: nat)
      requires Valid()
      ensures r <= LABELS && r !in labels && forall k: nat :: k < r ==> k in labels
    {
      var n0 := FirstZero(root, 32);
      var n1 := 0;
      if n0 < size && data[n0].Block? {
        n1 := FirstZero(data[n0].bits, 32);
      }
      r := n0 * BLOCK + n1;
      forall k: nat | k < r ensures Has(data, k) {
        if k / BLOCK < n0 {
          assert root[k / BLOCK];
        }
      }
      assert !HasBit(data, n0, n1);
    }

    /** First absent label among lo..hi of block n0, as an index in the block; hi if none. */
    method AbsentInBlock(n0: nat, lo: nat, hi: nat) returns (n1: nat)
      requires Valid() && lo <= hi <= BLOCK
      ensures lo <= n1 <= hi && (n1 < hi ==> n0 * BLOCK + n1 !in labels)
      ensures forall k: nat :: n0 * BLOCK + lo <= k < n0 * BLOCK + n1 ==> k in labels
    {
      n1 := lo;
      if n0 < size && data[n0].Block? {
        n1 := FirstZeroInRange(data[n0].bits, 32, lo, hi);
      }
      forall k: nat | n0 * BLOCK + lo <= k < n0 * BLOCK + n1 ensures Has(data, k) {
        assert k / BLOCK == n0 && k % BLOCK == k - n0 * BLOCK;
      }
      assert n1 < BLOCK ==> (n0 * BLOCK + n1) / BLOCK == n0 && (n0 * BLOCK + n1) % BLOCK == n1;
    }

    /** The block with the first absent label among blocks lo..hi, found in the root; hi if none. */
    method BlockWithAbsent(lo: nat, hi: nat) returns (n0: nat)
      requires Valid() && lo <= hi <= BLOCK
      ensures lo <= n0 <= hi && (n0 < hi ==> !(n0 < size && Full(data[n0])))
      ensures forall k: nat :: lo * BLOCK <= k < n0 * BLOCK ==> k in labels
    {
      n0 := FirstZeroInRange(root, 32, lo, hi);
      forall k: nat | lo * BLOCK <= k < n0 * BLOCK ensures Has(data, k) {
        assert root[k / BLOCK];
      }
    }

    /** lmap_first_zero_in_range */
    method FirstAbsentInRange(lo: nat, hi: nat) returns (r: nat)
      requires Valid() && lo <= hi <= LABELS
      ensures lo <= r <= hi && (forall k: nat :: lo <= k < r ==> k in labels) && (r < hi ==> r !in labels)
    {
      var lo0, lo1, hi0, hi1 := lo / BLOCK, lo % BLOCK, hi / BLOCK, hi % BLOCK;
      if lo1 != 0 {
        var n1 := AbsentInBlock(lo0, lo1, if lo0 == hi0 then hi1 else BLOCK);
        if n1 < BLOCK {
          return lo0 * BLOCK + n1;
        }
        lo0, lo1 := lo0 + 1, 0;
      }
      if lo0 < hi0 {
        var n0 := BlockWithAbsent(lo0, hi0);
        if n0 < hi0 {
          var n1 := AbsentInBlock(n0, 0, BLOCK);
          NotFull(n0, n1);
          return n0 * BLOCK + n1;
        }
      }
      if hi1 != 0 {
        var n1 := AbsentInBlock(hi0, 0, hi1);
        return hi0 * BLOCK + n1;
      }
      return hi;
    }

    lemma NotFull(n0: nat, n1: nat)
      requires Valid() && n1 <= BLOCK && !(n0 < size && Full(data[n0]))
      requires forall k: nat :: n0 * BLOCK <= k < n0 * BLOCK + n1 ==> k in labels
      ensures n1 < BLOCK
    {
      if n0 < size && data[n0].Block? {
        var j :| 0 <= j < BLOCK && !data[n0].bits[j];
        var k := n0 * BLOCK + j;
        assert k / BLOCK == n0 && k % BLOCK == j;
        assert k !in labels;
      } else {
        assert n0 * BLOCK !in labels by { NoBlock(n0); }
      }
    }

    /** Last present label among lo..hi of block n0, as an index in the block; hi if none. */
    method PresentInBlock(n0: nat, lo: nat, hi: nat) returns (n1: nat)
      requires Valid() && lo <= hi < BLOCK && n0 < size && data[n0].Block?
      ensures lo <= n1 <= hi && (n1 < hi ==> n0 * BLOCK + n1 in labels)
      ensures forall k: nat ::
        (if n1 < hi then n0 * BLOCK + n1 < k else n0 * BLOCK + lo <= k) && k < n0 * BLOCK + hi ==> k !in labels
    {
      n1 := LastOneInRange(data[n0].bits, 32, lo, hi);
      forall k: nat | n0 * BLOCK <= k < n0 * BLOCK + BLOCK
        ensures Has(data, k) <==> data[n0].bits[k - n0 * BLOCK]
      {
        assert k / BLOCK == n0 && k % BLOCK == k - n0 * BLOCK;
      }
    }

    /** Last present label of an allocated block, as an index in the block. */
    method LastInBlock(n0: nat) returns (n1: nat)
      requires Valid() && n0 < size && data[n0].Block?
      ensures n1 < BLOCK && n0 * BLOCK + n1 in labels
      ensures forall k: nat :: n0 * BLOCK + n1 < k < n0 * BLOCK + BLOCK ==> k !in labels
    {
      n1 := LastOne(data[n0].bits, 32);
      forall k: nat | n0 * BLOCK <= k < n0 * BLOCK + BLOCK
        ensures Has(data, k) <==> data[n0].bits[k - n0 * BLOCK]
      {
        assert k / BLOCK == n0 && k % BLOCK == k - n0 * BLOCK;
      }
    }

    lemma NoBlock(n0: nat)
      requires Valid() && (n0 >= size || data[n0].Null?)
      ensures forall k: nat :: n0 * BLOCK <= k < n0 * BLOCK + BLOCK ==> k !in labels
    {
      forall k: nat | n0 * BLOCK <= k < n0 * BLOCK + BLOCK ensures !Has(data, k) {
        assert k / BLOCK == n0;
      }
    }

    /** lmap_last_one_in_range */
    method LastPresentInRange(lo: nat, hi: nat) returns (r: nat)
      requires Valid() && lo <= hi <= LABELS
      ensures lo <= r <= hi && (r < hi ==> r in labels)
      ensures forall k: nat :: (if r < hi then r < k else lo <= k) && k < hi ==> k !in labels
    {
      var lo0, lo1, hi0, hi1 := lo / BLOCK, lo % BLOCK, hi / BLOCK, hi % BLOCK;
      if hi1 != 0 && hi0 < size && data[hi0].Block? {
        var n1 := PresentInBlock(hi0, if lo0 == hi0 then lo1 else 0, hi1);
        if n1 < hi1 {
          return hi0 * BLOCK + n1;
        }
      } else {
        LastBlock(hi);
      }
      var i: int := (if hi0 < size then hi0 else size) - 1;
      while i >= lo0
        invariant -1 <= i < size && i < hi0
        invariant forall k: nat :: lo <= k < hi && (i + 1) * BLOCK <= k ==> k !in labels
      {
        if data[i].Null? {
          NoBlock(i);
          i := i - 1;
          continue;
        }
        var n1 := LastInBlock(i);
        if i == lo0 && n1 < lo1 {
          return hi;
        }
        return i * BLOCK + n1;
      }
      return hi;
    }

    lemma LastBlock(hi: nat)
      requires Valid()
      requires !(hi % BLOCK != 0 && hi / BLOCK < size && data[hi / BLOCK].Block?)
      ensures forall k: nat :: (hi / BLOCK) * BLOCK <= k < hi ==> k !in labels
    {
      if hi % BLOCK != 0 {
        NoBlock(hi / BLOCK);
      }
    }
  }
}
