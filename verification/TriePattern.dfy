/** Prefix patterns and the trie nodes that encode them (trie_add_prefix).

    A pattern px/plen{low,high} is stored as one node when plen is a multiple of
    the trie step, and otherwise as a primary node above it and up to eight
    secondary nodes below it.  The lemmas here say that these nodes together
    stand for exactly the prefixes the pattern describes.
 */
module TriePattern {
  import opened Prefix
  import opened TrieTree

  datatype Pattern = Pattern(px: Addr, plen: nat, low: nat, high: nat)

  ghost predicate Ranged(p: Pattern) {
    p.plen <= WIDTH && p.low <= WIDTH && p.high <= WIDTH
  }

  /** A pattern without host bits. */
  ghost predicate ValidPattern(p: Pattern) {
    Ranged(p) && Clear(p.px, p.plen)
  }

  /** A tested prefix a/len matches the pattern (filter/trie.c, opening comment). */
  ghost predicate Matches(p: Pattern, a: Addr, len: nat)
    requires len <= WIDTH
  {
    p.low <= len <= p.high && Agree(a, p.px, Min(len, p.plen))
  }

  /** A run of one bits from position lo to hi - 1. */
  function Ones(lo: nat, hi: nat): (r: set<nat>)
    ensures forall b :: b in r <==> lo <= b < hi
    decreases hi
  {
    if lo >= hi then {} else Ones(lo, hi - 1) + {hi - 1}
  }

  /** Accept mask for the lengths l..h; length zero has no bit. */
  function AcceptMask(l: nat, h: nat): set<nat> {
    Ones(Max(l, 1) - 1, h)
  }

  /** Level i of the local mask if the length plen + i is within l..h. */
  function LevelOf(plen: nat, l: nat, h: nat, i: nat): set<nat>
    requires i < STEP
  {
    if l <= plen + i <= h then Ones(Pow2(i), 2 * Pow2(i)) else {}
  }

  /** All local positions of the levels within l..h. */
  function Levels(plen: nat, l: nat, h: nat): (r: set<nat>)
    ensures h <= WIDTH ==> LocalRange(r, plen)
  {
    LevelOf(plen, l, h, 0) + LevelOf(plen, l, h, 1) + LevelOf(plen, l, h, 2) + LevelOf(plen, l, h, 3)
  }

  /** The item trie_add_node builds from its arguments. */
  function NodeItem(plen: nat, px: Addr, local: set<nat>, l: nat, h: nat): (x: Item)
    requires plen <= WIDTH && Aligned(plen) && h <= WIDTH
    requires LocalRange(local, plen)
    ensures ValidItem(x)
  {
    Item(plen, Masked(px, plen), AcceptMask(l, h), local + Levels(plen, l, h))
  }

  /** Positions of level i lie between the powers 2^i and 2^(i+1). */
  lemma LevelsHas(plen: nat, l: nat, h: nat, a: Addr, len: nat)
    requires plen <= len < plen + STEP && len <= WIDTH
    ensures LocalPos(a, len, plen) in Levels(plen, l, h) <==> l <= len <= h
  {
    var i := len - plen;
    assert Pow2(i) <= LocalPos(a, len, plen) < 2 * Pow2(i);
  }

  /** The accept mask of a node covers its own levels, so that the filled levels
      of the local mask add no prefix. */
  lemma NodeItemHits(plen: nat, px: Addr, local: set<nat>, l: nat, h: nat, a: Addr, len: nat)
    requires plen <= WIDTH && Aligned(plen) && l <= WIDTH && h <= WIDTH && 1 <= len <= WIDTH
    requires LocalRange(local, plen)
    ensures Hits(NodeItem(plen, px, local, l, h), a, len) <==>
            || (l <= len <= h && Agree(a, px, Min(len, plen)))
            || (plen == RoundDown(len) && Agree(a, px, plen) && LocalPos(a, len, plen) in local)
  {
    if plen == RoundDown(len) {
      LevelsHas(plen, l, h, a, len);
    }
  }

  /** Number of positions the prefix px/plen covers at length len of a node. */
  function Spread(len: nat, plen: nat): nat
    requires len <= plen + STEP
  {
    if len <= plen then 1 else Pow2(len - plen)
  }

  /** Local positions of px/plen{l,h} at length nlen + i in its primary node. */
  function PrimaryLevel(px: Addr, plen: nat, nlen: nat, l: nat, h: nat, i: nat): (r: set<nat>)
    requires nlen < plen < nlen + STEP <= WIDTH && i < STEP
  {
    if l <= nlen + i <= h
    then Ones(LocalPos(px, nlen + i, nlen), LocalPos(px, nlen + i, nlen) + Spread(nlen + i, plen))
    else {}
  }

  /** All levels, in a mask of 16 bits. */
  function PrimaryLocal(px: Addr, plen: nat, nlen: nat, l: nat, h: nat): (r: set<nat>)
    requires nlen < plen < nlen + STEP <= WIDTH
    ensures forall p :: p in r ==> 1 <= p < 16
  {
    Below(PrimaryLevel(px, plen, nlen, l, h, 0) + PrimaryLevel(px, plen, nlen, l, h, 1) +
          PrimaryLevel(px, plen, nlen, l, h, 2) + PrimaryLevel(px, plen, nlen, l, h, 3), 16)
  }

  /** Bits up to n split into the first j and the rest. */
  lemma {:induction false} GetBitsSplit(a: Addr, p: nat, n: nat, j: nat)
    requires p + n <= WIDTH && n <= STEP && j <= n
    ensures GetBits(a, p, n) == GetBits(a, p, j) * Pow2(n - j) + GetBits(a, p + j, n - j)
  {
    if j < n {
      GetBitsSplit(a, p, n - 1, j);
      assert Pow2(n - j) == 2 * Pow2(n - j - 1);
    }
  }

  lemma {:induction false} ClearBits(a: Addr, p: nat, n: nat)
    requires p + n <= WIDTH && n <= STEP && Unset(a, p, p + n)
    ensures GetBits(a, p, n) == 0
  {
    if n > 0 {
      ClearBits(a, p, n - 1);
    }
  }

  lemma PrimaryLevelHas(px: Addr, plen: nat, nlen: nat, l: nat, h: nat, a: Addr, len: nat)
    requires nlen < plen < nlen + STEP <= WIDTH && nlen <= len < nlen + STEP && Agree(a, px, nlen)
    requires Unset(px, plen, Min(h, nlen + STEP))
    ensures LocalPos(a, len, nlen) in PrimaryLevel(px, plen, nlen, l, h, len - nlen) <==>
            l <= len <= h && Agree(a, px, Min(len, plen))
  {
    if len <= plen {
      LocalPosEqual(a, len, px, len, nlen);
    } else if l <= len <= h {
      GetBitsSplit(a, nlen, len - nlen, plen - nlen);
      GetBitsSplit(px, nlen, len - nlen, plen - nlen);
      ClearBits(px, plen, len - plen);
      GetBitsEqual(a, px, nlen, plen - nlen);
    }
  }

  lemma PrimaryLevelRange(px: Addr, plen: nat, nlen: nat, l: nat, h: nat, i: nat)
    requires nlen < plen < nlen + STEP <= WIDTH && i < STEP
    requires Unset(px, plen, Min(h, nlen + STEP))
    ensures forall p :: p in PrimaryLevel(px, plen, nlen, l, h, i) ==> Pow2(i) <= p < 2 * Pow2(i)
  {
    if plen < nlen + i <= h {
      GetBitsSplit(px, nlen, i, plen - nlen);
      ClearBits(px, plen, nlen + i - plen);
    }
  }

  lemma PrimaryLocalHas(px: Addr, plen: nat, nlen: nat, l: nat, h: nat, a: Addr, len: nat)
    requires nlen < plen < nlen + STEP <= WIDTH && nlen <= len < nlen + STEP && Agree(a, px, nlen)
    requires Unset(px, plen, Min(h, nlen + STEP))
    ensures LocalPos(a, len, nlen) in PrimaryLocal(px, plen, nlen, l, h) <==>
            l <= len <= h && Agree(a, px, Min(len, plen))
  {
    PrimaryLevelHas(px, plen, nlen, l, h, a, len);
    forall i: nat | i < STEP && i != len - nlen
      ensures LocalPos(a, len, nlen) !in PrimaryLevel(px, plen, nlen, l, h, i)
    {
      PrimaryLevelRange(px, plen, nlen, l, h, i);
    }
  }

  /** Bit k of a small number. */
  predicate BitOf(v: nat, k: nat)
    requires k <= STEP
  {
    v / Pow2(k) % 2 == 1
  }

  /** ip6_setbits: or the number val < 16 into a so that it ends at position pos. */
  function SetBits(a: Addr, pos: nat, val: nat): (r: Addr)
    requires pos < WIDTH && val < 16
  {
    seq(WIDTH, j requires 0 <= j < WIDTH => a[j] || (pos < j + STEP && j <= pos && BitOf(val, pos - j)))
  }

  lemma {:induction false} SetBitsPart(a: Addr, p: nat, n: nat, val: nat, m: nat)
    requires 0 < n <= STEP && p + n <= WIDTH && val < Pow2(n) && Unset(a, p, p + n) && m <= n
    ensures GetBits(SetBits(a, p + n - 1, val), p, m) == val / Pow2(n - m)
  {
    if m > 0 {
      SetBitsPart(a, p, n, val, m - 1);
      var d := Pow2(n - m);
      assert Pow2(n - m + 1) == 2 * d;
      assert val / (2 * d) == val / d / 2 by {
        if d == 1 {} else if d == 2 {} else if d == 4 {} else {}
      }
      assert SetBits(a, p + n - 1, val)[p + m - 1] == BitOf(val, n - m);
    }
  }

  /** Writing val into n clear bits makes them spell val and keeps the rest. */
  lemma SetBitsGet(a: Addr, p: nat, n: nat, val: nat)
    requires 0 < n <= STEP && p + n <= WIDTH && val < Pow2(n) && Unset(a, p, p + n)
    ensures GetBits(SetBits(a, p + n - 1, val), p, n) == val
    ensures Agree(SetBits(a, p + n - 1, val), a, p)
    ensures forall j :: p + n <= j < WIDTH ==> SetBits(a, p + n - 1, val)[j] == a[j]
  {
    SetBitsPart(a, p, n, val, n);
    forall k: nat | n <= k <= STEP ensures !BitOf(val, k) {}
  }

  /** A secondary node: the i-th extension of px to the next node length. */
  function SecondaryItem(px: Addr, slen: nat, l: nat, h: nat, i: nat): (x: Item)
    requires 0 < slen <= WIDTH && Aligned(slen) && h <= WIDTH && i < 16
    ensures ValidItem(x)
  {
    NodeItem(slen, SetBits(px, slen - 1, i), {}, l, h)
  }

  lemma NthCover(px: Addr, plen: nat, slen: nat, l: nat, h: nat, a: Addr, len: nat, i: nat)
    requires plen < slen <= WIDTH && slen < plen + STEP && Aligned(slen) && Unset(px, plen, slen)
    requires slen <= l <= WIDTH && h <= WIDTH && 1 <= len <= WIDTH && i < Pow2(slen - plen)
    ensures Hits(SecondaryItem(px, slen, l, h, i), a, len) <==>
            l <= len <= h && Agree(a, px, plen) && GetBits(a, plen, slen - plen) == i
  {
    var q := SetBits(px, slen - 1, i);
    NodeItemHits(slen, q, {}, l, h, a, len);
    SetBitsAgree(px, plen, slen, a, i);
  }

  lemma SetBitsAgree(px: Addr, plen: nat, slen: nat, a: Addr, i: nat)
    requires plen < slen <= WIDTH && slen < plen + STEP && Unset(px, plen, slen) && i < Pow2(slen - plen)
    ensures Agree(a, SetBits(px, slen - 1, i), slen) <==> Agree(a, px, plen) && GetBits(a, plen, slen - plen) == i
  {
    var q := SetBits(px, slen - 1, i);
    SetBitsGet(px, plen, slen - plen, i);
    GetBitsEqual(a, q, plen, slen - plen);
    assert Agree(a, q, slen) <==> Agree(a, q, plen) && forall j :: plen <= j < slen ==> a[j] == q[j];
  }

  /** Writing all ones. */
  lemma SetOnes(a: Addr, p: nat, n: nat, j: nat)
    requires 0 < n < STEP && p + n <= WIDTH && j < p + n
    ensures SetBits(a, p + n - 1, Pow2(n) - 1)[j] <==> a[j] || p <= j
  {
    var val, pos := Pow2(n) - 1, p + n - 1;
    if p <= j {
      OnesBit(n, pos - j);
    } else if pos < j + STEP {
      assert n <= pos - j < STEP;
      assert !BitOf(val, pos - j);
    }
  }

  lemma OnesBit(n: nat, k: nat)
    requires k < n < STEP
    ensures BitOf(Pow2(n) - 1, k)
  {
    if k == 0 {} else if k == 1 {} else {}
  }

  /** The first n secondary nodes. */
  function SecondaryItems(px: Addr, slen: nat, l: nat, h: nat, n: nat): (r: seq<Item>)
    requires 0 < slen <= WIDTH && Aligned(slen) && h <= WIDTH && n <= 16
    ensures |r| == n && forall i :: 0 <= i < n ==> r[i] == SecondaryItem(px, slen, l, h, i)
  {
    seq(n, i requires 0 <= i < n => SecondaryItem(px, slen, l, h, i))
  }

  lemma InsertSecondary(px: Addr, slen: nat, l: nat, h: nat, i: nat, t: Tree)
    requires 0 < slen <= WIDTH && Aligned(slen) && h <= WIDTH && i < 16 && Valid(t)
    ensures InsertAll(SecondaryItems(px, slen, l, h, i + 1), t) ==
            Insert(SecondaryItem(px, slen, l, h, i), InsertAll(SecondaryItems(px, slen, l, h, i), t))
  {
    var xs := SecondaryItems(px, slen, l, h, i);
    assert SecondaryItems(px, slen, l, h, i + 1) == xs + [SecondaryItem(px, slen, l, h, i)];
    InsertAllMore(xs, SecondaryItem(px, slen, l, h, i), t);
  }

  /** Together the secondary nodes stand for all longer subprefixes of px/plen. */
  lemma SecondaryCover(px: Addr, plen: nat, slen: nat, l: nat, h: nat, a: Addr, len: nat)
    requires plen < slen <= WIDTH && slen < plen + STEP && Aligned(slen) && Unset(px, plen, slen)
    requires slen <= l <= WIDTH && h <= WIDTH && 1 <= len <= WIDTH
    ensures AnyHits(SecondaryItems(px, slen, l, h, Pow2(slen - plen)), a, len) <==>
            l <= len <= h && Agree(a, px, plen)
  {
    var n := Pow2(slen - plen);
    var xs := SecondaryItems(px, slen, l, h, n);
    forall i: nat | i < n
      ensures Hits(xs[i], a, len) <==> l <= len <= h && Agree(a, px, plen) && GetBits(a, plen, slen - plen) == i
    {
      NthCover(px, plen, slen, l, h, a, len, i);
    }
    if l <= len <= h && Agree(a, px, plen) {
      assert Hits(xs[GetBits(a, plen, slen - plen)], a, len);
    }
  }

  /** Effective prefix length of a pattern: cut down to its upper bound. */
  function CutLen(p: Pattern): nat { Min(p.plen, p.high) }

  /** No host bit is set among those that the nodes of the pattern depend on. */
  ghost predicate HostClear(p: Pattern) {
    Aligned(CutLen(p)) || Unset(p.px, CutLen(p), Min(p.high, RoundDown(CutLen(p)) + STEP))
  }

  /** The primary node of a pattern with an unaligned length, if it needs one. */
  function PrimaryItems(p: Pattern): (r: seq<Item>)
    requires Ranged(p) && !Aligned(CutLen(p))
    ensures |r| <= 1 && ValidItems(r)
  {
    var nlen := RoundDown(CutLen(p));
    RoomBelow(nlen);
    if p.low < nlen + STEP
    then [NodeItem(nlen, p.px, PrimaryLocal(p.px, CutLen(p), nlen, p.low, p.high), p.low, nlen)]
    else []
  }

  /** The nodes below the primary one, if the pattern reaches down to them. */
  function LowerItems(p: Pattern): (r: seq<Item>)
    requires Ranged(p) && !Aligned(CutLen(p))
    ensures ValidItems(r)
  {
    var slen := RoundDown(CutLen(p)) + STEP;
    if slen <= p.high then SecondaryItems(p.px, slen, Max(p.low, slen), p.high, Pow2(slen - CutLen(p)))
    else []
  }

  /** trie_add_prefix: all the nodes of one pattern, in the order they are added. */
  function PatternItems(p: Pattern): (r: seq<Item>)
    requires Ranged(p)
    ensures ValidItems(r)
  {
    if Aligned(CutLen(p)) then [NodeItem(CutLen(p), p.px, {}, p.low, p.high)]
    else PrimaryItems(p) + LowerItems(p)
  }

  /** The primary node stands for the pattern's prefixes above the secondary nodes. */
  lemma PrimaryCover(p: Pattern, a: Addr, len: nat)
    requires Ranged(p) && HostClear(p) && !Aligned(CutLen(p)) && 1 <= len <= WIDTH
    ensures AnyHits(PrimaryItems(p), a, len) <==>
            Matches(p, a, len) && len < RoundDown(CutLen(p)) + STEP
  {
    var plen := CutLen(p);
    var nlen := RoundDown(plen);
    RoomBelow(nlen);
    if p.low < nlen + STEP {
      var local := PrimaryLocal(p.px, plen, nlen, p.low, p.high);
      NodeItemHits(nlen, p.px, local, p.low, nlen, a, len);
      if nlen == RoundDown(len) && Agree(a, p.px, nlen) {
        PrimaryLocalHas(p.px, plen, nlen, p.low, p.high, a, len);
      }
      if RoundDown(len) < nlen { StepApart(RoundDown(len), nlen); }
      if nlen < RoundDown(len) { StepApart(nlen, RoundDown(len)); }
      assert AnyHits(PrimaryItems(p), a, len) == Hits(PrimaryItems(p)[0], a, len);
    }
  }

  /** The secondary nodes stand for the rest of the pattern's prefixes. */
  lemma LowerCover(p: Pattern, a: Addr, len: nat)
    requires Ranged(p) && HostClear(p) && !Aligned(CutLen(p)) && 1 <= len <= WIDTH
    ensures AnyHits(LowerItems(p), a, len) <==>
            Matches(p, a, len) && RoundDown(CutLen(p)) + STEP <= len
  {
    var slen := RoundDown(CutLen(p)) + STEP;
    if slen <= p.high {
      SecondaryCover(p.px, CutLen(p), slen, Max(p.low, slen), p.high, a, len);
      assert Matches(p, a, len) && slen <= len <==>
             Max(p.low, slen) <= len <= p.high && Agree(a, p.px, CutLen(p));
    }
  }

  /** The nodes of a pattern stand for exactly the prefixes that match it. */
  lemma PatternCover(p: Pattern, a: Addr, len: nat)
    requires Ranged(p) && HostClear(p) && 1 <= len <= WIDTH
    ensures AnyHits(PatternItems(p), a, len) <==> Matches(p, a, len)
  {
    if Aligned(CutLen(p)) {
      NodeItemHits(CutLen(p), p.px, {}, p.low, p.high, a, len);
      assert AnyHits(PatternItems(p), a, len) == Hits(PatternItems(p)[0], a, len);
    } else {
      PrimaryCover(p, a, len);
      LowerCover(p, a, len);
      AnyHitsConcat(PrimaryItems(p), LowerItems(p), a, len);
    }
  }

  // ---- Host bits ----

  /** Host bits that do not matter may as well be clear. */
  lemma SameItems(p: Pattern, q: Pattern)
    requires Ranged(p) && HostClear(p) && q == p.(px := Masked(p.px, p.plen))
    ensures PatternItems(p) == PatternItems(q)
  {
    var plen := CutLen(p);
    MaskedEqual(p.px, q.px, plen);
    if !Aligned(plen) {
      MaskedEqual(p.px, q.px, RoundDown(plen));
      SamePrimary(p, q);
      SameLower(p, q);
    }
  }

  lemma SamePrimary(p: Pattern, q: Pattern)
    requires Ranged(p) && HostClear(p) && q == p.(px := Masked(p.px, p.plen)) && !Aligned(CutLen(p))
    ensures PrimaryItems(p) == PrimaryItems(q)
  {
    var plen := CutLen(p);
    var nlen := RoundDown(plen);
    RoomBelow(nlen);
    forall i: nat | i < STEP
      ensures PrimaryLevel(p.px, plen, nlen, p.low, p.high, i) == PrimaryLevel(q.px, plen, nlen, p.low, p.high, i)
    {
      GetBitsEqual(p.px, q.px, nlen, i);
    }
    MaskedEqual(p.px, q.px, nlen);
  }

  lemma SameLower(p: Pattern, q: Pattern)
    requires Ranged(p) && HostClear(p) && q == p.(px := Masked(p.px, p.plen)) && !Aligned(CutLen(p))
    ensures LowerItems(p) == LowerItems(q)
  {
    var slen := RoundDown(CutLen(p)) + STEP;
    if slen <= p.high {
      forall i: nat | i < 16
        ensures SecondaryItem(p.px, slen, Max(p.low, slen), p.high, i) ==
                SecondaryItem(q.px, slen, Max(p.low, slen), p.high, i)
      {
        SameSecondary(p.px, q.px, slen, Max(p.low, slen), p.high, i);
      }
    }
  }

  lemma SameSecondary(a: Addr, b: Addr, slen: nat, l: nat, h: nat, i: nat)
    requires 0 < slen <= WIDTH && Aligned(slen) && h <= WIDTH && i < 16 && Agree(a, b, slen)
    ensures SecondaryItem(a, slen, l, h, i) == SecondaryItem(b, slen, l, h, i)
  {
    MaskedEqual(SetBits(a, slen - 1, i), SetBits(b, slen - 1, i), slen);
  }

  /** The pattern's own prefix at the first length below the primary node or, if it does not
      reach so far, at its upper bound. */
  function Witness(p: Pattern): (r: (Addr, nat))
    requires Ranged(p)
  {
    var slen := RoundDown(CutLen(p)) + STEP;
    (Masked(p.px, p.plen), if slen <= p.high then Max(p.low, slen) else p.high)
  }

  lemma LowerMisses(p: Pattern)
    requires Ranged(p) && p.low <= p.high && !HostClear(p) && RoundDown(CutLen(p)) + STEP <= p.high
    ensures !AnyHits(PatternItems(p), Witness(p).0, Witness(p).1)
  {
    var (a, len) := Witness(p);
    var plen := CutLen(p);
    var nlen := RoundDown(plen);
    var slen := nlen + STEP;
    var xs := LowerItems(p);
    assert Unset(a, plen, slen) && slen <= len <= WIDTH;
    forall i: nat | i < |xs| ensures !Hits(xs[i], a, len) {
      NthMisses(p.px, plen, slen, Max(p.low, slen), p.high, a, len, i);
    }
    PrimaryTooShort(p, a, len);
    AnyHitsConcat(PrimaryItems(p), xs, a, len);
  }

  /** The primary node covers nothing below its range. */
  lemma PrimaryTooShort(p: Pattern, a: Addr, len: nat)
    requires Ranged(p) && !Aligned(CutLen(p)) && RoundDown(CutLen(p)) + STEP <= len <= WIDTH
    ensures !AnyHits(PrimaryItems(p), a, len)
  {
    var nlen := RoundDown(CutLen(p));
    RoomBelow(nlen);
    if p.low < nlen + STEP {
      NodeItemHits(nlen, p.px, PrimaryLocal(p.px, CutLen(p), nlen, p.low, p.high), p.low, nlen, a, len);
    }
  }

  /** A secondary node keeps the host bits. */
  lemma NthMisses(px: Addr, plen: nat, slen: nat, l: nat, h: nat, a: Addr, len: nat, i: nat)
    requires plen < slen <= WIDTH && Aligned(slen) && slen <= l && l <= WIDTH && h <= WIDTH && i < 16
    requires !Unset(px, plen, slen) && Unset(a, plen, slen) && slen <= len <= WIDTH
    ensures !Hits(SecondaryItem(px, slen, l, h, i), a, len)
  {
    var q := SetBits(px, slen - 1, i);
    NodeItemHits(slen, q, {}, l, h, a, len);
    var j :| plen <= j < slen && px[j];
    assert q[j] && !a[j];
  }

  /** The lowest position of the prefix at length h is not filled. */
  lemma LevelMisses(px: Addr, plen: nat, nlen: nat, l: nat, h: nat, a: Addr, i: nat)
    requires nlen < plen < h < nlen + STEP <= WIDTH && l <= h && i < STEP
    requires a == Masked(px, plen) && !Unset(px, plen, h)
    ensures LocalPos(a, h, nlen) !in PrimaryLevel(px, plen, nlen, l, h, i)
  {
    var n, d, e := h - nlen, plen - nlen, h - plen;
    GetBitsSplit(a, nlen, n, d);
    ClearBits(a, plen, e);
    GetBitsEqual(a, px, nlen, d);
    var bits := GetBits(px, nlen, d);
    assert GetBits(a, nlen, n) == bits * Pow2(e);
    if nlen + i == h {
      GetBitsSplit(px, nlen, n, d);
      GetBitsEqual(a, px, plen, e);
    } else if plen < nlen + i < h {
      GetBitsSplit(px, nlen, i, d);
      LevelBelow(i, n, d, bits, GetBits(px, plen, i - d));
    }
  }

  /** A level filled from a wrong place ends below the level two and more bits behind it. */
  lemma LevelBelow(i: nat, n: nat, d: nat, bits: nat, host: nat)
    requires 1 <= d < i < n < STEP && bits < Pow2(d) && host < Pow2(i - d)
    ensures Pow2(i) + bits * Pow2(i - d) + host + Pow2(i - d) <= Pow2(n) + bits * Pow2(n - d)
  {
    assert d == 1 && i == 2 && n == 3;
  }

  lemma PrimaryMisses(p: Pattern)
    requires Ranged(p) && p.low <= p.high && !HostClear(p) && p.high < RoundDown(CutLen(p)) + STEP
    ensures !AnyHits(PatternItems(p), Witness(p).0, Witness(p).1)
  {
    var (a, len) := Witness(p);
    var plen := CutLen(p);
    var nlen := RoundDown(plen);
    RoomBelow(nlen);
    var local := PrimaryLocal(p.px, plen, nlen, p.low, p.high);
    NodeItemHits(nlen, p.px, local, p.low, nlen, a, len);
    forall i: nat | i < STEP
      ensures LocalPos(a, len, nlen) !in PrimaryLevel(p.px, plen, nlen, p.low, p.high, i)
    {
      LevelMisses(p.px, plen, nlen, p.low, p.high, a, i);
    }
    assert PatternItems(p) == [PrimaryItems(p)[0]];
  }

  /** A pattern of no length has nodes that cover nothing. */
  lemma NothingCovered(p: Pattern, a: Addr, len: nat)
    requires Ranged(p) && p.low > p.high && 1 <= len <= WIDTH
    ensures !AnyHits(PatternItems(p), a, len)
  {
    var xs := PatternItems(p);
    var plen := CutLen(p);
    var nlen := RoundDown(plen);
    var slen := nlen + STEP;
    if Aligned(plen) {
      NodeItemHits(plen, p.px, {}, p.low, p.high, a, len);
    } else {
      RoomBelow(nlen);
      NodeItemHits(nlen, p.px, PrimaryLocal(p.px, plen, nlen, p.low, p.high), p.low, nlen, a, len);
      if slen <= p.high {
        var ys := LowerItems(p);
        forall i: nat | i < |ys| ensures !Hits(ys[i], a, len) {
          NodeItemHits(slen, SetBits(p.px, slen - 1, i), {}, Max(p.low, slen), p.high, a, len);
        }
      }
      AnyHitsConcat(PrimaryItems(p), LowerItems(p), a, len);
    }
  }

  /** The nodes of a pattern stand for its prefixes iff no host bit within reach of them is set. */
  lemma HostBitsIff(p: Pattern)
    requires Ranged(p)
    ensures (forall a: Addr, len: nat :: 1 <= len <= WIDTH ==>
               (AnyHits(PatternItems(p), a, len) <==> Matches(p, a, len))) <==>
            p.low > p.high || HostClear(p)
  {
    if p.low > p.high {
      forall a: Addr, len: nat | 1 <= len <= WIDTH ensures !AnyHits(PatternItems(p), a, len) {
        NothingCovered(p, a, len);
      }
    } else if HostClear(p) {
      forall a: Addr, len: nat | 1 <= len <= WIDTH
        ensures AnyHits(PatternItems(p), a, len) <==> Matches(p, a, len)
      {
        PatternCover(p, a, len);
      }
    } else {
      var (a, len) := Witness(p);
      assert Matches(p, a, len);
      if RoundDown(CutLen(p)) + STEP <= p.high {
        LowerMisses(p);
      } else {
        PrimaryMisses(p);
      }
    }
  }

  /** 64.0.0.0/1{1,2}: the prefix 0.0.0.0/2 belongs to the pattern and is not covered. */
  lemma HostBitsExample(px: Addr)
    requires !px[0] && px[1]
    ensures var p := Pattern(px, 1, 1, 2);
            Matches(p, Masked(px, 1), 2) && !AnyHits(PatternItems(p), Masked(px, 1), 2)
  {
    PrimaryMisses(Pattern(px, 1, 1, 2));
  }

  /** Adding a pattern adds exactly the prefixes that match it. */
  lemma AddPatternMatch(p: Pattern, t: Tree, a: Addr, len: nat)
    requires ValidPattern(p) && Valid(t) && 1 <= len <= WIDTH
    ensures Match(InsertAll(PatternItems(p), t), a, len) <==> Match(t, a, len) || Matches(p, a, len)
  {
    PatternCover(p, a, len);
    InsertAllMatch(PatternItems(p), t, a, len);
  }

  // ---- Sets of patterns ----

  /** The prefix set defined by a set of patterns. */
  ghost predicate InSet(ps: set<Pattern>, a: Addr, len: nat)
    requires len <= WIDTH && forall p :: p in ps ==> ValidPattern(p)
  {
    exists p :: p in ps && Matches(p, a, len)
  }

  /** The trie accepts exactly the prefix set of the patterns. */
  ghost predicate Denotes(t: Tree, ps: set<Pattern>)
    requires Valid(t) && forall p :: p in ps ==> ValidPattern(p)
  {
    forall a: Addr, len: nat :: 1 <= len <= WIDTH ==> (Match(t, a, len) <==> InSet(ps, a, len))
  }

  lemma EmptyDenotes(t: Tree)
    requires t.Node? && t == Node(0, t.addr, {}, {}, NoChildren()) && Valid(t)
    ensures Denotes(t, {})
  {
    forall a: Addr, len: nat | 1 <= len <= WIDTH ensures !Match(t, a, len) {}
  }

  lemma DenotesMore(t: Tree, ps: set<Pattern>, p: Pattern)
    requires Valid(t) && ValidPattern(p) && forall q :: q in ps ==> ValidPattern(q)
    requires Denotes(t, ps)
    ensures Denotes(InsertAll(PatternItems(p), t), ps + {p})
  {
    forall a: Addr, len: nat | 1 <= len <= WIDTH
      ensures Match(InsertAll(PatternItems(p), t), a, len) <==> InSet(ps + {p}, a, len)
    {
      AddPatternMatch(p, t, a, len);
    }
  }
}
