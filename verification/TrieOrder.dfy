/** What the walk lists: on a trie of explicit prefixes exactly the stored ones,
    each once, in lexicographic order.
 */
module TrieOrder {
  import opened Prefix
  import opened TrieTree
  import opened TriePattern
  import opened TrieExplicit
  import opened TrieLongest
  import opened TrieWalk
  import opened Trie

  /** Lexicographic order of prefixes: a prefix comes before its extensions, and
      a zero bit before a one bit. */
  ghost predicate Less(x: Out, y: Out) {
    exists i: nat :: LessAt(x, y, i)
  }

  ghost predicate LessAt(x: Out, y: Out, i: nat) {
    && i <= x.len <= WIDTH && i < y.len <= WIDTH && Agree(x.px, y.px, i)
    && (i < x.len ==> !x.px[i] && y.px[i])
  }

  ghost predicate Sorted(s: seq<Out>) {
    forall i, j :: 0 <= i < j < |s| ==> Less(s[i], s[j])
  }

  ghost predicate Normal(o: Out) {
    o.len <= WIDTH && Clear(o.px, o.len)
  }

  /** Number of bits a position adds to its node. */
  function Bits(pos: nat): (r: nat)
    requires 1 <= pos < 32
    ensures r <= STEP && Pow2(r) <= pos < 2 * Pow2(r)
  {
    if pos >= 16 then 4 else Level(pos)
  }

  /** o is the prefix at position pos of the node, or lies under it. */
  ghost predicate At(plen: nat, addr: Addr, pos: nat, o: Out)
    requires 1 <= pos < 32
  {
    && plen + Bits(pos) <= o.len <= WIDTH && Agree(o.px, addr, plen)
    && Pow2(Bits(pos)) + GetBits(o.px, plen, Bits(pos)) == pos
  }

  /** The positions under pos. */
  lemma AtSplit(plen: nat, addr: Addr, pos: nat, o: Out)
    requires 1 <= pos < 16
    ensures At(plen, addr, 2 * pos, o) || At(plen, addr, 2 * pos + 1, o) <==>
            At(plen, addr, pos, o) && o.len > plen + Bits(pos)
    ensures At(plen, addr, 2 * pos, o) ==> !o.px[plen + Bits(pos)]
    ensures At(plen, addr, 2 * pos + 1, o) ==> o.px[plen + Bits(pos)]
  {
    var b := Bits(pos);
    assert Bits(2 * pos) == b + 1 && Bits(2 * pos + 1) == b + 1;
    assert Pow2(b + 1) == 2 * Pow2(b);
  }

  /** Two prefixes at the same position agree on its bits. */
  lemma AtAgree(plen: nat, addr: Addr, pos: nat, o: Out, r: Out)
    requires 1 <= pos < 32 && At(plen, addr, pos, o) && At(plen, addr, pos, r)
    ensures Agree(o.px, r.px, plen + Bits(pos))
  {
    GetBitsEqual(o.px, r.px, plen, Bits(pos));
  }

  /** The prefix the walk returns for a local position. */
  lemma LocalOutIs(plen: nat, addr: Addr, pos: nat, o: Out)
    requires 1 <= pos < 16 && plen <= WIDTH && (pos == 1 || plen + STEP <= WIDTH) && Clear(addr, plen)
    ensures o == LocalOut(plen, addr, pos) <==> Normal(o) && At(plen, addr, pos, o) && o.len == plen + Bits(pos)
  {
    var b := Bits(pos);
    var x := LocalOut(plen, addr, pos);
    if b > 0 {
      SetBitsGet(addr, plen, b, pos - Pow2(b));
    }
    assert Normal(x) && At(plen, addr, pos, x) && x.len == plen + b;
    if Normal(o) && At(plen, addr, pos, o) && o.len == plen + b {
      AtAgree(plen, addr, pos, o, x);
      assert o.px == x.px;
    }
  }

  /** The prefixes the walk should find at a position. */
  ghost predicate Found(t: Tree, pos: nat, o: Out)
    requires t.Node? && Valid(t) && 1 <= pos < 32
  {
    Normal(o) && At(t.plen, t.addr, pos, o) && Stored(t, o.px, o.len)
  }

  lemma {:induction false} NoneAccepted(t: Tree, len: nat, rest: seq<Out>)
    requires t.Node? && Valid(t) && ExplicitNode(t)
    ensures Accepted(t, len, rest) == rest
    decreases t.plen - len
  {
    if len < t.plen {
      NoneAccepted(t, len + 1, rest);
    }
  }

  /** At a child slot: what is stored there is stored in the child. */
  lemma FoundChild(t: Tree, pos: nat, o: Out)
    requires t.Node? && Valid(t) && 16 <= pos < 32
    ensures Found(t, pos, o) <==> t.c[pos - 16].Node? && Found(t.c[pos - 16], 1, o)
  {
    var child := t.c[pos - 16];
    assert ValidChild(t, pos - 16, child) && Valid(child);
    if Found(t, pos, o) {
      assert Stored(child, o.px, o.len);
      assert At(child.plen, child.addr, 1, o);
    }
    if child.Node? && Found(child, 1, o) {
      SlotAgree(o.px, child.addr, t.plen);
      assert At(t.plen, t.addr, pos, o);
      assert t.plen < RoundDown(o.len);
    }
  }

  /** At a local position: the prefix itself, or something under it. */
  lemma FoundLocal(t: Tree, pos: nat, o: Out)
    requires t.Node? && Valid(t) && 1 <= pos < 16
    ensures Found(t, pos, o) <==>
            || (pos in t.local && (pos == 1 || t.plen + STEP <= WIDTH) && o == LocalOut(t.plen, t.addr, pos))
            || Found(t, 2 * pos, o) || Found(t, 2 * pos + 1, o)
  {
    RoomIf(t);
    AtSplit(t.plen, t.addr, pos, o);
    if pos == 1 || t.plen + STEP <= WIDTH {
      LocalOutIs(t.plen, t.addr, pos, o);
      if o == LocalOut(t.plen, t.addr, pos) {
        InRange(o.len, t.plen);
        assert LocalPos(o.px, o.len, t.plen) == pos;
      }
    }
  }

  /** The walk lists exactly what is stored at and under a position. */
  lemma {:induction false} UnderHas(t: Tree, pos: nat, rest: seq<Out>, o: Out)
    requires t.Node? && Valid(t) && Explicit(t) && 1 <= pos < 32
    ensures o in Under(t, pos, rest) <==> o in rest || Found(t, pos, o)
    decreases t, 32 - pos
  {
    if pos >= 16 {
      FoundChild(t, pos, o);
      var child := t.c[pos - 16];
      if child.Node? {
        NoneAccepted(child, t.plen + STEP, Under(child, 1, rest));
        UnderHas(child, 1, rest, o);
      }
    } else {
      var right := Under(t, 2 * pos + 1, rest);
      UnderHas(t, 2 * pos + 1, rest, o);
      UnderHas(t, 2 * pos, right, o);
      FoundLocal(t, pos, o);
      RoomIf(t);
    }
  }

  /** Everything at and under the position comes before the rest. */
  ghost predicate Before(plen: nat, addr: Addr, pos: nat, rest: seq<Out>)
    requires 1 <= pos < 32
  {
    forall o, r :: At(plen, addr, pos, o) && r in rest ==> Less(o, r)
  }

  lemma BitLess(x: Out, y: Out, i: nat)
    requires LessAt(x, y, i)
    ensures Less(x, y)
  {}

  /** What follows the position also follows its two halves, and the right half
      follows the left one. */
  lemma BeforeSplit(t: Tree, pos: nat, rest: seq<Out>)
    requires t.Node? && Valid(t) && Explicit(t) && 1 <= pos < 16 && Before(t.plen, t.addr, pos, rest)
    ensures Before(t.plen, t.addr, 2 * pos + 1, rest)
    ensures Before(t.plen, t.addr, 2 * pos, Under(t, 2 * pos + 1, rest))
  {
    var right := Under(t, 2 * pos + 1, rest);
    forall o | At(t.plen, t.addr, 2 * pos + 1, o) ensures At(t.plen, t.addr, pos, o) {
      AtSplit(t.plen, t.addr, pos, o);
    }
    forall o, r | At(t.plen, t.addr, 2 * pos, o) && r in right ensures Less(o, r) {
      AtSplit(t.plen, t.addr, pos, o);
      UnderHas(t, 2 * pos + 1, rest, r);
      if r !in rest {
        AtSplit(t.plen, t.addr, pos, r);
        AtAgree(t.plen, t.addr, pos, o, r);
        BitLess(o, r, t.plen + Bits(pos));
      }
    }
  }

  /** The prefix of a position comes before all that is under it. */
  lemma HereFirst(t: Tree, pos: nat, rest: seq<Out>, r: Out)
    requires t.Node? && Valid(t) && 1 <= pos < 16 && Before(t.plen, t.addr, pos, rest)
    requires pos == 1 || t.plen + STEP <= WIDTH
    requires r in rest || Found(t, 2 * pos, r) || Found(t, 2 * pos + 1, r)
    ensures Less(LocalOut(t.plen, t.addr, pos), r)
  {
    var x := LocalOut(t.plen, t.addr, pos);
    LocalOutIs(t.plen, t.addr, pos, x);
    if r !in rest {
      AtSplit(t.plen, t.addr, pos, r);
      AtAgree(t.plen, t.addr, pos, x, r);
      BitLess(x, r, t.plen + Bits(pos));
    }
  }

  lemma SortedCons(x: Out, s: seq<Out>)
    requires Sorted(s) && forall r :: r in s ==> Less(x, r)
    ensures Sorted([x] + s)
  {}

  /** The list is sorted. */
  lemma {:induction false} UnderSorted(t: Tree, pos: nat, rest: seq<Out>)
    requires t.Node? && Valid(t) && Explicit(t) && 1 <= pos < 32
    requires Sorted(rest) && Before(t.plen, t.addr, pos, rest)
    ensures Sorted(Under(t, pos, rest))
    decreases t, 32 - pos
  {
    if pos >= 16 {
      var child := t.c[pos - 16];
      if child.Node? {
        assert ValidChild(t, pos - 16, child);
        forall o | At(child.plen, child.addr, 1, o) ensures At(t.plen, t.addr, pos, o) {
          SlotAgree(o.px, child.addr, t.plen);
        }
        UnderSorted(child, 1, rest);
        NoneAccepted(child, t.plen + STEP, Under(child, 1, rest));
      }
    } else {
      BeforeSplit(t, pos, rest);
      var right := Under(t, 2 * pos + 1, rest);
      UnderSorted(t, 2 * pos + 1, rest);
      UnderSorted(t, 2 * pos, right);
      if pos in t.local {
        RoomIf(t);
        var all := Under(t, 2 * pos, right);
        forall r | r in all ensures Less(LocalOut(t.plen, t.addr, pos), r) {
          UnderHas(t, 2 * pos, right, r);
          UnderHas(t, 2 * pos + 1, rest, r);
          HereFirst(t, pos, rest, r);
        }
        SortedCons(LocalOut(t.plen, t.addr, pos), all);
      }
    }
  }

  // ---- The walk restricted to a subnet ----

  /** The stored prefixes that are subnets of a/pxlen. */
  ghost predicate Subnet(t: Tree, a: Addr, pxlen: nat, o: Out)
    requires Valid(t) && pxlen <= WIDTH
  {
    Normal(o) && pxlen <= o.len && Agree(o.px, a, pxlen) && Stored(t, o.px, o.len)
  }

  lemma StartNodeHas(t: Tree, a: Addr, pxlen: nat, o: Out)
    requires t.Node? && Valid(t) && Explicit(t) && pxlen <= WIDTH && t.plen == RoundDown(pxlen)
    requires Agree(a, t.addr, Min(pxlen, t.plen))
    ensures o in SubWalk(t, a, pxlen) <==> Subnet(t, a, pxlen, o)
  {
    var pos := LocalPos(a, pxlen, t.plen);
    UnderHas(t, pos, [], o);
    if pxlen <= o.len <= WIDTH {
      GetBitsEqual(o.px, a, t.plen, pxlen - t.plen);
    }
  }

  lemma LowerNodeHas(t: Tree, a: Addr, pxlen: nat, o: Out)
    requires t.Node? && Valid(t) && Explicit(t) && pxlen <= WIDTH && t.plen > RoundDown(pxlen)
    requires Agree(a, t.addr, Min(pxlen, t.plen))
    ensures o in SubWalk(t, a, pxlen) <==> Subnet(t, a, pxlen, o)
  {
    StepApart(RoundDown(pxlen), t.plen);
    NoneAccepted(t, pxlen, Under(t, 1, []));
    UnderHas(t, 1, [], o);
  }

  lemma {:induction false} SubWalkHas(t: Tree, a: Addr, pxlen: nat, o: Out)
    requires Valid(t) && Explicit(t) && pxlen <= WIDTH
    ensures o in SubWalk(t, a, pxlen) <==> Subnet(t, a, pxlen, o)
    decreases t
  {
    if t.Nil? {
    } else if !Agree(a, t.addr, Min(pxlen, t.plen)) {
    } else if t.plen == RoundDown(pxlen) {
      StartNodeHas(t, a, pxlen, o);
    } else if t.plen > RoundDown(pxlen) {
      LowerNodeHas(t, a, pxlen, o);
    } else {
      StepApart(t.plen, RoundDown(pxlen));
      var k := GetBits(a, t.plen, STEP);
      SubWalkHas(t.c[k], a, pxlen, o);
      assert ValidChild(t, k, t.c[k]);
      SlotAgree(o.px, a, t.plen);
    }
  }

  lemma {:induction false} SubWalkSorted(t: Tree, a: Addr, pxlen: nat)
    requires Valid(t) && Explicit(t) && pxlen <= WIDTH
    ensures Sorted(SubWalk(t, a, pxlen))
    decreases t
  {
    if t.Nil? {
    } else if !Agree(a, t.addr, Min(pxlen, t.plen)) {
    } else if t.plen == RoundDown(pxlen) {
      UnderSorted(t, LocalPos(a, pxlen, t.plen), []);
    } else if t.plen > RoundDown(pxlen) {
      NoneAccepted(t, pxlen, Under(t, 1, []));
      UnderSorted(t, 1, []);
    } else {
      StepApart(t.plen, RoundDown(pxlen));
      SubWalkSorted(t.c[GetBits(a, t.plen, STEP)], a, pxlen);
    }
  }

  /** The stored subnets of px/pxlen, as patterns. */
  ghost predicate SubnetIn(ps: set<Pattern>, px: Addr, pxlen: nat, o: Out)
    requires pxlen <= WIDTH
  {
    Normal(o) && pxlen <= o.len && Agree(o.px, px, pxlen) && Pattern(o.px, o.len, o.len, o.len) in ps
  }

  lemma SubWalkIs(t: Tree, ps: set<Pattern>, px: Addr, pxlen: nat, o: Out)
    requires Valid(t) && Explicit(t) && AllExplicit(ps) && StoresAll(t, ps) && pxlen <= WIDTH
    ensures o in SubWalk(t, px, pxlen) <==> SubnetIn(ps, px, pxlen, o)
  {
    SubWalkHas(t, px, pxlen, o);
    if Normal(o) {
      InSetIff(ps, Pattern(o.px, o.len, o.len, o.len));
    }
  }

  /** Call trie_walk_next until it returns 0. */
  method Collect(t: PrefixTrie, px: Addr, pxlen: nat) returns (outs: seq<Out>)
    requires t.Shape() && pxlen <= WIDTH
    ensures outs == SubWalk(t.root.tree, px, pxlen)
  {
    var s := new WalkState.In(t, px, pxlen);
    outs := Rest(s, []);
  }

  /** Call trie_walk_next until it fails. */
  method Rest(s: WalkState, outs: seq<Out>) returns (all: seq<Out>)
    requires s.trie.Shape() && s.Valid()
    modifies s
    ensures all == outs + old(s.ahead)
    decreases |s.ahead|
  {
    var ok, o := s.Next();
    if !ok {
      return outs;
    }
    all := Rest(s, outs + [o]);
  }

  /** TRIE_WALK: all subnets of a network in a trie of explicit prefixes, each
      once and in lexicographic order. */
  method Walk(t: PrefixTrie, px: Addr, pxlen: nat) returns (outs: seq<Out>)
    requires t.Valid() && AllExplicit(t.patterns) && pxlen <= WIDTH
    ensures Sorted(outs)
    ensures forall o :: o in outs <==> SubnetIn(t.patterns, px, pxlen, o)
  {
    outs := Collect(t, px, pxlen);
    SubWalkSorted(t.root.tree, px, pxlen);
    forall o ensures o in outs <==> SubnetIn(t.patterns, px, pxlen, o) {
      SubWalkIs(t.root.tree, t.patterns, px, pxlen, o);
    }
  }

  /** In a sorted list no prefix is listed twice. */
  lemma SortedOnce(s: seq<Out>, i: nat, j: nat)
    requires Sorted(s) && i < j < |s|
    ensures s[i] != s[j]
  {
    var k: nat :| LessAt(s[i], s[j], k);
  }
}
