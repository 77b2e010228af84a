/** When a longest-prefix match runs past its query, in terms of the prefixes the
    trie holds rather than of its nodes.
 */
module TrieOverrun {
  import opened Prefix
  import opened TrieTree
  import opened TriePattern
  import opened TrieExplicit
  import opened Trie
  import opened TrieLongest
  import opened TrieWalk
  import opened TrieOrder

  /** The address that differs from a in its last bit. */
  function Sibling(a: Addr, w: nat): Addr
    requires 1 <= w <= WIDTH
  {
    a[w - 1 := !a[w - 1]]
  }

  /** No prefix but h/w is stored in the range of the node that could hold it. */
  ghost predicate Alone(t: Tree, h: Addr, w: nat)
    requires Valid(t) && STEP <= w <= WIDTH
  {
    forall b: Addr, l: nat ::
      w - STEP <= l <= w && Agree(b, h, w - STEP) && Stored(t, b, l) ==> l == w && Agree(b, h, w)
  }

  ghost predicate Short(t: Tree, w: nat)
    requires Valid(t)
  {
    forall b: Addr, l: nat :: l <= WIDTH && Stored(t, b, l) ==> l <= w
  }

  lemma StoredUp(n: Tree, k: nat, b: Addr, l: nat)
    requires n.Node? && Valid(n) && k < 16 && l <= WIDTH && Stored(n.c[k], b, l)
    ensures Stored(n, b, l)
  {
    assert ValidChild(n, k, n.c[k]);
    GetBitsEqual(b, n.c[k].addr, n.plen, STEP);
  }

  lemma ChildShort(n: Tree, k: nat, w: nat)
    requires n.Node? && Valid(n) && k < 16 && Short(n, w)
    ensures Short(n.c[k], w)
  {
    forall b: Addr, l: nat | l <= WIDTH && Stored(n.c[k], b, l) ensures l <= w {
      StoredUp(n, k, b, l);
    }
  }

  /** Every local position stands for a stored prefix. */
  lemma LocalStored(n: Tree, pos: nat) returns (o: Out)
    requires n.Node? && Valid(n) && pos in n.local
    ensures 1 <= pos < 16 && o.len == n.plen + Bits(pos) <= WIDTH
    ensures Agree(o.px, n.addr, n.plen) && Stored(n, o.px, o.len)
  {
    RoomIf(n);
    o := LocalOut(n.plen, n.addr, pos);
    FoundLocal(n, pos, o);
    LocalOutIs(n.plen, n.addr, pos, o);
  }

  /** A node of full length stores its own prefix. */
  lemma HostStored(n: Tree, w: nat)
    requires n.Node? && Valid(n) && Compressed(n) && Fits(n, w) && Short(n, w)
    requires STEP <= w <= WIDTH && n.plen == w
    ensures Stored(n, n.addr, w)
  {
    forall k | 0 <= k < 16 ensures n.c[k].Nil? {
      assert ValidChild(n, k, n.c[k]) && Fits(n.c[k], w);
    }
    var pos :| pos in n.local;
    var o := LocalStored(n, pos);
    InRange(w, w);
  }

  /** A node just above the hosts holds something besides any one host. */
  lemma NotAlone(n: Tree, h: Addr, w: nat)
    requires n.Node? && Valid(n) && Compressed(n) && Fits(n, w) && Short(n, w)
    requires STEP < w <= WIDTH && Aligned(w) && n.plen == w - STEP && Agree(h, n.addr, n.plen)
    ensures !Alone(n, h, w)
  {
    if n.local != {} {
      var pos :| pos in n.local;
      var o := LocalStored(n, pos);
      assert o.len < w;
    } else {
      var j, k :| 0 <= j < k < 16 && n.c[j].Node? && n.c[k].Node?;
      ChildHost(n, j, w);
      ChildHost(n, k, w);
      GetBitsEqual(n.c[j].addr, n.c[k].addr, n.plen, STEP);
    }
  }

  lemma ChildHost(n: Tree, k: nat, w: nat)
    requires n.Node? && Valid(n) && Compressed(n) && Fits(n, w) && Short(n, w)
    requires STEP < w <= WIDTH && n.plen == w - STEP && k < 16 && n.c[k].Node?
    ensures n.c[k].plen == w && InSlot(n.plen, n.addr, k, n.c[k]) && Stored(n, n.c[k].addr, w)
  {
    assert ValidChild(n, k, n.c[k]) && Fits(n.c[k], w);
    ChildShort(n, k, w);
    HostStored(n.c[k], w);
    StoredUp(n, k, n.c[k].addr, w);
  }

  ghost predicate EndsInHost(t: Tree, a: Addr, w: nat)
    requires Valid(t) && STEP <= w <= WIDTH
  {
    Stored(t, a, w) || (Stored(t, Sibling(a, w), w) && Alone(t, Sibling(a, w), w))
  }

  lemma HostNode(n: Tree, a: Addr, w: nat)
    requires n.Node? && Valid(n) && STEP < w <= WIDTH && Aligned(w) && n.plen == w
    ensures HostEnd(n, a, w) <==> EndsInHost(n, a, w)
  {
    InRange(w, w);
  }

  lemma LastNode(n: Tree, a: Addr, w: nat)
    requires n.Node? && Valid(n) && Compressed(n) && Fits(n, w) && Short(n, w)
    requires STEP < w <= WIDTH && Aligned(w) && n.plen == w - STEP && Agree(a, n.addr, n.plen)
    ensures HostEnd(n, a, w) <==> EndsInHost(n, a, w)
  {
    NotAlone(n, Sibling(a, w), w);
    var k := GetBits(a, n.plen, STEP);
    InRange(w, w);
    assert HostEnd(n, a, w) <==> HostEnd(n.c[k], a, w);
    assert Stored(n, a, w) <==> Stored(n.c[k], a, w);
    if n.c[k].Node? {
      ChildHost(n, k, w);
      GetBitsEqual(a, n.c[k].addr, n.plen, STEP);
      HostNode(n.c[k], a, w);
      assert Agree(a, n.c[k].addr, w);
    }
  }

  /** Above the last node all its prefixes go the same way. */
  lemma SameWay(n: Tree, a: Addr, w: nat, b: Addr, l: nat)
    requires n.Node? && Valid(n) && STEP < w <= WIDTH && Aligned(w) && n.plen + STEP <= w - STEP
    requires Agree(a, n.addr, n.plen) && w - STEP <= l <= w && Agree(b, a, w - STEP)
    ensures Stored(n, b, l) <==> Stored(n.c[GetBits(a, n.plen, STEP)], b, l)
  {
    InRange(l, if l == w then w else w - STEP);
    GetBitsEqual(a, b, n.plen, STEP);
  }

  lemma PassedNode(n: Tree, a: Addr, w: nat)
    requires n.Node? && Valid(n) && STEP < w <= WIDTH && Aligned(w) && n.plen + STEP <= w - STEP
    requires Agree(a, n.addr, n.plen)
    ensures EndsInHost(n, a, w) <==> EndsInHost(n.c[GetBits(a, n.plen, STEP)], a, w)
  {
    var k, h := GetBits(a, n.plen, STEP), Sibling(a, w);
    SameWay(n, a, w, a, w);
    SameWay(n, a, w, h, w);
    assert Alone(n, h, w) <==> Alone(n.c[k], h, w) by {
      forall b: Addr, l: nat | w - STEP <= l <= w && Agree(b, h, w - STEP)
        ensures Stored(n, b, l) <==> Stored(n.c[k], b, l)
      {
        SameWay(n, a, w, b, l);
      }
    }
  }

  lemma {:induction false} HostEndIff(n: Tree, a: Addr, w: nat)
    requires Valid(n) && Compressed(n) && Fits(n, w) && Short(n, w)
    requires STEP < w <= WIDTH && Aligned(w)
    ensures HostEnd(n, a, w) <==> EndsInHost(n, a, w)
    decreases n
  {
    if n.Node? && n.plen < w {
      StepApart(n.plen, w);
      if Agree(a, n.addr, n.plen) {
        if n.plen == w - STEP {
          LastNode(n, a, w);
        } else {
          StepApart(n.plen, w - STEP);
          var k := GetBits(a, n.plen, STEP);
          ChildShort(n, k, w);
          HostEndIff(n.c[k], a, w);
          PassedNode(n, a, w);
        }
      }
    } else if n.Node? {
      HostNode(n, a, w);
    }
  }

  /** Overrunning depends on the prefixes held only: the query is one bit shorter
      than an address, and either its first host is held, or its second one is
      and no other prefix within the same four bits. */
  ghost predicate Exposed(ps: set<Pattern>, net: Net)
    requires ValidNet(net)
  {
    var w := MaxLen(net.v4);
    && net.plen + 1 == w
    && (|| Pattern(net.px, w, w, w) in ps
        || (&& Pattern(Sibling(net.px, w), w, w, w) in ps
            && forall p :: p in ps && p.plen >= w - STEP && Agree(p.px, net.px, w - STEP) ==>
                             p == Pattern(Sibling(net.px, w), w, w, w)))
  }

  lemma AloneIff(t: Tree, ps: set<Pattern>, h: Addr, w: nat)
    requires Valid(t) && AllExplicit(ps) && StoresAll(t, ps) && STEP <= w <= WIDTH && Clear(h, w)
    requires forall p :: p in ps ==> p.plen <= w
    ensures Alone(t, h, w) <==>
            forall p :: p in ps && p.plen >= w - STEP && Agree(p.px, h, w - STEP) ==> p == Pattern(h, w, w, w)
  {
    if Alone(t, h, w) {
      forall p | p in ps && p.plen >= w - STEP && Agree(p.px, h, w - STEP) ensures p == Pattern(h, w, w, w) {
        InSetIff(ps, p);
        assert Stored(t, p.px, p.plen);
        assert p.px == h;
      }
    }
  }

  lemma OverrunIff(t: PrefixTrie, net: Net)
    requires t.Valid() && AllExplicit(t.patterns) && ValidNet(net)
    requires if net.v4 then t.family != V6 else t.family == V6
    ensures Overrun(t.root.tree, net.px, net.plen, MaxLen(net.v4)) <==> Exposed(t.patterns, net)
  {
    var w, tree := MaxLen(net.v4), t.root.tree;
    if net.plen + 1 == w {
      FitsWidth(tree);
      HostEndIff(tree, net.px, w);
      AloneIff(tree, t.patterns, Sibling(net.px, w), w);
      InSetIff(t.patterns, Pattern(net.px, w, w, w));
      InSetIff(t.patterns, Pattern(Sibling(net.px, w), w, w, w));
    }
  }
}
