/** The prefix-set trie as linked nodes updated in place (filter/trie.c).

    Every node carries, as ghost state, the `Tree` below it and its place in its
    parent.  trie_add_node is a loop that walks down, updating nodes on its way;
    it sets the ghost tree of a node to its final value as soon as it passes the
    node, so that only the link it is about to follow is out of date.
 */
module Trie {
  import opened Prefix
  import opened TrieTree
  import opened TriePattern
  import opened TrieExplicit

  class TrieNode {
    const plen: nat
    const addr: Addr
    var accept: set<nat>
    var local: set<nat>
    var c: seq<TrieNode?>

    ghost var tree: Tree
    ghost var parent: TrieNode?
    ghost var slot: nat

    /** new_node: a node without children. */
    constructor (plen: nat, local: set<nat>, addr: Addr, accept: set<nat>)
      ensures this.plen == plen && this.addr == addr && this.accept == accept && this.local == local
      ensures c == seq(16, i => null)
      ensures tree == Node(plen, addr, accept, local, NoChildren()) && parent == null
    {
      this.plen, this.addr, this.accept, this.local := plen, addr, accept, local;
      c := seq(16, i => null);
      tree := Node(plen, addr, accept, local, NoChildren());
      parent := null;
    }

    /** The ghost tree shows the node's own fields. */
    ghost predicate Mirrors()
      reads this
    {
      |c| == 16 && tree.Node? && |tree.c| == 16 && tree == Node(plen, addr, accept, local, tree.c)
    }

    /** The ghost tree shows the child in slot k, and the child knows its place. */
    ghost predicate Links(k: nat)
      requires k < 16 && Mirrors()
      reads this, c
    {
      if c[k] == null then tree.c[k] == Nil
      else c[k].parent == this && c[k].slot == k && c[k].tree == tree.c[k]
    }
  }

  ghost function TreeOf(n: TrieNode?): Tree
    reads n
  {
    if n == null then Nil else n.tree
  }

  /** All links hold, except possibly the one in slot k of the node o. */
  ghost predicate LinkedBut(nodes: set<TrieNode>, o: TrieNode?, k: nat)
    reads nodes
  {
    && (forall m :: m in nodes ==> m.Mirrors())
    && (forall m, j :: m in nodes && 0 <= j < 16 && m.c[j] != null ==> m.c[j] in nodes)
    && (forall m, j :: m in nodes && 0 <= j < 16 && !(m == o && j == k) ==> m.Links(j))
  }

  /** A tree of linked nodes below a root of length zero. */
  ghost predicate ShapeOf(root: TrieNode, nodes: set<TrieNode>)
    reads nodes
  {
    && root in nodes && LinkedBut(nodes, null, 0)
    && root.parent == null && root.plen == 0 && Valid(root.tree)
  }

  /** Once the pending link shows its child, all links hold. */
  lemma Settle(nodes: set<TrieNode>, o: TrieNode, k: nat)
    requires o in nodes && k < 16 && LinkedBut(nodes, o, k) && o.Links(k)
    ensures LinkedBut(nodes, null, 0)
  {}

  /** trie_amask_to_local */
  method AmaskToLocalMask(px: Addr, amask: set<nat>, nlen: nat) returns (local: set<nat>)
    requires nlen + STEP <= WIDTH
    ensures local == AmaskToLocal(px, amask, nlen)
  {
    local := {};
    var plen := Max(nlen, 1);
    while plen < nlen + STEP
      invariant Max(nlen, 1) <= plen <= nlen + STEP
      invariant local == (if nlen < plen then LocalOf(px, amask, nlen, nlen) else {}) +
                         (if nlen + 1 < plen then LocalOf(px, amask, nlen + 1, nlen) else {}) +
                         (if nlen + 2 < plen then LocalOf(px, amask, nlen + 2, nlen) else {}) +
                         (if nlen + 3 < plen then LocalOf(px, amask, nlen + 3, nlen) else {})
    {
      if plen - 1 in amask {
        local := local + {LocalPos(px, plen, nlen)};
      }
      plen := plen + 1;
    }
  }

  /** trie_level_mask */
  function LevelMask(pos: nat, level: nat): set<nat>
    requires level <= STEP
  {
    Ones(pos * Pow2(level), pos * Pow2(level) + Pow2(level))
  }

  /** The local bits trie_add_node adds for the lengths plen..plen+3 within l..h. */
  method FillLevels(plen: nat, l: nat, h: nat) returns (local: set<nat>)
    ensures local == Levels(plen, l, h)
  {
    local := {};
    var i := 0;
    while i < STEP
      invariant 0 <= i <= STEP
      invariant local == (if 0 < i then LevelOf(plen, l, h, 0) else {}) +
                         (if 1 < i then LevelOf(plen, l, h, 1) else {}) +
                         (if 2 < i then LevelOf(plen, l, h, 2) else {}) +
                         (if 3 < i then LevelOf(plen, l, h, 3) else {})
    {
      if l <= plen + i <= h {
        assert LevelMask(1, i) == LevelOf(plen, l, h, i);
        local := local + LevelMask(1, i);
      }
      i := i + 1;
    }
  }

  /** Address family of a trie; a new trie has none yet. */
  datatype Family = Unset | V4 | V6

  /** A network: IPv4 (also VPN4, ROA4) or IPv6 (also VPN6, ROA6). */
  datatype Net = Net(v4: bool, px: Addr, plen: nat)

  /** IP4_MAX_PREFIX_LENGTH, IP6_MAX_PREFIX_LENGTH */
  function MaxLen(v4: bool): (r: nat)
    ensures (r == 32 || r == WIDTH) && Aligned(r)
  {
    RoundDownIs(32);
    RoundDownIs(128);
    if v4 then 32 else WIDTH
  }

  /** A network prefix has no host bits (net_validate). */
  predicate ValidNet(net: Net) {
    net.plen <= MaxLen(net.v4) && Clear(net.px, net.plen)
  }

  /** The pattern that a network address and two bounds stand for. */
  function PatternOf(net: Net, l: nat, h: nat): (r: Pattern)
    requires net.plen <= WIDTH
    ensures Clear(net.px, net.plen) ==> r == Pattern(net.px, net.plen, l, h)
  {
    assert Clear(net.px, net.plen) ==> Masked(net.px, net.plen) == net.px;
    Pattern(Masked(net.px, net.plen), net.plen, l, h)
  }

  /** The last secondary node is the last extension of the prefix. */
  lemma LastSecondary(addr: Addr, px: Addr, plen: nat, slen: nat)
    requires plen < slen < plen + STEP && slen <= WIDTH
    requires addr == Masked(SetBits(px, slen - 1, Pow2(slen - plen) - 1), slen)
    ensures forall j :: 0 <= j < WIDTH ==> (addr[j] <==> j < slen && (plen <= j || px[j]))
  {
    forall j | 0 <= j < slen ensures addr[j] <==> plen <= j || px[j] {
      SetOnes(px, plen, slen - plen, j);
    }
  }

  function FamilyOf(net: Net): Family { if net.v4 then V4 else V6 }

  /** The tree and the flag for length zero together accept exactly the prefix
      set of the patterns.  A trie of explicit prefixes moreover stores exactly
      these prefixes in its local masks and counts them. */
  ghost predicate StandsFor(t: Tree, zero: bool, family: Family, count: nat, ps: set<Pattern>)
    requires Valid(t)
  {
    && (forall p :: p in ps ==> ValidPattern(p))
    && (family == Unset ==> ps == {})
    && (family != V6 ==> Fits(t, 32) && forall p :: p in ps ==> p.plen <= 32)
    && Denotes(t, ps)
    && (zero <==> exists p :: p in ps && p.low == 0)
    && (AllExplicit(ps) ==> Explicit(t) && Compressed(t) && StoresAll(t, ps) && count == |ps|)
  }

  lemma StandsForNone(t: Tree)
    requires t.Node? && t == Node(0, t.addr, {}, {}, NoChildren()) && Valid(t)
    ensures StandsFor(t, false, Unset, 0, {})
  {
    EmptyDenotes(t);
    forall a: Addr, len: nat | len <= WIDTH ensures !Stored(t, a, len) {}
  }

  /** Whether adding an explicit pattern counts a new prefix. */
  ghost function NewCount(p: Pattern, t: Tree): nat
    requires Valid(t) && Ranged(p) && |PatternItems(p)| == 1
  {
    if AddsNew(PatternItems(p)[0], t) then 1 else 0
  }

  lemma StandsForMore(t: Tree, zero: bool, family: Family, count: nat, ps: set<Pattern>, p: Pattern, v: Family,
                      count': nat)
    requires Valid(t) && StandsFor(t, zero, family, count, ps) && ValidPattern(p)
    requires v != Unset && (family == Unset || family == v)
    requires v == V4 ==> p.plen <= 32 && p.high <= 32
    requires ExplicitPattern(p) ==> |PatternItems(p)| == 1 && count' == count + NewCount(p, t)
    ensures StandsFor(InsertAll(PatternItems(p), t), zero || p.low == 0, v, count', ps + {p})
  {
    DenotesMore(t, ps, p);
    if p.low == 0 {
      assert p in ps + {p};
    }
    if v == V4 {
      PatternItemsFit(p, 32);
      InsertAllFits(PatternItems(p), t, 32);
    }
    if AllExplicit(ps + {p}) {
      assert p in ps + {p};
      assert forall q :: q in ps ==> q in ps + {p};
      CountsMore(t, count, ps, p, count');
    }
  }

  lemma CountsMore(t: Tree, count: nat, ps: set<Pattern>, p: Pattern, count': nat)
    requires Valid(t) && AllExplicit(ps) && ValidPattern(p) && ExplicitPattern(p) && |PatternItems(p)| == 1
    requires Explicit(t) && Compressed(t) && StoresAll(t, ps) && count == |ps| && count' == count + NewCount(p, t)
    ensures AllExplicit(ps + {p})
    ensures Explicit(InsertAll(PatternItems(p), t)) && Compressed(InsertAll(PatternItems(p), t))
    ensures StoresAll(InsertAll(PatternItems(p), t), ps + {p}) && count' == |ps + {p}|
  {
    StoresMore(t, ps, p);
    if p in ps {
      assert ps + {p} == ps;
    }
  }

  class PrefixTrie {
    const root: TrieNode
    var zero: bool
    var family: Family
    var count: nat
    ghost var nodes: set<TrieNode>
    ghost var patterns: set<Pattern>

    /** The nodes form a trie that stands for the added patterns. */
    ghost predicate Valid()
      reads this, nodes
    {
      Shape() && StandsFor(root.tree, zero, family, count, patterns)
    }

    ghost predicate Shape()
      reads this`nodes, nodes
    {
      ShapeOf(root, nodes)
    }

    /** Nodes were only added, and these are new. */
    twostate predicate Grown()
      reads this
    {
      old(nodes) <= nodes && forall m :: m in nodes && m !in old(nodes) ==> fresh(m)
    }

    /** f_new_trie */
    constructor ()
      ensures Valid() && fresh(nodes) && patterns == {} && family == Unset && count == 0
    {
      root := new TrieNode(0, {}, seq(128, i => false), {});
      zero, family, count := false, Unset, 0;
      patterns := {};
      new;
      nodes := {root};
      StandsForNone(root.tree);
    }

    /** new_node, known to the trie but not linked yet. */
    method NewNode(plen: nat, local: set<nat>, addr: Addr, accept: set<nat>, ghost o: TrieNode?, ghost k: nat)
      returns (n: TrieNode)
      requires LinkedBut(nodes, o, k)
      modifies this`nodes
      ensures fresh(n) && nodes == old(nodes) + {n} && LinkedBut(nodes, o, k)
      ensures n.plen == plen && n.addr == addr && n.accept == accept && n.local == local
      ensures n.parent == null && n.tree == Node(plen, addr, accept, local, NoChildren())
    {
      n := new TrieNode(plen, local, addr, accept);
      nodes := nodes + {n};
    }

    /** attach_node below the node whose link is pending. */
    method AttachTop(o: TrieNode, child: TrieNode, ghost k: nat)
      requires o in nodes && child in nodes && LinkedBut(nodes, o, k) && child.parent == null && child != o
      requires o.plen + STEP <= WIDTH && GetBits(child.addr, o.plen, STEP) == k
      modifies o`c, child`parent, child`slot
      ensures LinkedBut(nodes, o, k) && o.c == old(o.c)[k := child]
      ensures child.parent == o && child.slot == k
    {
      var slot := GetBits(child.addr, o.plen, STEP);
      o.c := o.c[slot := child];
      child.parent, child.slot := o, slot;
      forall m, j | m in nodes && 0 <= j < 16 && !(m == o && j == k)
        ensures m.Links(j)
      {
        assert old(m.Links(j));
      }
    }

    /** attach_node below the node b that hangs on the pending link. */
    method AttachBelow(b: TrieNode, child: TrieNode, ghost o: TrieNode, ghost k: nat)
      requires o in nodes && b in nodes && child in nodes && LinkedBut(nodes, o, k)
      requires b != o && child != b && child != o && k < 16
      requires b.parent == o && b.slot == k && o.c[k] == b
      requires child.parent == null || (child.parent == o && child.slot == k)
      requires b.plen + STEP <= WIDTH
      modifies b`c, b`tree, child`parent, child`slot
      ensures LinkedBut(nodes, o, k) && b.Mirrors()
      ensures b.tree.c == old(b.tree.c)[GetBits(child.addr, b.plen, STEP) := child.tree]
    {
      var slot := GetBits(child.addr, b.plen, STEP);
      b.c := b.c[slot := child];
      b.tree := b.tree.(c := b.tree.c[slot := child.tree]);
      child.parent, child.slot := b, slot;
      forall m, j | m in nodes && 0 <= j < 16 && !(m == o && j == k)
        ensures m.Links(j)
      {
        assert old(m.Links(j));
      }
    }

    /** Add bits to the masks of n, the target of the pending link (o, k); the
        pending link moves to slot k2 of n. */
    method AddBits(n: TrieNode, accept: set<nat>, local: set<nat>,
                   ghost o: TrieNode?, ghost k: nat, ghost t: Tree, ghost k2: nat)
      requires n in nodes && LinkedBut(nodes, o, k) && n.parent == o && n != o
      requires o != null ==> o in nodes && k < 16 && n.slot == k && o.c[k] == n && o.tree.c[k] == t
      requires t.Node? && t == Node(n.plen, n.addr, n.accept + accept, n.local + local, t.c) && |t.c| == 16
      requires forall j :: 0 <= j < 16 && j != k2 ==> t.c[j] == n.tree.c[j]
      modifies n`accept, n`local, n`tree
      ensures LinkedBut(nodes, n, k2) && n.tree == t
      ensures n.accept == old(n.accept) + accept && n.local == old(n.local) + local
    {
      n.accept := n.accept + accept;
      n.local := n.local + local;
      n.tree := t;
      forall m, j | m in nodes && 0 <= j < 16 && !(m == n && j == k2)
        ensures m.Links(j)
      {
        assert !(m == o && j == k) ==> old(m.Links(j));
      }
    }

    /** Put a new node b on the pending link, above n and a new leaf a. */
    method Join(x: Item, o: TrieNode, n: TrieNode, blen: nat, bloc: set<nat>, baddr: Addr, baccm: set<nat>,
                ghost k: nat)
      returns (a: TrieNode, b: TrieNode)
      requires o in nodes && n in nodes && o != n && k < 16 && LinkedBut(nodes, o, k)
      requires n.parent == o && n.slot == k
      requires o.plen + STEP <= WIDTH && blen + STEP <= WIDTH && GetBits(baddr, o.plen, STEP) == k
      requires o.tree.c[k] == Node(blen, baddr, baccm, bloc,
                 NoChildren()[GetBits(n.addr, blen, STEP) := n.tree][GetBits(x.px, blen, STEP) := Leaf(x)])
      modifies this`count, this`nodes, o`c, n`parent, n`slot
      ensures LinkedBut(nodes, null, 0)
      ensures fresh(a) && fresh(b) && nodes == old(nodes) + {a, b}
      ensures a.plen == x.plen && a.addr == x.px && count == old(count) + 1
    {
      count := count + 1;
      a := NewNode(x.plen, x.local, x.px, x.amask, o, k);
      b := NewNode(blen, bloc, baddr, baccm, o, k);
      AttachAll(o, b, n, a, k);
    }

    /** b below o, and both n and a below b. */
    method AttachAll(o: TrieNode, b: TrieNode, n: TrieNode, a: TrieNode, ghost k: nat)
      requires o in nodes && b in nodes && n in nodes && a in nodes && k < 16 && LinkedBut(nodes, o, k)
      requires o != n && o != a && o != b && b != n && b != a && n != a
      requires n.parent == o && n.slot == k && a.parent == null && b.parent == null
      requires o.plen + STEP <= WIDTH && b.plen + STEP <= WIDTH && GetBits(b.addr, o.plen, STEP) == k
      requires o.tree.c[k] == b.tree.(c := b.tree.c[GetBits(n.addr, b.plen, STEP) := n.tree]
                                                   [GetBits(a.addr, b.plen, STEP) := a.tree])
      modifies o`c, b`parent, b`slot, b`c, b`tree, n`parent, n`slot, a`parent, a`slot
      ensures LinkedBut(nodes, null, 0)
    {
      AttachTop(o, b, k);
      AttachBelow(b, n, o, k);
      AttachBelow(b, a, o, k);
      Settle(nodes, o, k);
    }

    /** Where trie_add_node stands in its walk: the link from o in slot k to n is
        pending and already shows the insertion below n. */
    ghost predicate Walking(x: Item, o: TrieNode?, n: TrieNode?, k: nat)
      reads this, nodes, n
    {
      && ValidItem(x) && LinkedBut(nodes, o, k)
      && (o == null ==> n == root)
      && (n != null ==> n in nodes && n != o && n.parent == o && TrieTree.Valid(n.tree))
      && (o != null ==>
            && o in nodes && k < 16 && o.c[k] == n && o.tree.c[k] == Insert(x, TreeOf(n))
            && o.plen + STEP <= x.plen && Aligned(o.plen) && Agree(o.addr, x.px, o.plen)
            && GetBits(x.px, o.plen, STEP) == k
            && (n != null ==> n.slot == k && InSlot(o.plen, o.addr, k, n.tree)))
    }

    /** Case 1: out of path, branch between o and n. */
    method AddBranch(x: Item, o: TrieNode, n: TrieNode, ghost k: nat) returns (a: TrieNode, b: TrieNode)
      requires Walking(x, o, n, k) && !Agree(x.px, n.addr, Min(x.plen, n.plen))
      modifies this`count, this`nodes, o`c, n`parent, n`slot
      ensures LinkedBut(nodes, null, 0)
      ensures fresh(a) && fresh(b) && nodes == old(nodes) + {a, b}
      ensures a.plen == x.plen && a.addr == x.px && count == old(count) + 1
    {
      ghost var b0 := BranchStep(x, n.tree, o.plen, o.addr);
      var blen := RoundDown(PxLen(x.px, n.addr));
      var l1 := AmaskToLocalMask(n.addr, n.accept, blen);
      var l2 := AmaskToLocalMask(x.px, x.amask, blen);
      a, b := Join(x, o, n, blen, l1 + l2, Masked(x.px, blen), Below(x.amask + n.accept, blen), k);
    }

    /** Case 2: a new node between o and n. */
    method AddAbove(x: Item, o: TrieNode, n: TrieNode, ghost k: nat) returns (a: TrieNode)
      requires Walking(x, o, n, k) && Agree(x.px, n.addr, Min(x.plen, n.plen)) && x.plen < n.plen
      modifies this`count, this`nodes, o`c, n`parent, n`slot
      ensures LinkedBut(nodes, null, 0)
      ensures fresh(a) && nodes == old(nodes) + {a}
      ensures a.plen == x.plen && a.addr == x.px && count == old(count) + 1
    {
      StepApart(x.plen, n.plen);
      assert Insert(x, n.tree) == Above(x, n.tree);
      count := count + 1;
      var up := AmaskToLocalMask(n.addr, n.accept, x.plen);
      a := NewNode(x.plen, x.local + up, x.px, x.amask + Below(n.accept, x.plen), o, k);
      AttachTop(o, a, k);
      AttachBelow(a, n, o, k);
      Settle(nodes, o, k);
    }

    /** Case 3: the node is there, add to its masks. */
    method AddToNode(x: Item, ghost o: TrieNode?, n: TrieNode, ghost k: nat)
      requires Walking(x, o, n, k) && Agree(x.px, n.addr, x.plen) && x.plen == n.plen
      modifies this`count, n`accept, n`local, n`tree
      ensures LinkedBut(nodes, null, 0) && n.tree == Insert(x, old(n.tree))
      ensures count == old(count) + if x.local <= old(n.local) then 0 else 1
    {
      if !(x.local <= n.local) {
        count := count + 1;
      }
      AddBits(n, x.amask, x.local, o, k, Insert(x, n.tree), 16);
    }

    /** Case 4: a new tail node after o. */
    method AddTail(x: Item, o: TrieNode, ghost k: nat) returns (a: TrieNode)
      requires Walking(x, o, null, k)
      modifies this`count, this`nodes, o`c
      ensures LinkedBut(nodes, null, 0)
      ensures fresh(a) && nodes == old(nodes) + {a}
      ensures a.plen == x.plen && a.addr == x.px && count == old(count) + 1
    {
      count := count + 1;
      a := NewNode(x.plen, x.local, x.px, x.amask, o, k);
      AttachTop(o, a, k);
      Settle(nodes, o, k);
    }

    /** Still on path: update the masks of n and go on to its child. */
    method StepDown(x: Item, ghost o: TrieNode?, n: TrieNode, ghost k: nat) returns (child: TrieNode?)
      requires Walking(x, o, n, k) && n.plen < x.plen && Agree(x.px, n.addr, n.plen)
      modifies n`accept, n`local, n`tree
      ensures n.plen + STEP <= WIDTH && Walking(x, n, child, GetBits(x.px, n.plen, STEP))
      ensures n.tree == Insert(x, old(n.tree))
      ensures child != null ==> child.plen > n.plen
      ensures AddsNew(x, old(n.tree)) == AddsNew(x, TreeOf(child))
    {
      StepApart(n.plen, x.plen);
      ghost var k2 := GetBits(x.px, n.plen, STEP);
      assert n.Links(k2);
      assert ValidChild(n.tree, k2, n.tree.c[k2]);
      assert TrieTree.Valid(n.tree.c[k2]);
      var up := AmaskToLocalMask(x.px, x.amask, n.plen);
      AddBits(n, Below(x.amask, n.plen), up, o, k, Insert(x, n.tree), k2);
      child := n.c[GetBits(x.px, n.plen, STEP)];
    }

    /** The walk ended at n (or past the last node): one of the four cases. */
    method Finish(x: Item, o: TrieNode?, n: TrieNode?, ghost k: nat) returns (r: TrieNode)
      requires Walking(x, o, n, k) && root in nodes && root.parent == null && root.plen == 0
      requires n != null ==> !Agree(x.px, n.addr, Min(x.plen, n.plen)) || x.plen <= n.plen
      modifies this`count, this`nodes, nodes
      ensures LinkedBut(nodes, null, 0)
      ensures Grown()
      ensures r in nodes && r.plen == x.plen && r.addr == x.px && (x.plen == 0 ==> r == root)
      ensures root.parent == null && root.plen == 0
      ensures root.tree == if o == null then Insert(x, old(root.tree)) else old(root.tree)
      ensures count == old(count) + if AddsNew(x, old(TreeOf(n))) then 1 else 0
    {
      if n == null {
        r := AddTail(x, o, k);
      } else if !Agree(x.px, n.addr, Min(x.plen, n.plen)) || x.plen < n.plen {
        r := AddBetween(x, o, n, k);
      } else {
        AddToNode(x, o, n, k);
        r := n;
      }
    }

    /** Cases 1 and 2: a new node between o and n. */
    method AddBetween(x: Item, o: TrieNode, n: TrieNode, ghost k: nat) returns (r: TrieNode)
      requires Walking(x, o, n, k) && (!Agree(x.px, n.addr, Min(x.plen, n.plen)) || x.plen < n.plen)
      modifies this`count, this`nodes, o`c, n`parent, n`slot
      ensures LinkedBut(nodes, null, 0) && Grown() && count == old(count) + 1
      ensures r in nodes && r.plen == x.plen && r.addr == x.px
    {
      if !Agree(x.px, n.addr, Min(x.plen, n.plen)) {
        var b;
        r, b := AddBranch(x, o, n, k);
      } else {
        r := AddAbove(x, o, n, k);
      }
    }

    /** The walk of trie_add_node down from the root. */
    method WalkDown(x: Item) returns (o: TrieNode?, n: TrieNode?, ghost k: nat)
      requires root in nodes && LinkedBut(nodes, null, 0) && root.parent == null && root.plen == 0
      requires TrieTree.Valid(root.tree) && ValidItem(x)
      modifies nodes`accept, nodes`local, nodes`tree
      ensures Walking(x, o, n, k) && AddsNew(x, old(root.tree)) == AddsNew(x, TreeOf(n))
      ensures root.tree == if o == null then old(root.tree) else Insert(x, old(root.tree))
      ensures n != null ==> !Agree(x.px, n.addr, Min(x.plen, n.plen)) || x.plen <= n.plen
    {
      o, n, k := null, root, 0;
      ghost var t, goal, adds := root.tree, Insert(x, root.tree), AddsNew(x, root.tree);
      while n != null && Agree(x.px, n.addr, Min(x.plen, n.plen)) && n.plen < x.plen
        invariant Walking(x, o, n, k) && adds == AddsNew(x, TreeOf(n))
        invariant root.tree == if o == null then t else goal
        decreases if n == null then 0 else WIDTH + 1 - n.plen
      {
        var child := StepDown(x, o, n, k);
        k := GetBits(x.px, n.plen, STEP);
        o := n;
        n := child;
      }
    }

    method Descend(x: Item) returns (r: TrieNode)
      requires root in nodes && LinkedBut(nodes, null, 0) && root.parent == null && root.plen == 0
      requires TrieTree.Valid(root.tree) && ValidItem(x)
      modifies this`count, this`nodes, nodes
      ensures LinkedBut(nodes, null, 0) && root.parent == null && root.plen == 0
      ensures root.tree == Insert(x, old(root.tree))
      ensures Grown()
      ensures r in nodes && r.plen == x.plen && r.addr == x.px && (x.plen == 0 ==> r == root)
      ensures count == old(count) + if AddsNew(x, old(root.tree)) then 1 else 0
    {
      var o, n;
      ghost var k;
      o, n, k := WalkDown(x);
      r := Finish(x, o, n, k);
    }

    /** trie_add_node */
    method AddNode(plen: nat, px: Addr, local: set<nat>, l: nat, h: nat) returns (r: TrieNode)
      requires Shape()
      requires plen <= WIDTH && Aligned(plen) && h <= WIDTH
      requires LocalRange(local, plen)
      modifies this`count, this`nodes, nodes
      ensures Shape() && Grown()
      ensures root.tree == Insert(NodeItem(plen, px, local, l, h), old(root.tree))
      ensures r in nodes && r.plen == plen && r.addr == Masked(px, plen) && (plen == 0 ==> r == root)
      ensures count == old(count) + if AddsNew(NodeItem(plen, px, local, l, h), old(root.tree)) then 1 else 0
    {
      var levels := FillLevels(plen, l, h);
      var x := Item(plen, Masked(px, plen), AcceptMask(l, h), local + levels);
      assert x == NodeItem(plen, px, local, l, h);
      InsertValid(x, root.tree);
      r := Descend(x);
    }

    /** The local bits of the primary node of a pattern. */
    method PrimaryBits(px: Addr, plen: nat, nlen: nat, l: nat, h: nat) returns (local: set<nat>)
      requires nlen < plen < nlen + STEP <= WIDTH
      ensures local == PrimaryLocal(px, plen, nlen, l, h)
    {
      local := {};
      var i := 0;
      while i < STEP
        invariant 0 <= i <= STEP
        invariant local == (if 0 < i then PrimaryLevel(px, plen, nlen, l, h, 0) else {}) +
                           (if 1 < i then PrimaryLevel(px, plen, nlen, l, h, 1) else {}) +
                           (if 2 < i then PrimaryLevel(px, plen, nlen, l, h, 2) else {}) +
                           (if 3 < i then PrimaryLevel(px, plen, nlen, l, h, 3) else {})
      {
        if l <= nlen + i <= h {
          var pos := Pow2(i) + GetBits(px, nlen, i);
          var len := if nlen + i <= plen then 1 else Pow2(nlen + i - plen);
          local := local + Ones(pos, pos + len);
        }
        i := i + 1;
      }
      local := Below(local, 16);  // the mask of a node is a u16
    }

    /** One more secondary node. */
    method AddSecondary(px: Addr, slen: nat, l: nat, h: nat, i: nat, ghost t: Tree) returns (node: TrieNode)
      requires Shape() && 0 < slen <= WIDTH && Aligned(slen) && h <= WIDTH && i < 16 && TrieTree.Valid(t)
      requires root.tree == InsertAll(SecondaryItems(px, slen, l, h, i), t)
      modifies this`count, this`nodes, nodes
      ensures Shape() && Grown() && node in nodes
      ensures node.plen == slen && node.addr == Masked(SetBits(px, slen - 1, i), slen)
      ensures root.tree == InsertAll(SecondaryItems(px, slen, l, h, i + 1), t)
    {
      InsertSecondary(px, slen, l, h, i, t);
      node := AddNode(slen, SetBits(px, slen - 1, i), {}, l, h);
    }

    /** The secondary nodes of an unaligned pattern. */
    method AddSecondaries(px: Addr, slen: nat, l: nat, h: nat, max: nat) returns (node: TrieNode)
      requires Shape() && 0 < slen <= WIDTH && Aligned(slen) && h <= WIDTH && 0 < max <= 16
      modifies this`count, this`nodes, nodes
      ensures Shape() && Grown() && node in nodes
      ensures node.plen == slen && node.addr == Masked(SetBits(px, slen - 1, max - 1), slen)
      ensures root.tree == InsertAll(SecondaryItems(px, slen, l, h, max), old(root.tree))
    {
      node := root;
      var i := 0;
      while i < max
        invariant 0 <= i <= max && Shape() && Grown() && node in nodes
        invariant 0 < i ==> node.plen == slen && node.addr == Masked(SetBits(px, slen - 1, i - 1), slen)
        invariant root.tree == InsertAll(SecondaryItems(px, slen, l, h, i), old(root.tree))
      {
        node := AddSecondary(px, slen, l, h, i, old(root.tree));
        i := i + 1;
      }
    }

    /** The node has the length nlen; its address is that of the pattern, and behind it all ones. */
    ghost predicate Holds(node: TrieNode, nlen: nat, px: Addr, plen: nat)
      reads node
    {
      node.plen == nlen && (nlen == 0 ==> node == root) &&
      forall j :: 0 <= j < WIDTH ==> (node.addr[j] <==> j < nlen && (plen <= j || px[j]))
    }

    /** What trie_add_prefix returns for the pattern px/plen{l,h}, where plen is not above h. */
    ghost predicate Returns(node: TrieNode?, px: Addr, plen: nat, l: nat, h: nat)
      reads node
    {
      var nlen := RoundDown(plen);
      && (node != null <==> Aligned(plen) || l < nlen + STEP || nlen + STEP <= h)
      && (node != null ==> Holds(node, if Aligned(plen) || h < nlen + STEP then nlen else nlen + STEP, px, plen))
    }

    /** The primary node of an unaligned pattern. */
    method AddPrimary(ghost p: Pattern, px: Addr, plen: nat, l: nat, h: nat) returns (node: TrieNode?)
      requires Shape() && Ranged(p) && !Aligned(CutLen(p))
      requires px == p.px && l == p.low && h == p.high && plen == CutLen(p)
      modifies this`count, this`nodes, nodes
      ensures Shape() && Grown()
      ensures root.tree == InsertAll(PrimaryItems(p), old(root.tree))
      ensures node != null <==> l < RoundDown(plen) + STEP
      ensures node != null ==> node in nodes && Holds(node, RoundDown(plen), px, plen)
      ensures |PrimaryItems(p)| == 1 ==>
                count == old(count) + if AddsNew(PrimaryItems(p)[0], old(root.tree)) then 1 else 0
    {
      var nlen := RoundDown(plen);
      RoomBelow(nlen);
      node := null;
      if l < nlen + STEP {
        var local := PrimaryBits(px, plen, nlen, l, h);
        InsertAllOne(PrimaryItems(p), root.tree);
        node := AddNode(nlen, px, local, l, nlen);
      }
    }

    /** All secondary nodes, the last of which is returned. */
    method AddExtensions(px: Addr, plen: nat, slen: nat, l: nat, h: nat) returns (node: TrieNode)
      requires Shape() && plen < slen < plen + STEP && slen <= WIDTH && Aligned(slen) && h <= WIDTH
      modifies this`count, this`nodes, nodes
      ensures Shape() && Grown() && node in nodes && Holds(node, slen, px, plen)
      ensures root.tree == InsertAll(SecondaryItems(px, slen, l, h, Pow2(slen - plen)), old(root.tree))
    {
      node := AddSecondaries(px, slen, l, h, Pow2(slen - plen));
      LastSecondary(node.addr, px, plen, slen);
    }

    /** The nodes below the primary one, if the pattern reaches down to them. */
    method AddLower(ghost p: Pattern, px: Addr, plen: nat, l: nat, h: nat) returns (node: TrieNode?)
      requires Shape() && Ranged(p) && !Aligned(CutLen(p))
      requires px == p.px && l == p.low && h == p.high && plen == CutLen(p)
      modifies this`count, this`nodes, nodes
      ensures Shape() && Grown()
      ensures root.tree == InsertAll(LowerItems(p), old(root.tree))
      ensures node != null <==> RoundDown(plen) + STEP <= h
      ensures node != null ==> node in nodes && Holds(node, RoundDown(plen) + STEP, px, plen)
      ensures p.high == p.plen ==> LowerItems(p) == [] && count == old(count)
    {
      var slen := RoundDown(plen) + STEP;
      node := null;
      ghost var xs := LowerItems(p);
      if slen <= h {
        assert xs == SecondaryItems(px, slen, Max(l, slen), h, Pow2(slen - plen));
        node := AddExtensions(px, plen, slen, Max(l, slen), h);
      }
    }

    /** All the nodes of a pattern. */
    method AddNodes(ghost p: Pattern, px: Addr, plen: nat, l: nat, h: nat) returns (node: TrieNode?)
      requires Shape() && Ranged(p) && px == p.px && l == p.low && h == p.high && plen == CutLen(p)
      modifies this`count, this`nodes, nodes
      ensures Shape() && Grown()
      ensures root.tree == InsertAll(PatternItems(p), old(root.tree))
      ensures Returns(node, px, plen, l, h) && (node != null ==> node in nodes)
      ensures ExplicitPattern(p) ==>
                |PatternItems(p)| == 1 && count == old(count) + NewCount(p, old(root.tree))
    {
      RoundDownIs(plen);
      if plen == RoundDown(plen) {
        node := AddAligned(p, px, plen, l, h);
      } else {
        node := AddUnaligned(p, px, plen, l, h);
      }
    }

    method AddAligned(ghost p: Pattern, px: Addr, plen: nat, l: nat, h: nat) returns (node: TrieNode)
      requires Shape() && Ranged(p) && px == p.px && l == p.low && h == p.high && plen == CutLen(p) && Aligned(plen)
      modifies this`count, this`nodes, nodes
      ensures Shape() && Grown() && |PatternItems(p)| == 1
      ensures root.tree == InsertAll(PatternItems(p), old(root.tree))
      ensures Holds(node, plen, px, plen) && node in nodes && count == old(count) + NewCount(p, old(root.tree))
    {
      InsertAllOne(PatternItems(p), root.tree);
      node := AddNode(plen, px, {}, l, h);
    }

    method AddUnaligned(ghost p: Pattern, px: Addr, plen: nat, l: nat, h: nat) returns (node: TrieNode?)
      requires Shape() && Ranged(p) && px == p.px && l == p.low && h == p.high && plen == CutLen(p) && !Aligned(plen)
      modifies this`count, this`nodes, nodes
      ensures Shape() && Grown()
      ensures root.tree == InsertAll(PatternItems(p), old(root.tree))
      ensures Returns(node, px, plen, l, h) && (node != null ==> node in nodes)
      ensures ExplicitPattern(p) ==>
                |PatternItems(p)| == 1 && count == old(count) + NewCount(p, old(root.tree))
    {
      InsertAllConcat(PrimaryItems(p), LowerItems(p), root.tree);
      var primary := AddPrimary(p, px, plen, l, h);
      node := AddLower(p, px, plen, l, h);
      if node == null {
        node := primary;
      }
    }

    /** Add the nodes of one more pattern. */
    method AddPattern(ghost raw: Pattern, ghost p: Pattern, px: Addr, plen: nat, l: nat, h: nat, ghost v: Family)
      returns (node: TrieNode?)
      requires Shape() && StandsFor(root.tree, zero, family, count, patterns)
      requires v != Unset && (family == Unset || family == v) && (v == V4 ==> p.plen <= 32 && p.high <= 32)
      requires Ranged(raw) && px == raw.px && l == raw.low && h == raw.high && plen == CutLen(raw)
      requires ValidPattern(p) && p == raw.(px := p.px) && PatternItems(p) == PatternItems(raw)
      modifies this`count, this`nodes, nodes
      ensures Shape() && Grown()
      ensures StandsFor(root.tree, zero || l == 0, v, count, patterns + {p})
      ensures Returns(node, px, plen, l, h) && (node != null ==> node in nodes)
    {
      ghost var t, c := root.tree, count;
      node := AddNodes(raw, px, plen, l, h);
      StandsForMore(t, zero, family, c, patterns, p, v, count);
    }

    /** trie_add_prefix.  Host bits are ignored, except for those that TriePattern.HostBitsIff rules out. */
    method AddPrefix(net: Net, l: nat, h: nat) returns (node: TrieNode?)
      requires Valid() && net.plen <= MaxLen(net.v4) && l <= MaxLen(net.v4) && h <= MaxLen(net.v4)
      requires HostClear(Pattern(net.px, net.plen, l, h))
      modifies this, nodes
      ensures Valid() && Grown()
      ensures old(family) == Unset || old(family) == FamilyOf(net) ==>
                family == FamilyOf(net) && patterns == old(patterns) + {PatternOf(net, l, h)}
      ensures old(family) != Unset && old(family) != FamilyOf(net) ==>
                family == old(family) && patterns == old(patterns) && node == null
      // the node returned: that of the prefix cut to h, or the last of those below it
      ensures old(family) == Unset || old(family) == FamilyOf(net) ==>
                Returns(node, net.px, Min(net.plen, h), l, h) && (l <= h ==> node != null) &&
                (node != null ==> node in nodes)
    {
      if family != FamilyOf(net) && family != Unset {
        return null;
      }
      ghost var raw, p := Pattern(net.px, net.plen, l, h), PatternOf(net, l, h);
      SameItems(raw, p);
      node := AddPattern(raw, p, net.px, if h < net.plen then h else net.plen, l, h, FamilyOf(net));
      Record(p, FamilyOf(net), l);
    }

    /** Note family, zero flag and pattern once the nodes are added. */
    method Record(ghost p: Pattern, v: Family, l: nat)
      requires Shape() && StandsFor(root.tree, zero || l == 0, v, count, patterns + {p})
      modifies this`family, this`zero, this`patterns
      ensures Valid() && family == v && patterns == old(patterns) + {p}
    {
      family, zero, patterns := v, zero || l == 0, patterns + {p};
    }

    /** The child in slot k is the child of the ghost tree. */
    lemma ChildLinks(n: TrieNode, k: nat)
      requires Shape() && n in nodes && k < 16
      ensures |n.c| == 16 && n.tree.Node? && |n.tree.c| == 16 && TreeOf(n.c[k]) == n.tree.c[k]
      ensures n.c[k] != null ==> n.c[k] in nodes
    {
      assert n.Links(k);
    }

    /** trie_match_net4 and trie_match_net6 */
    method MatchPrefix(px: Addr, plen: nat) returns (r: bool)
      requires Valid() && plen <= WIDTH
      ensures r <==> InSet(patterns, px, plen)
    {
      if plen == 0 {
        return zero;
      }
      var nlen := RoundDown(plen);
      var local := LocalPos(px, plen, nlen);
      var n: TrieNode? := root;
      while n != null
        invariant n != null ==> n in nodes && TrieTree.Valid(n.tree)
        invariant Match(root.tree, px, plen) <==> n != null && Match(n.tree, px, plen)
        decreases if n == null then 0 else WIDTH + 1 - n.plen
      {
        if !Agree(px, n.addr, Min(plen, n.plen)) {
          return false;
        }
        if n.plen == nlen && local in n.local {
          return true;
        }
        if plen - 1 in n.accept {
          return true;
        }
        if nlen <= n.plen {
          return false;
        }
        StepApart(n.plen, nlen);
        ghost var k := GetBits(px, n.plen, STEP);
        ChildLinks(n, k);
        assert ValidChild(n.tree, k, n.tree.c[k]);
        n := n.c[GetBits(px, n.plen, STEP)];
      }
      return false;
    }

    /** trie_match_net: the prefix set of the added patterns, for networks of the
        trie's family. */
    method MatchNet(net: Net) returns (r: bool)
      requires Valid() && ValidNet(net)
      ensures r <==> family == FamilyOf(net) && InSet(patterns, net.px, net.plen)
    {
      if net.v4 {
        if family == V6 {
          return false;
        }
      } else if family != V6 {
        return false;
      }
      r := MatchPrefix(net.px, net.plen);
    }
  }
}
