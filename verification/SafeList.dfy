/** Linked lists with safe iterators (lib/slists.c, lib/slists.h).

    A node carries the chain of iterators that stand on it.  When it is removed,
    the whole chain is appended to that of its successor, and the iterators
    forget their node; they find it again by walking back along the chain.
 */
module SafeList {
  /** The back pointer of an iterator: another iterator, or the node itself. */
  datatype Link = Unlinked | ToIter(iter: Iterator) | ToNode(node: SNode)

  class SNode {
    var next: SNode?
    var prev: SNode?
    var readers: Iterator?
    /** The iterators standing here, in the order of the chain. */
    ghost var chain: seq<Iterator>

    constructor ()
      ensures next == null && prev == null && readers == null && chain == []
    {
      next, prev, readers := null, null, null;
      chain := [];
    }
  }

  class Iterator {
    var prev: Link
    var next: Iterator?
    /** The node, unless it was forgotten. */
    var node: SNode?
    /** The node this iterator stands on. */
    ghost var owner: SNode?

    constructor ()
      ensures prev == Unlinked && next == null && owner == null
    {
      prev, next, node := Unlinked, null, null;
      owner := null;
    }
  }

  // ---- Chains ----

  ghost predicate NoRepeat(s: seq<Iterator>) { forall j, k :: 0 <= j < k < |s| ==> s[j] != s[k] }

  /** The links of the chain of n. */
  ghost predicate Linked(n: SNode)
    reads n`readers, n`chain, n.chain`prev, n.chain`next
  {
    var c := n.chain;
    && (if c == [] then n.readers == null
        else n.readers == c[0] && c[0].prev == ToNode(n) && c[|c| - 1].next == null)
    && (forall j, k :: 0 <= j < k < |c| && k == j + 1 ==> c[j].next == c[k] && c[k].prev == ToIter(c[j]))
  }

  /** Iterators know their node, up to a point of the chain. */
  ghost predicate Known(n: SNode)
    reads n`chain, n.chain`node
  {
    var c := n.chain;
    && (forall k :: 0 <= k < |c| ==> c[k].node == n || c[k].node == null)
    && (forall j, k :: 0 <= j < k < |c| && c[j].node == null ==> c[k].node == null)
  }

  ghost predicate ChainOk(n: SNode)
    reads n`readers, n`chain, n.chain
  {
    NoRepeat(n.chain) && Linked(n) && Known(n) && forall k :: 0 <= k < |n.chain| ==> n.chain[k].owner == n
  }

  /** s_put */
  method Put(i: Iterator, n: SNode)
    requires ChainOk(n) && i.owner == null && i !in n.chain
    modifies i, n`readers, n`chain, n.chain`prev
    ensures ChainOk(n) && n.chain == [i] + old(n.chain) && i.owner == n
  {
    i.node := n;
    var f := n.readers;
    if f != null {
      f.prev := ToIter(i);
    }
    i.next := f;
    n.readers := i;
    i.prev := ToNode(n);
    i.owner := n;
    ghost var c := n.chain;
    n.chain := [i] + c;
    assert forall k :: 0 < k < |n.chain| ==> n.chain[k] == c[k - 1];
  }

  /** The node an iterator stands on: known, or found at the start of the chain. */
  method FindNode(i: Iterator, ghost n: SNode, ghost k0: nat) returns (r: SNode)
    requires ChainOk(n) && k0 < |n.chain| && i == n.chain[k0]
    ensures r == n
  {
    if i.node != null {
      return i.node;
    }
    var f := i;
    ghost var k: nat := k0;
    while f.prev.ToIter?
      invariant k < |n.chain| && f == n.chain[k]
      invariant k > 0 ==> f.prev == ToIter(n.chain[k - 1])
      decreases k
    {
      f := f.prev.iter;
      k := k - 1;
    }
    return f.prev.node;
  }

  /** Take the first iterator out of the chain, or another one. */
  method UnlinkFirst(i: Iterator, n: SNode)
    requires ChainOk(n) && 0 < |n.chain| && i == n.chain[0]
    modifies i, n`readers, n`chain, n.chain`prev
    ensures ChainOk(n) && n.chain == old(n.chain)[1..] && i.owner == null && i.prev == Unlinked
  {
    ghost var c := n.chain;
    var g := i.next;
    assert 1 < |c| ==> g == c[1];
    n.readers := g;
    if g != null {
      g.prev := ToNode(n);
    }
    i.prev, i.next, i.owner := Unlinked, null, null;
    n.chain := c[1..];
    assert forall j :: 0 <= j < |n.chain| ==> n.chain[j] == c[j + 1];
  }

  ghost function Drop(c: seq<Iterator>, k: nat): (d: seq<Iterator>)
    requires k < |c|
    ensures |d| == |c| - 1 && forall j :: 0 <= j < |d| ==> d[j] == if j < k then c[j] else c[j + 1]
  {
    c[..k] + c[k + 1..]
  }

  lemma DropRepeat(c: seq<Iterator>, k: nat)
    requires k < |c| && NoRepeat(c)
    ensures NoRepeat(Drop(c, k)) && c[k] !in Drop(c, k)
  {
  }

  /** The chain c is linked but for element k, which is bypassed. */
  ghost predicate LinkedAround(c: seq<Iterator>, k: nat)
    requires 0 < k < |c|
    reads c`prev, c`next
  {
    && (forall j, l :: 0 <= j < l < |c| && l == j + 1 && j != k && l != k ==>
                         c[j].next == c[l] && c[l].prev == ToIter(c[j]))
    && if k + 1 < |c| then c[k - 1].next == c[k + 1] && c[k + 1].prev == ToIter(c[k - 1]) && c[|c| - 1].next == null
       else c[k - 1].next == null
  }

  method UnlinkPointers(i: Iterator, f: Iterator, ghost c: seq<Iterator>, ghost k: nat)
    requires 0 < k < |c| && NoRepeat(c) && i == c[k] && i.prev == ToIter(f) && c[|c| - 1].next == null
    requires forall j, l :: 0 <= j < l < |c| && l == j + 1 ==> c[j].next == c[l] && c[l].prev == ToIter(c[j])
    modifies c`prev, c`next
    ensures LinkedAround(c, k) && i.prev == Unlinked && c[0].prev == old(c[0].prev)
  {
    var g := i.next;
    assert f == c[k - 1] && (k + 1 < |c| ==> g == c[k + 1]);
    if g != null {
      f.next, g.prev := g, ToIter(f);
    } else {
      f.next := g;
    }
    i.prev, i.next := Unlinked, null;
  }

  lemma DropLinked(n: SNode, c: seq<Iterator>, k: nat)
    requires 0 < k < |c| && LinkedAround(c, k) && n.chain == Drop(c, k)
    requires n.readers == c[0] && c[0].prev == ToNode(n)
    ensures Linked(n)
  {
  }

  method UnlinkInner(i: Iterator, f: Iterator, ghost n: SNode, ghost k: nat)
    requires ChainOk(n) && 0 < k < |n.chain| && i == n.chain[k] && i.prev == ToIter(f)
    modifies i, n`chain, n.chain`prev, n.chain`next
    ensures ChainOk(n) && n.chain == Drop(old(n.chain), k) && i.owner == null && i.prev == Unlinked
  {
    ghost var c := n.chain;
    DropKnown(n, c, k);
    UnlinkPointers(i, f, c, k);
    Rechain(i, n, c, Drop(c, k), k);
  }

  /** The rest of the chain is the chain of the node. */
  ghost method Rechain(i: Iterator, n: SNode, c: seq<Iterator>, d: seq<Iterator>, k: nat)
    requires 0 < k < |c| && d == Drop(c, k) && i !in d && Owned(n, d) && NoRepeat(d)
    requires LinkedAround(c, k) && n.readers == c[0] && c[0].prev == ToNode(n)
    modifies i`owner, n`chain
    ensures ChainOk(n) && n.chain == d && i.owner == null
  {
    i.owner, n.chain := null, d;
    DropLinked(n, c, k);
    assert Owned(n, d);
  }

  lemma DropKnown(n: SNode, c: seq<Iterator>, k: nat)
    requires k < |c| && ChainOk(n) && n.chain == c
    ensures Owned(n, Drop(c, k)) && NoRepeat(Drop(c, k)) && c[k] !in Drop(c, k)
  {
    DropRepeat(c, k);
  }

  /** s_get */
  method Get(i: Iterator, ghost n: SNode, ghost k: nat) returns (r: SNode)
    requires ChainOk(n) && k < |n.chain| && i == n.chain[k]
    modifies i, n`readers, n`chain, n.chain`prev, n.chain`next
    ensures r == n && ChainOk(n) && i.owner == null && i.prev == Unlinked
    ensures n.chain == Drop(old(n.chain), k)
  {
    r := FindNode(i, n, k);
    assert k > 0 ==> i.prev == ToIter(n.chain[k - 1]);
    if i.prev.ToIter? {
      UnlinkInner(i, i.prev.iter, n, k);
    } else {
      UnlinkFirst(i, i.prev.node);
    }
  }

  // ---- Merging ----

  /** The iterators c follow each other up to the end, the forgetful ones last. */
  ghost predicate Trail(c: seq<Iterator>)
    reads c
  {
    && NoRepeat(c)
    && (c != [] ==> c[|c| - 1].next == null)
    && (forall j, k :: 0 <= j < k < |c| && k == j + 1 ==> c[j].next == c[k])
    && (forall j, k :: 0 <= j < k < |c| && c[j].node == null ==> c[k].node == null)
  }

  /** Let the iterators from f on forget their node. */
  method Forget(f0: Iterator, ghost c: seq<Iterator>)
    requires c != [] && c[0] == f0 && Trail(c)
    modifies c`node
    ensures forall k :: 0 <= k < |c| ==> c[k].node == null
  {
    var f: Iterator? := f0;
    ghost var n: nat := 0;
    while f != null && f.node != null
      invariant n <= |c| && f == (if n < |c| then c[n] else null)
      invariant forall k :: 0 <= k < n ==> c[k].node == null
      invariant forall j, k :: n <= j < k < |c| && c[j].node == null ==> c[k].node == null
      decreases |c| - n
    {
      f.node := null;
      assert n + 1 < |c| ==> f.next == c[n + 1];
      f := f.next;
      n := n + 1;
    }
  }

  /** The last iterator of a chain. */
  method Last(g0: Iterator, ghost c: seq<Iterator>) returns (g: Iterator)
    requires c != [] && c[0] == g0 && Trail(c)
    ensures g == c[|c| - 1]
  {
    g := g0;
    ghost var n: nat := 0;
    while g.next != null
      invariant n < |c| && g == c[n]
      invariant n + 1 < |c| ==> g.next == c[n + 1]
      decreases |c| - n
    {
      g := g.next;
      n := n + 1;
    }
  }

  lemma ChainTrail(n: SNode)
    requires ChainOk(n)
    ensures Trail(n.chain)
  {
  }

  /** Two chains as one; g is the last of the first. */
  ghost predicate Joined(n: SNode, c: seq<Iterator>, d: seq<Iterator>)
    reads n`readers, c`prev, c`next, d`prev, d`next
  {
    && NoRepeat(c) && NoRepeat(d) && c != [] && d != []
    && (forall j, k :: 0 <= j < |c| && 0 <= k < |d| ==> c[j] != d[k])
    && n.readers == c[0] && c[0].prev == ToNode(n) && c[|c| - 1].next == d[0] && d[0].prev == ToIter(c[|c| - 1])
    && d[|d| - 1].next == null
    && (forall j, k :: 0 <= j < k < |c| && k == j + 1 ==> c[j].next == c[k] && c[k].prev == ToIter(c[j]))
    && (forall j, k :: 0 <= j < k < |d| && k == j + 1 ==> d[j].next == d[k] && d[k].prev == ToIter(d[j]))
  }

  lemma JoinedLinked(n: SNode, c: seq<Iterator>, d: seq<Iterator>)
    requires Joined(n, c, d) && n.chain == c + d
    ensures NoRepeat(n.chain) && Linked(n)
  {
    var e := n.chain;
    forall j, k | 0 <= j < k < |e|
      ensures e[j] != e[k] && (k == j + 1 ==> e[j].next == e[k] && e[k].prev == ToIter(e[j]))
    {
      if k < |c| {
        assert e[j] == c[j] && e[k] == c[k];
      } else if j < |c| {
        assert e[j] == c[j] && e[k] == d[k - |c|];
      } else {
        assert e[j] == d[j - |c|] && e[k] == d[k - |c|];
      }
    }
  }

  lemma JoinedKnown(n: SNode, c: seq<Iterator>, d: seq<Iterator>)
    requires n.chain == c + d
    requires forall k :: 0 <= k < |c| ==> c[k].node == n || c[k].node == null
    requires forall j, k :: 0 <= j < k < |c| && c[j].node == null ==> c[k].node == null
    requires forall k :: 0 <= k < |d| ==> d[k].node == null
    ensures Known(n)
  {
  }

  /** d starts at n, linked both ways. */
  ghost predicate StartsAt(n: SNode, d: seq<Iterator>)
    reads n`readers, d`prev, d`next
  {
    && NoRepeat(d) && d != [] && n.readers == d[0] && d[0].prev == ToNode(n) && d[|d| - 1].next == null
    && (forall j, k :: 0 <= j < k < |d| && k == j + 1 ==> d[j].next == d[k] && d[k].prev == ToIter(d[j]))
  }

  ghost method AdoptAll(from: SNode, to: SNode, d: seq<Iterator>)
    requires from != to && StartsAt(to, d) && forall k :: 0 <= k < |d| ==> d[k].node == null
    modifies to`chain, from`chain, d`owner
    ensures ChainOk(to) && to.chain == d && from.chain == []
  {
    forall k | 0 <= k < |d| { d[k].owner := to; }
    to.chain, from.chain := d, [];
  }

  method Start(f: Iterator, ghost from: SNode, to: SNode)
    requires from != to && ChainOk(from) && from.readers == f
    modifies to`readers, f`prev
    ensures StartsAt(to, from.chain) && Trail(from.chain) && from.chain[0] == f
  {
    to.readers, f.prev := f, ToNode(to);
  }

  /** The fast path: no iterator stands on the node yet. */
  method Inherit(from: SNode, to: SNode, f: Iterator)
    requires from != to && ChainOk(from) && to.chain == [] && from.readers == f
    modifies to`readers, to`chain, from`chain, from.chain`prev, from.chain`node, from.chain`owner
    ensures ChainOk(to) && to.chain == old(from.chain) && from.chain == []
  {
    ghost var d := from.chain;
    Start(f, from, to);
    Forget(f, d);
    AdoptAll(from, to, d);
  }

  /** Link the second chain behind the first. */
  method Connect(g: Iterator, f: Iterator, ghost from: SNode, ghost to: SNode)
    requires from != to && ChainOk(from) && ChainOk(to) && to.chain != []
    requires from.readers == f && g == to.chain[|to.chain| - 1]
    modifies g`next, f`prev
    ensures Joined(to, to.chain, from.chain) && Trail(from.chain) && from.chain[0] == f
  {
    assert forall j, k :: 0 <= j < |to.chain| && 0 <= k < |from.chain| ==> to.chain[j] != from.chain[k];
    g.next, f.prev := f, ToIter(g);
  }

  /** Iterators of n that know it, up to a point. */
  ghost predicate Owned(n: SNode, c: seq<Iterator>)
    reads c`owner, c`node
  {
    && (forall k :: 0 <= k < |c| ==> c[k].owner == n && (c[k].node == n || c[k].node == null))
    && (forall j, k :: 0 <= j < k < |c| && c[j].node == null ==> c[k].node == null)
  }

  /** Forgetting in one chain does not touch the other. */
  method ForgetSecond(f: Iterator, ghost n: SNode, ghost c: seq<Iterator>, ghost d: seq<Iterator>)
    requires d != [] && d[0] == f && Trail(d) && Joined(n, c, d) && Owned(n, c)
    modifies d`node
    ensures Owned(n, c) && forall k :: 0 <= k < |d| ==> d[k].node == null
  {
    Forget(f, d);
  }

  /** The iterators d now belong to the node as well. */
  ghost method Adopt(from: SNode, to: SNode, c: seq<Iterator>, d: seq<Iterator>)
    requires from != to && Joined(to, c, d) && Owned(to, c) && forall k :: 0 <= k < |d| ==> d[k].node == null
    modifies to`chain, from`chain, d`owner
    ensures ChainOk(to) && to.chain == c + d && from.chain == []
  {
    forall k | 0 <= k < |d| { d[k].owner := to; }
    to.chain, from.chain := c + d, [];
    JoinedLinked(to, c, d);
    JoinedKnown(to, c, d);
  }

  /** Really merging. */
  method MergeBoth(from: SNode, to: SNode, f: Iterator, g0: Iterator)
    requires from != to && ChainOk(from) && ChainOk(to) && from.readers == f && to.readers == g0
    modifies to`chain, from`chain, to.chain`next, from.chain`prev, from.chain`node, from.chain`owner
    ensures ChainOk(to) && to.chain == old(to.chain) + old(from.chain) && from.chain == []
  {
    ghost var c, d := to.chain, from.chain;
    ChainTrail(to);
    var g := Last(g0, c);
    assert Owned(to, c);
    Connect(g, f, from, to);
    ForgetSecond(f, to, c, d);
    Adopt(from, to, c, d);
  }

  /** s_merge */
  method Merge(from: SNode, to: SNode)
    requires from != to && ChainOk(from) && ChainOk(to)
    modifies to`readers, to`chain, from`chain, to.chain`next, from.chain`prev, from.chain`node, from.chain`owner
    ensures ChainOk(to) && to.chain == old(to.chain) + old(from.chain) && from.chain == []
  {
    var f, g := from.readers, to.readers;
    if f == null {
      assert to.chain + from.chain == to.chain;
      return;
    }
    if g == null {
      assert to.chain + from.chain == from.chain;
      Inherit(from, to, f);
    } else {
      MergeBoth(from, to, f, g);
    }
  }

  // ---- The list ----

  /** The iterators its stand on nodes of ns or nowhere, each in the chain of its node. */
  ghost predicate Chains(ns: set<SNode>, its: set<Iterator>)
    reads ns`readers, ns`chain, its
  {
    && (forall n, i :: n in ns && i in n.chain ==> i in its)
    && (forall n :: n in ns ==> ChainOk(n))
    && (forall i :: i in its && i.owner != null ==> i.owner in ns && i in i.owner.chain)
  }

  lemma Owners(ns: set<SNode>, its: set<Iterator>)
    requires Chains(ns, its)
    ensures forall n, i :: n in ns && i in n.chain ==> i.owner == n
  {
    forall n, i | n in ns && i in n.chain ensures i.owner == n {
      assert ChainOk(n);
    }
  }

  /** All iterators of n move to x. */
  method MergeOut(n: SNode, x: SNode, ghost ns: set<SNode>, ghost its: set<Iterator>)
    requires Chains(ns, its) && n in ns && x in ns && n != x
    modifies n`chain, x`readers, x`chain, its
    ensures Chains(ns - {n}, its)
    ensures forall i :: i in its ==> i.owner == if old(i.owner) == n then x else old(i.owner)
    ensures forall m :: m in ns && m != n && m != x ==> m.chain == old(m.chain)
  {
    Owners(ns, its);
    ghost var d := n.chain;
    Merge(n, x);
    forall i | i in its && i in d ensures i.owner == x {
      assert i in x.chain && ChainOk(x);
    }
  }

  /** A node that nothing stands on. */
  method Empty(n: SNode, ghost ns: set<SNode>, ghost its: set<Iterator>)
    requires Chains(ns, its) && n !in ns
    modifies n`readers, n`chain
    ensures Chains(ns + {n}, its)
  {
    n.readers, n.chain := null, [];
  }

  method PutOn(i: Iterator, n: SNode, ghost ns: set<SNode>, ghost its: set<Iterator>)
    requires Chains(ns, its) && i in its && i.owner == null && n in ns
    modifies its, n`readers, n`chain
    ensures Chains(ns, its) && i.owner == n
    ensures forall j :: j in its && j != i ==> j.owner == old(j.owner)
    ensures forall m :: m in ns && m != n ==> m.chain == old(m.chain)
  {
    Owners(ns, its);
    Put(i, n);
  }

  method GetOff(i: Iterator, ghost o: SNode, ghost ns: set<SNode>, ghost its: set<Iterator>) returns (n: SNode)
    requires Chains(ns, its) && i in its && i.owner == o
    modifies its, o`readers, o`chain
    ensures Chains(ns, its) && n == o && i.owner == null
    ensures forall j :: j in its && j != i ==> j.owner == old(j.owner)
    ensures o.chain == [] || old(o.chain) != []
  {
    Owners(ns, its);
    ghost var k: nat :| k < |o.chain| && o.chain[k] == i;
    ghost var c := o.chain;
    n := Get(i, o, k);
    DropMembers(c, k);
  }

  ghost function Members(s: seq<SNode>): set<SNode> { set n | n in s }

  class SList {
    const head: SNode
    const tail: SNode
    /** Head, nodes in order, and tail. */
    ghost var nodes: seq<SNode>
    /** The iterators in existence. */
    ghost var iters: set<Iterator>

    /** The nodes are linked both ways. */
    ghost predicate Spine()
      reads this, nodes`next, nodes`prev
    {
      && |nodes| >= 2 && nodes[0] == head && nodes[|nodes| - 1] == tail && tail.next == null
      && (forall j, k :: 0 <= j < k < |nodes| ==> nodes[j] != nodes[k])
      && (forall j, k :: 0 <= j < k < |nodes| && k == j + 1 ==> nodes[j].next == nodes[k] && nodes[k].prev == nodes[j])
    }

    ghost predicate Valid()
      reads this, nodes, iters
    {
      Spine() && Chains(Members(nodes), iters) && head.chain == []
    }

    /** s_init_list */
    constructor ()
      ensures Valid() && |nodes| == 2 && iters == {}
    {
      var h := new SNode();
      var t := new SNode();
      h.next, t.prev := t, h;
      head, tail := h, t;
      nodes, iters := [h, t], {};
    }

    /** s_put on a node of the list, or on its end */
    method PutAt(i: Iterator, n: SNode)
      requires Valid() && i in iters && i.owner == null && n in nodes && n != head
      modifies iters, n`readers, n`chain
      ensures Valid() && i.owner == n
      ensures forall j :: j in iters && j != i ==> j.owner == old(j.owner)
    {
      PutOn(i, n, Members(nodes), iters);
    }

    /** A new iterator, standing nowhere. */
    method Register(i: Iterator)
      requires Valid() && i !in iters && i.owner == null
      modifies this`iters
      ensures Valid() && iters == old(iters) + {i}
    {
      iters := iters + {i};
    }

    /** s_get: the node the iterator stands on; it is taken off the list. */
    method GetFrom(i: Iterator) returns (n: SNode)
      requires Valid() && i in iters && i.owner != null
      modifies iters, nodes`readers, nodes`chain
      ensures Valid() && n == old(i.owner) && i.owner == null
      ensures forall j :: j in iters && j != i ==> j.owner == old(j.owner)
    {
      n := GetOff(i, i.owner, Members(nodes), iters);
    }

    /** Take node k out of the spine. */
    method Bypass(n: SNode, ghost k: nat)
      requires Spine() && 0 < k < |nodes| - 1 && n == nodes[k]
      modifies nodes`next, nodes`prev, this`nodes
      ensures Spine() && nodes == old(nodes)[..k] + old(nodes)[k + 1..]
      ensures n.next == old(nodes)[k + 1]
    {
      var z, x := n.prev, n.next;
      assert z == nodes[k - 1] && x == nodes[k + 1];
      z.next, x.prev := x, z;
      ghost var c := nodes;
      nodes := c[..k] + c[k + 1..];
      assert forall j :: 0 <= j < |nodes| ==> nodes[j] == if j < k then c[j] else c[j + 1];
    }

    /** s_rem_node: iterators on the node move on to its successor, or to the end. */
    method Remove(n: SNode, ghost k: nat)
      requires Valid() && 0 < k < |nodes| - 1 && n == nodes[k]
      modifies this`nodes, nodes, iters
      ensures Valid() && nodes == old(nodes)[..k] + old(nodes)[k + 1..] && iters == old(iters)
      ensures forall i :: i in iters ==> i.owner == if old(i.owner) == n then old(nodes)[k + 1] else old(i.owner)
    {
      ghost var ns := Members(nodes);
      Bypass(n, k);
      MergeOut(n, n.next, ns, iters);
      assert ns - {n} == Members(nodes);
    }

    /** Put a node into the spine behind node k. */
    method Splice(n: SNode, after: SNode, ghost k: nat)
      requires Spine() && k < |nodes| - 1 && after == nodes[k] && n !in nodes
      modifies nodes`next, nodes`prev, n`next, n`prev, this`nodes
      ensures Spine() && nodes == old(nodes)[..k + 1] + [n] + old(nodes)[k + 1..]
    {
      var z := after.next;
      assert z == nodes[k + 1];
      n.next, n.prev, after.next, z.prev := z, after, n, n;
      ghost var c := nodes;
      nodes := c[..k + 1] + [n] + c[k + 1..];
      assert forall j :: 0 <= j < |nodes| ==> nodes[j] == if j <= k then c[j] else if j == k + 1 then n else c[j - 1];
    }

    /** s_insert_node; s_add_head and s_add_tail insert behind the head and before the tail. */
    method Insert(n: SNode, after: SNode, ghost k: nat)
      requires Valid() && k < |nodes| - 1 && after == nodes[k] && n !in nodes
      modifies this`nodes, nodes`next, nodes`prev, n
      ensures Valid() && nodes == old(nodes)[..k + 1] + [n] + old(nodes)[k + 1..]
    {
      ghost var ns := Members(nodes);
      Empty(n, ns, iters);
      Splice(n, after, k);
      assert ns + {n} == Members(nodes);
    }

    /** Put the nodes of l before the tail.  For an empty l the last node is read
        back from l itself, and the link just made is undone. */
    method Join(l: SList)
      requires l != this && Spine() && l.Spine() && forall n :: n in nodes ==> n !in l.nodes
      modifies nodes`next, nodes`prev, l.nodes`next, l.nodes`prev, this`nodes
      ensures Spine() && nodes == Appended(old(nodes), l.nodes)
    {
      ghost var c, d := nodes, l.nodes;
      var p, q := tail.prev, l.head.next;
      assert p == c[|c| - 2] && q == d[1];
      p.next := q;
      q.prev := p;
      q := l.tail.prev;
      assert q == if |d| == 2 then p else d[|d| - 2];
      q.next := tail;
      tail.prev := q;
      assert p in c && tail in c && d[|d| - 2] in d && d[1] in d;
      forall j, k | 0 <= j < k < |c| - 1 && k == j + 1 ensures c[j].next == c[k] && c[k].prev == c[j] {
        assert c[j] in c && c[k] in c;
      }
      forall j, k | 1 <= j < k < |d| - 1 && k == j + 1 ensures d[j].next == d[k] && d[k].prev == d[j] {
        assert d[j] in d && d[k] in d;
      }
      assert |d| > 2 ==> p.next == d[1] && d[1].prev == p && d[|d| - 2].next == tail && tail.prev == d[|d| - 2];
      AppendedDistinct(c, d);
      AppendedLinks(c, d);
      nodes := Appended(c, d);
    }

    /** s_add_tail_list: the nodes of l follow, iterators at its end move to the end
        of this list; l must be initialised again before it is used. */
    method AddTailList(l: SList)
      requires l != this && Valid() && l.Valid() && forall n :: n in nodes ==> n !in l.nodes
      modifies this`nodes, this`iters, nodes, l.nodes, iters, l.iters
      ensures Valid() && nodes == Appended(old(nodes), old(l.nodes)) && iters == old(iters) + old(l.iters)
      ensures forall i :: i in iters ==> i.owner == if old(i.owner) == l.tail then tail else old(i.owner)
    {
      Join(l);
      MoveEnd(l, old(nodes));
    }

    /** The iterators of l come to this list, those at its end to the end. */
    method MoveEnd(l: SList, ghost c: seq<SNode>)
      requires l != this && Spine() && Ends(c, head, tail) && Ends(l.nodes, l.head, l.tail) && l.head.chain == []
      requires (forall n :: n in c ==> n !in l.nodes) && nodes == Appended(c, l.nodes) && head.chain == []
      requires Chains(Members(c), iters) && Chains(Members(l.nodes), l.iters)
      modifies this`iters, l.tail`chain, tail`readers, tail`chain, iters, l.iters
      ensures Valid() && iters == old(iters) + l.iters
      ensures forall i :: i in iters ==> i.owner == if old(i.owner) == l.tail then tail else old(i.owner)
    {
      ghost var ns, ms := Members(c), Members(l.nodes);
      AppendedMembers(c, l.nodes, ns, ms);
      assert l.head in l.nodes && l.tail in l.nodes && tail in c && head in c;
      ghost var all := Members(nodes);
      assert all == ns + ms - {l.tail} - {l.head};
      MergeOver(l.tail, tail, l.head, ns, iters, ms, l.iters);
      iters := iters + l.iters;
    }
  }

  /** All iterators of n move to x, a node of another list, and h goes. */
  method MergeOver(n: SNode, x: SNode, ghost h: SNode,
                   ghost ns: set<SNode>, ghost its: set<Iterator>, ghost ms: set<SNode>, ghost jts: set<Iterator>)
    requires Chains(ns, its) && Chains(ms, jts) && n in ms && x in ns && x !in ms && h != n && h != x && h.chain == []
    modifies n`chain, x`readers, x`chain, its, jts
    ensures Chains(ns + ms - {n} - {h}, its + jts)
    ensures forall i :: i in its + jts ==> i.owner == if old(i.owner) == n then x else old(i.owner)
    ensures forall m :: m in ns && m != x && m !in ms ==> m.chain == old(m.chain)
  {
    BothChains(ns, its, ms, jts);
    MergeOut(n, x, ns + ms, its + jts);
    FewerChains(ns + ms - {n}, its + jts, h);
  }

  ghost predicate Ends(c: seq<SNode>, head: SNode, tail: SNode) {
    |c| >= 2 && Distinct(c) && c[0] == head && c[|c| - 1] == tail
  }

  ghost predicate Distinct(c: seq<SNode>) { forall j, k :: 0 <= j < k < |c| ==> c[j] != c[k] }

  lemma AppendedDistinct(c: seq<SNode>, d: seq<SNode>)
    requires |c| >= 2 && |d| >= 2 && Distinct(c) && Distinct(d) && forall n :: n in c ==> n !in d
    ensures Distinct(Appended(c, d))
  {
    var r := Appended(c, d);
    forall j, k | 0 <= j < k < |r| ensures r[j] != r[k] {
      assert c[|c| - 1] in c && (j < |c| - 1 ==> r[j] in c) && (|c| - 1 <= k < |r| - 1 ==> r[k] in d);
    }
  }

  /** Links within both lists and at their ends give the links of the appended list. */
  lemma AppendedLinks(c: seq<SNode>, d: seq<SNode>)
    requires |c| >= 2 && |d| >= 2
    requires forall j, k :: 0 <= j < k < |c| - 1 && k == j + 1 ==> c[j].next == c[k] && c[k].prev == c[j]
    requires forall j, k :: 1 <= j < k < |d| - 1 && k == j + 1 ==> d[j].next == d[k] && d[k].prev == d[j]
    requires var p, z := c[|c| - 2], c[|c| - 1];
      if |d| == 2 then p.next == z && z.prev == p
      else p.next == d[1] && d[1].prev == p && d[|d| - 2].next == z && z.prev == d[|d| - 2]
    ensures var r := Appended(c, d);
      forall j, k :: 0 <= j < k < |r| && k == j + 1 ==> r[j].next == r[k] && r[k].prev == r[j]
  {
  }

  lemma AppendedMembers(c: seq<SNode>, d: seq<SNode>, ns: set<SNode>, ms: set<SNode>)
    requires |c| >= 2 && |d| >= 2 && Distinct(c) && Distinct(d) && (forall n :: n in c ==> n !in d)
    requires ns == Members(c) && ms == Members(d)
    ensures Members(Appended(c, d)) == ns + ms - {d[|d| - 1]} - {d[0]}
  {
    var r := Appended(c, d);
    forall n ensures n in r <==> n in ns + ms - {d[|d| - 1]} - {d[0]} {
      if n in c {
        var k :| 0 <= k < |c| && c[k] == n;
        assert r[if k < |c| - 1 then k else |r| - 1] == n;
      } else if n in d && n != d[0] && n != d[|d| - 1] {
        var k :| 0 <= k < |d| && d[k] == n;
        assert r[|c| - 2 + k] == n;
      }
    }
  }

  lemma FewerChains(ns: set<SNode>, its: set<Iterator>, n: SNode)
    requires Chains(ns, its) && n.chain == []
    ensures Chains(ns - {n}, its)
  {
  }

  lemma BothChains(ns: set<SNode>, its: set<Iterator>, ms: set<SNode>, jts: set<Iterator>)
    requires Chains(ns, its) && Chains(ms, jts)
    ensures Chains(ns + ms, its + jts)
  {
  }

  /** The nodes of two lists between one pair of sentinels. */
  ghost function Appended(c: seq<SNode>, d: seq<SNode>): (r: seq<SNode>)
    requires |c| >= 2 && |d| >= 2
    ensures |r| == |c| + |d| - 2
    ensures forall j :: 0 <= j < |r| ==>
      r[j] == if j < |c| - 1 then c[j] else if j < |r| - 1 then d[j - |c| + 2] else c[|c| - 1]
  {
    c[..|c| - 1] + d[1..|d| - 1] + [c[|c| - 1]]
  }

  lemma DropMembers(c: seq<Iterator>, k: nat)
    requires k < |c| && NoRepeat(c)
    ensures forall j :: j in Drop(c, k) <==> j in c && j != c[k]
  {
    var d := Drop(c, k);
    forall j ensures j in d <==> j in c && j != c[k] {
      if j in c && j != c[k] {
        var p :| 0 <= p < |c| && c[p] == j;
        assert d[if p < k then p else p - 1] == j;
      }
    }
  }
}
