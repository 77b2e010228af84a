/** The resumable trie walk (trie_walk_init, trie_walk_next).

    `Below` lists, in the order of the walk, what is found at a position of a
    node and under it; `After` lists what remains once that position is done.
    The walk itself is a machine with a stack of nodes.  It is proved to return
    the head of the remaining list and to leave the rest; for tries of explicit
    prefixes that list is exactly the stored subnets in lexicographic order.
 */
module TrieWalk {
  import opened Prefix
  import opened TrieTree
  import opened TriePattern
  import opened Trie

  /** A prefix returned by the walk. */
  datatype Out = Out(px: Addr, len: nat)

  /** Level of a local position: 0 for 1, 1 for 2-3, 2 for 4-7, 3 for 8-15. */
  function Level(pos: nat): (x: nat)
    requires 1 <= pos < 16
    ensures x < STEP && Pow2(x) <= pos < 2 * Pow2(x)
  {
    Bit(pos >= 2) + Bit(pos >= 4) + Bit(pos >= 8)
  }

  /** The prefix at a local position. */
  function LocalOut(plen: nat, addr: Addr, pos: nat): Out
    requires 1 <= pos < 16 && plen <= WIDTH && (pos == 1 || plen + STEP <= WIDTH)
  {
    var x := Level(pos);
    var y := pos - Pow2(x);
    Out(if x == 0 then addr else SetBits(addr, plen + x - 1, y), plen + x)
  }

  /** The accepted superprefixes of t of lengths len and more, then the rest. */
  function Accepted(t: Tree, len: nat, rest: seq<Out>): seq<Out>
    requires t.Node? && t.plen <= WIDTH
    decreases t.plen - len
  {
    if len >= t.plen then rest
    else if len >= 1 && len - 1 in t.accept then [Out(Masked(t.addr, len), len)] + Accepted(t, len + 1, rest)
    else Accepted(t, len + 1, rest)
  }

  /** The prefix at a local position, if it is in the set, then the rest. */
  function Here(t: Tree, pos: nat, rest: seq<Out>): seq<Out>
    requires t.Node? && Valid(t) && 1 <= pos < 16
  {
    if pos in t.local then RoomIf(t); [LocalOut(t.plen, t.addr, pos)] + rest else rest
  }

  /** What the walk finds at position pos of t and under it, then the rest; the
      positions 16-31 are the children. */
  function Under(t: Tree, pos: nat, rest: seq<Out>): seq<Out>
    requires t.Node? && Valid(t) && 1 <= pos < 32
    decreases t, 32 - pos
  {
    if pos >= 16 then
      if t.c[pos - 16].Nil? then rest
      else Accepted(t.c[pos - 16], t.plen + STEP, Under(t.c[pos - 16], 1, rest))
    else
      Here(t, pos, Under(t, 2 * pos, Under(t, 2 * pos + 1, rest)))
  }

  lemma RoomIf(t: Tree)
    requires t.Node? && Valid(t)
    ensures t.plen < WIDTH ==> t.plen + STEP <= WIDTH
  {
    if t.plen < WIDTH { RoomBelow(t.plen); }
  }

  /** The stack of the walk: each node is a child of the one before it. */
  ghost predicate ValidStack(stack: seq<Tree>) {
    && |stack| >= 1
    && (forall i :: 0 <= i < |stack| ==> stack[i].Node? && Valid(stack[i]))
    && (forall i :: 0 < i < |stack| ==> IsChild(stack[i - 1], stack[i]))
  }

  ghost predicate IsChild(p: Tree, t: Tree)
    requires p.Node? && Valid(p) && t.Node?
  {
    p.plen + STEP <= t.plen <= WIDTH && p.c[GetBits(t.addr, p.plen, STEP)] == t
  }

  /** Position of a child in its parent. */
  function SlotPos(p: Tree, t: Tree): (r: nat)
    requires p.Node? && t.Node? && p.plen + STEP <= WIDTH
    ensures 16 <= r < 32
  {
    16 + GetBits(t.addr, p.plen, STEP)
  }

  /** pos is start or lies under it. */
  predicate Within(start: nat, pos: nat) {
    pos == start || (pos > start && Within(start, pos / 2))
  }

  /** What is left to walk when position pos of the top node is done. */
  ghost function After(stack: seq<Tree>, start: nat, pos: nat): seq<Out>
    requires ValidStack(stack) && 1 <= start && 1 <= pos < 32
    decreases |stack|, pos
  {
    var t := stack[|stack| - 1];
    if |stack| == 1 && pos == start then []
    else if pos == 1 then
      if |stack| == 1 then []
      else After(stack[..|stack| - 1], start, SlotPos(stack[|stack| - 2], t))
    else if pos % 2 == 0 then Under(t, pos + 1, After(stack, start, pos / 2))
    else After(stack, start, pos / 2)
  }

  /** All that is left in a state of the walk. */
  ghost function Left(stack: seq<Tree>, start: nat, pos: nat, len: nat): seq<Out>
    requires ValidStack(stack) && 1 <= start && 1 <= pos < 32
  {
    var t := stack[|stack| - 1];
    Accepted(t, len, Under(t, pos, After(stack, start, pos)))
  }

  /** In the bottom node of the stack the walk stays under its start position. */
  ghost predicate InPlace(stack: seq<Tree>, start: nat, pos: nat)
    requires ValidStack(stack)
  {
    && 1 <= start < 16 && 1 <= pos < 32
    && (if |stack| == 1 then Within(start, pos)
        else assert IsChild(stack[0], stack[1]); Within(start, SlotPos(stack[0], stack[1])))
  }

  lemma {:induction false} WithinGrows(start: nat, pos: nat)
    requires Within(start, pos)
    ensures start <= pos
    ensures pos >= 1 ==> Within(start, 2 * pos) && Within(start, 2 * pos + 1)
  {}

  /** Stepping down from a local position. */
  lemma StepDownLeft(stack: seq<Tree>, start: nat, pos: nat, len: nat)
    requires ValidStack(stack) && InPlace(stack, start, pos) && pos < 16
    requires len >= stack[|stack| - 1].plen
    ensures InPlace(stack, start, 2 * pos)
    ensures Left(stack, start, pos, len) == Here(stack[|stack| - 1], pos, Left(stack, start, 2 * pos, len))
  {
    StepDownAfter(stack, start, pos);
    AcceptedNone(stack[|stack| - 1], len, Under(stack[|stack| - 1], pos, After(stack, start, pos)));
    AcceptedNone(stack[|stack| - 1], len, Under(stack[|stack| - 1], 2 * pos, After(stack, start, 2 * pos)));
    UnderSplit(stack[|stack| - 1], pos, After(stack, start, pos));
  }

  lemma AcceptedNone(t: Tree, len: nat, rest: seq<Out>)
    requires t.Node? && t.plen <= WIDTH && t.plen <= len
    ensures Accepted(t, len, rest) == rest
  {
  }

  lemma UnderSplit(t: Tree, pos: nat, rest: seq<Out>)
    requires t.Node? && Valid(t) && 1 <= pos < 16
    ensures Under(t, pos, rest) == Here(t, pos, Under(t, 2 * pos, Under(t, 2 * pos + 1, rest)))
  {
  }

  lemma StepDownAfter(stack: seq<Tree>, start: nat, pos: nat)
    requires ValidStack(stack) && InPlace(stack, start, pos) && pos < 16
    ensures InPlace(stack, start, 2 * pos)
    ensures After(stack, start, 2 * pos) == Under(stack[|stack| - 1], 2 * pos + 1, After(stack, start, pos))
  {
    if |stack| == 1 { WithinGrows(start, pos); }
    AfterEven(stack, start, pos, 2 * pos);
  }

  lemma AfterEven(stack: seq<Tree>, start: nat, pos: nat, q: nat)
    requires ValidStack(stack) && 1 <= start && 1 <= pos < 16 && !(|stack| == 1 && q == start)
    requires q == 2 * pos && q % 2 == 0 && q / 2 == pos
    ensures After(stack, start, q) == Under(stack[|stack| - 1], q + 1, After(stack, start, pos))
  {
  }

  /** Moving to a child. */
  lemma EnterLeft(stack: seq<Tree>, start: nat, pos: nat, len: nat)
    requires ValidStack(stack) && InPlace(stack, start, pos) && pos >= 16
    requires len >= stack[|stack| - 1].plen && stack[|stack| - 1].c[pos - 16].Node?
    ensures ValidStack(stack + [stack[|stack| - 1].c[pos - 16]])
    ensures InPlace(stack + [stack[|stack| - 1].c[pos - 16]], start, 1)
    ensures Left(stack, start, pos, len) ==
            Left(stack + [stack[|stack| - 1].c[pos - 16]], start, 1, stack[|stack| - 1].plen + STEP)
  {
    var t := stack[|stack| - 1];
    var child := t.c[pos - 16];
    assert ValidChild(t, pos - 16, child) && Valid(child);
    var stack' := stack + [child];
    assert stack'[..|stack|] == stack;
    assert ValidStack(stack');
    assert After(stack', start, 1) == After(stack, start, pos);
  }

  // ---- Termination of the walk ----

  /** Number of positions at and under position pos of t. */
  ghost function WorkUnder(t: Tree, pos: nat): (r: nat)
    requires t.Node? && Valid(t) && 1 <= pos < 32
    ensures r >= 1
    decreases t, 32 - pos
  {
    if pos < 16 then 1 + WorkUnder(t, 2 * pos) + WorkUnder(t, 2 * pos + 1)
    else if t.c[pos - 16].Nil? then 1
    else 1 + WorkUnder(t.c[pos - 16], 1)
  }

  /** Number of positions to visit when position pos of the top node is done. */
  ghost function WorkAfter(stack: seq<Tree>, start: nat, pos: nat): nat
    requires ValidStack(stack) && 1 <= start && 1 <= pos < 32
    decreases |stack|, pos
  {
    var t := stack[|stack| - 1];
    if |stack| == 1 && pos == start then 0
    else if pos == 1 then
      if |stack| == 1 then 0
      else WorkAfter(stack[..|stack| - 1], start, SlotPos(stack[|stack| - 2], t))
    else if pos % 2 == 0 then WorkUnder(t, pos + 1) + WorkAfter(stack, start, pos / 2)
    else WorkAfter(stack, start, pos / 2)
  }

  ghost function Work(stack: seq<Tree>, start: nat, pos: nat): nat
    requires ValidStack(stack) && 1 <= start && 1 <= pos < 32
  {
    WorkUnder(stack[|stack| - 1], pos) + WorkAfter(stack, start, pos)
  }

  lemma StepDownWork(stack: seq<Tree>, start: nat, pos: nat)
    requires ValidStack(stack) && InPlace(stack, start, pos) && pos < 16
    ensures Work(stack, start, 2 * pos) < Work(stack, start, pos)
  {
    if |stack| == 1 { WithinGrows(start, pos); }
    assert WorkAfter(stack, start, 2 * pos) ==
           WorkUnder(stack[|stack| - 1], 2 * pos + 1) + WorkAfter(stack, start, pos);
  }

  lemma EnterWork(stack: seq<Tree>, start: nat, pos: nat, child: Tree)
    requires ValidStack(stack) && InPlace(stack, start, pos) && pos >= 16
    requires child == stack[|stack| - 1].c[pos - 16] && child.Node? && ValidStack(stack + [child])
    ensures Work(stack + [child], start, 1) < Work(stack, start, pos)
  {
    var t := stack[|stack| - 1];
    assert ValidChild(t, pos - 16, child);
    var stack' := stack + [child];
    assert stack'[..|stack|] == stack;
    assert WorkAfter(stack', start, 1) == WorkAfter(stack, start, pos);
  }

  /** One round of stepping up: from pos (not the start) to its parent position. */
  lemma UpRound(stack: seq<Tree>, start: nat, pos: nat)
    requires ValidStack(stack) && InPlace(stack, start, pos) && pos > 1 && !(|stack| == 1 && pos == start)
    ensures InPlace(stack, start, pos / 2)
    ensures pos % 2 == 1 ==>
              && After(stack, start, pos) == After(stack, start, pos / 2)
              && WorkAfter(stack, start, pos) == WorkAfter(stack, start, pos / 2)
    ensures pos % 2 == 0 ==>
              && InPlace(stack, start, pos + 1)
              && After(stack, start, pos) == Under(stack[|stack| - 1], pos + 1, After(stack, start, pos + 1))
              && WorkAfter(stack, start, pos) == Work(stack, start, pos + 1)
  {
    if pos % 2 == 0 {
      assert (pos + 1) / 2 == pos / 2 && (pos + 1) % 2 == 1;
      if |stack| == 1 {
        WithinGrows(start, pos / 2);
      }
      assert After(stack, start, pos + 1) == After(stack, start, pos / 2);
      assert WorkAfter(stack, start, pos + 1) == WorkAfter(stack, start, pos / 2);
    }
  }

  /** At the top of a node that is not the bottom one: back to the parent. */
  lemma PopRound(stack: seq<Tree>, start: nat)
    requires ValidStack(stack) && InPlace(stack, start, 1) && |stack| > 1
    ensures ValidStack(stack[..|stack| - 1])
    ensures IsChild(stack[|stack| - 2], stack[|stack| - 1])
    ensures var p := SlotPos(stack[|stack| - 2], stack[|stack| - 1]);
            && InPlace(stack[..|stack| - 1], start, p)
            && After(stack, start, 1) == After(stack[..|stack| - 1], start, p)
            && WorkAfter(stack, start, 1) == WorkAfter(stack[..|stack| - 1], start, p)
  {
    assert IsChild(stack[|stack| - 2], stack[|stack| - 1]);
  }

  /** Stepping up from (stack0, pos0) has come to (stack, pos), which is done. */
  ghost predicate UpTo(stack0: seq<Tree>, pos0: nat, stack: seq<Tree>, pos: nat, start: nat)
    requires ValidStack(stack0) && 1 <= pos0 < 32
  {
    && ValidStack(stack) && InPlace(stack, start, pos)
    && After(stack0, start, pos0) == After(stack, start, pos)
    && WorkAfter(stack0, start, pos0) == WorkAfter(stack, start, pos)
  }

  /** The walk goes on at (stack, pos) once (stack0, pos0) is done. */
  ghost predicate GoesOn(stack0: seq<Tree>, pos0: nat, stack: seq<Tree>, pos: nat, start: nat)
    requires ValidStack(stack0) && 1 <= pos0 < 32
  {
    && ValidStack(stack) && InPlace(stack, start, pos)
    && After(stack0, start, pos0) == Under(stack[|stack| - 1], pos, After(stack, start, pos))
    && WorkAfter(stack0, start, pos0) == Work(stack, start, pos)
  }

  lemma UpOne(stack0: seq<Tree>, pos0: nat, stack: seq<Tree>, pos: nat, start: nat)
    requires ValidStack(stack0) && 1 <= pos0 < 32 && UpTo(stack0, pos0, stack, pos, start)
    requires pos > 1 && !(|stack| == 1 && pos == start)
    ensures pos % 2 == 1 ==> UpTo(stack0, pos0, stack, pos / 2, start)
    ensures pos % 2 == 0 ==> GoesOn(stack0, pos0, stack, 2 * (pos / 2) + 1, start)
  {
    UpRound(stack, start, pos);
    assert pos % 2 == 0 ==> 2 * (pos / 2) + 1 == pos + 1;
  }

  lemma UpPop(stack0: seq<Tree>, pos0: nat, stack: seq<Tree>, start: nat)
    requires ValidStack(stack0) && 1 <= pos0 < 32 && UpTo(stack0, pos0, stack, 1, start)
    requires !(|stack| == 1 && start == 1)
    ensures |stack| > 1 && IsChild(stack[|stack| - 2], stack[|stack| - 1])
    ensures UpTo(stack0, pos0, stack[..|stack| - 1], SlotPos(stack[|stack| - 2], stack[|stack| - 1]), start)
  {
    if |stack| > 1 { PopRound(stack, start); }
  }

  /** At the bottom of a node without a child in this slot. */
  lemma UpLeft(stack: seq<Tree>, start: nat, pos: nat, len: nat, stack': seq<Tree>, pos': nat, len': nat, ended: bool)
    requires ValidStack(stack) && InPlace(stack, start, pos) && pos >= 16
    requires len >= stack[|stack| - 1].plen && stack[|stack| - 1].c[pos - 16].Nil?
    requires if ended then After(stack, start, pos) == []
             else GoesOn(stack, pos, stack', pos', start) && len' >= stack'[|stack'| - 1].plen
    ensures ended ==> Left(stack, start, pos, len) == []
    ensures !ended ==> Left(stack', start, pos', len') == Left(stack, start, pos, len)
    ensures !ended ==> Work(stack', start, pos') < Work(stack, start, pos)
  {}

  /** The whole walk over the subnets of a/pxlen, from the node t down. */
  ghost function SubWalk(t: Tree, a: Addr, pxlen: nat): seq<Out>
    requires Valid(t) && pxlen <= WIDTH
    decreases t
  {
    if t.Nil? || !Agree(a, t.addr, Min(pxlen, t.plen)) then []
    else if t.plen == RoundDown(pxlen) then Under(t, LocalPos(a, pxlen, t.plen), [])
    else if t.plen > RoundDown(pxlen) then Accepted(t, pxlen, Under(t, 1, []))
    else StepApart(t.plen, RoundDown(pxlen)); SubWalk(t.c[GetBits(a, t.plen, STEP)], a, pxlen)
  }

  /** Node lengths grow by a step at least, so that 33 entries suffice. */
  lemma {:induction false} StackDepth(stack: seq<Tree>, i: nat)
    requires ValidStack(stack) && i < |stack|
    ensures STEP * i <= stack[i].plen <= WIDTH
  {
    if i > 0 {
      StackDepth(stack, i - 1);
      assert IsChild(stack[i - 1], stack[i]);
    }
  }

  // ---- The walk over linked nodes ----

  const STACK_LENGTH := 33

  /** The nodes on the stack show the trees. */
  ghost predicate Shows(ns: seq<TrieNode>, ts: seq<Tree>)
    reads ns
  {
    |ns| == |ts| && forall i :: 0 <= i < |ns| ==> ns[i].Mirrors() && ns[i].tree == ts[i]
  }

  /** n is the node linked in its slot of p. */
  ghost predicate Hangs(p: TrieNode, n: TrieNode)
    reads p
  {
    |p.c| == 16 && p.plen + STEP <= WIDTH && p.c[GetBits(n.addr, p.plen, STEP)] == n
  }

  /** Nodes of the trie that show the trees, each linked in the one before it. */
  ghost predicate OnPath(ns: seq<TrieNode>, ts: seq<Tree>, nodes: set<TrieNode>)
    reads ns
  {
    && (forall n :: n in ns ==> n in nodes) && Shows(ns, ts)
    && forall i :: 0 < i < |ns| ==> Hangs(ns[i - 1], ns[i])
  }

  /** A walk in the trie has come to position pos and length len of its top node. */
  ghost predicate Walks(trie: PrefixTrie, ns: seq<TrieNode>, s: seq<Tree>, start: nat, pos: nat, len: nat)
    reads trie`nodes, trie.nodes, ns
  {
    && OnPath(ns, s, trie.nodes) && |ns| <= STACK_LENGTH
    && ValidStack(s) && InPlace(s, start, pos)
    && (len == 0 ==> s[|s| - 1].plen == 0)
  }

  class WalkState {
    ghost const trie: PrefixTrie
    var acceptLength: nat
    var startPos: nat
    var localPos: nat
    var stack: seq<TrieNode>  // empty when the walk has ended
    ghost var trees: seq<Tree>
    /** What the walk has still to return. */
    ghost var ahead: seq<Out>

    /** trie_walk_init without a subnet: the full walk. */
    constructor (t: PrefixTrie)
      requires t.Shape()
      ensures trie == t && Valid() && ahead == Under(t.root.tree, 1, [])
    {
      trie := t;
      acceptLength, startPos, localPos := 0, 1, 1;
      stack, trees := [t.root], [t.root.tree];
      ahead := Under(t.root.tree, 1, []);
    }

    /** trie_walk_init with a subnet px/pxlen. */
    constructor In(t: PrefixTrie, px: Addr, pxlen: nat)
      requires t.Shape() && pxlen <= WIDTH
      ensures trie == t && Valid() && ahead == SubWalk(t.root.tree, px, pxlen)
    {
      trie := t;
      ahead := SubWalk(t.root.tree, px, pxlen);
      var n, pos, len := FindStart(t, px, pxlen);
      if n == null {
        acceptLength, startPos, localPos, stack, trees := 0, 1, 1, [], [];
      } else {
        acceptLength, startPos, localPos, stack, trees := len, pos, pos, [n], [n.tree];
      }
    }

    /** Find the node at or below px/pxlen and the starting position in it. */
    static method FindStart(t: PrefixTrie, px: Addr, pxlen: nat) returns (n: TrieNode?, pos: nat, len: nat)
      requires t.Shape() && pxlen <= WIDTH
      ensures n == null ==> SubWalk(t.root.tree, px, pxlen) == []
      ensures n != null ==> Walks(t, [n], [n.tree], pos, pos, len)
      ensures n != null ==> Left([n.tree], pos, pos, len) == SubWalk(t.root.tree, px, pxlen)
    {
      var plen := RoundDown(pxlen);
      n := t.root;
      pos, len := 1, 0;
      while n != null
        invariant n != null ==> n in t.nodes && TrieTree.Valid(n.tree)
        invariant SubWalk(t.root.tree, px, pxlen) == SubWalk(TreeOf(n), px, pxlen)
        invariant n == t.root || plen > 0
        decreases if n == null then 0 else WIDTH + 1 - n.plen
      {
        if !Agree(px, n.addr, Min(pxlen, n.plen)) {
          return null, pos, len;
        }
        if n.plen >= plen {
          if n.plen == plen {
            pos := LocalPos(px, pxlen, plen);
            len := plen;
          } else {
            len := pxlen;
          }
          return;
        }
        StepApart(n.plen, plen);
        ghost var k := GetBits(px, n.plen, STEP);
        t.ChildLinks(n, k);
        assert ValidChild(n.tree, k, n.tree.c[k]);
        n := n.c[GetBits(px, n.plen, STEP)];
      }
    }

    ghost predicate Valid()
      reads this, trie, trie.nodes, stack
    {
      if stack == [] then ahead == []
      else Walks(trie, stack, trees, startPos, localPos, acceptLength) &&
           ahead == Left(trees, startPos, localPos, acceptLength)
    }

    /** Check the accept mask of the node n from length len on. */
    static method NextAccepted(n: TrieNode, len0: nat, ghost rest: seq<Out>) returns (hit: bool, out: Out, len: nat)
      requires n.Mirrors() && TrieTree.Valid(n.tree) && (len0 == 0 ==> n.plen == 0)
      ensures len0 <= len
      ensures hit ==> len <= n.plen && Accepted(n.tree, len0, rest) == [out] + Accepted(n.tree, len, rest) && len >= 1
      ensures !hit ==> len >= n.plen && Accepted(n.tree, len0, rest) == rest
    {
      len := len0;
      out := Out(n.addr, 0);
      while len < n.plen
        invariant len0 <= len && (len == 0 ==> n.plen == 0)
        invariant Accepted(n.tree, len0, rest) == Accepted(n.tree, len, rest)
      {
        if len - 1 in n.accept {
          return true, Out(Masked(n.addr, len), len), len + 1;
        }
        len := len + 1;
      }
      hit := false;
    }

    /** Move from the top of a node back to its parent, whose child in the slot
        computed is the very node left. */
    static method Pop(ns0: seq<TrieNode>, start: nat, ghost s1: seq<Tree>, ghost s0: seq<Tree>, ghost pos0: nat,
                      ghost nodes: set<TrieNode>)
      returns (ns: seq<TrieNode>, pos: nat, ghost s: seq<Tree>)
      requires OnPath(ns0, s1, nodes) && ValidStack(s0) && 1 <= pos0 < 32 && UpTo(s0, pos0, s1, 1, start)
      requires !(|ns0| == 1 && start == 1)
      ensures 0 < |ns| == |ns0| - 1 && OnPath(ns, s, nodes) && UpTo(s0, pos0, s, pos, start) && 16 <= pos < 32
      ensures |ns[|ns| - 1].c| == 16 && ns[|ns| - 1].c[pos - 16] == ns0[|ns0| - 1]
    {
      UpPop(s0, pos0, s1, start);
      var from := ns0[|ns0| - 1];
      ns := ns0[..|ns0| - 1];
      s := s1[..|s1| - 1];
      assert Hangs(ns[|ns| - 1], from);
      pos := 16 + GetBits(from.addr, ns[|ns| - 1].plen, STEP);
    }

    /** One round of stepping up, through the top of a node if need be. */
    static method UpRoundStep(ns0: seq<TrieNode>, start: nat, p: nat, ghost s1: seq<Tree>, ghost s0: seq<Tree>,
                              ghost pos0: nat, ghost nodes: set<TrieNode>)
      returns (ns: seq<TrieNode>, pos: nat, dir: nat, ghost s: seq<Tree>)
      requires OnPath(ns0, s1, nodes) && ValidStack(s0) && 1 <= pos0 < 32 && UpTo(s0, pos0, s1, p, start)
      requires !(|ns0| == 1 && p == start)
      ensures OnPath(ns, s, nodes) && dir < 2 && |ns| > 0
      ensures |ns| < |ns0| || (|ns| == |ns0| && pos < p)
      ensures if dir != 0 then UpTo(s0, pos0, s, pos, start) else GoesOn(s0, pos0, s, 2 * pos + 1, start)
    {
      ns, pos, s := ns0, p, s1;
      if pos == 1 {
        ns, pos, s := Pop(ns, start, s, s0, pos0, nodes);
      }
      UpOne(s0, pos0, s, pos, start);
      dir := pos % 2;
      pos := pos / 2;
    }

    /** Step up until return from a left child, and on to the right sibling. */
    static method StepUp(ns0: seq<TrieNode>, start: nat, pos0: nat, ghost s0: seq<Tree>, ghost nodes: set<TrieNode>)
      returns (ns: seq<TrieNode>, pos: nat, ended: bool, ghost s: seq<Tree>)
      requires OnPath(ns0, s0, nodes) && ValidStack(s0) && InPlace(s0, start, pos0)
      ensures |ns| <= |ns0| && OnPath(ns, s, nodes)
      ensures ended ==> After(s0, start, pos0) == []
      ensures !ended ==> GoesOn(s0, pos0, s, pos, start)
    {
      ns, pos, s := ns0, pos0, s0;
      var dir: nat := 1;
      while dir != 0
        invariant |ns| <= |ns0| && OnPath(ns, s, nodes)
        invariant if dir != 0 then UpTo(s0, pos0, s, pos, start) else GoesOn(s0, pos0, s, 2 * pos + 1, start)
        decreases |ns|, pos
      {
        if |ns| == 1 && pos == start {
          return ns, pos, true, s;
        }
        ns, pos, dir, s := UpRoundStep(ns, start, pos, s, s0, pos0, nodes);
      }
      pos := 2 * pos + 1;
      ended := false;
    }

    /** Bottom of a node: go to the child in this slot, or step up. */
    static method Bottom(ns0: seq<TrieNode>, start: nat, pos0: nat, len0: nat, ghost s0: seq<Tree>,
                         ghost trie: PrefixTrie)
      returns (ns: seq<TrieNode>, pos: nat, len: nat, ended: bool, ghost s: seq<Tree>)
      requires trie.Shape() && Walks(trie, ns0, s0, start, pos0, len0) && pos0 >= 16
      requires len0 >= s0[|s0| - 1].plen
      ensures ended ==> Left(s0, start, pos0, len0) == []
      ensures !ended ==> Walks(trie, ns, s, start, pos, len)
      ensures !ended ==> Left(s, start, pos, len) == Left(s0, start, pos0, len0)
      ensures !ended ==> Work(s, start, pos) < Work(s0, start, pos0)
    {
      var n := ns0[|ns0| - 1];
      trie.ChildLinks(n, pos0 - 16);
      var child := n.c[pos0 - 16];
      if child == null {
        ns, pos, ended, s := StepUp(ns0, start, pos0, s0, trie.nodes);
        len := if ended then len0 else ns[|ns| - 1].plen;
        UpLeft(s0, start, pos0, len0, s, pos, len, ended);
      } else {
        ns, pos, len, ended := ns0 + [child], 1, n.plen + STEP, false;
        s := Entered(ns0, child, start, pos0, len0, s0, trie);
      }
    }

    /** The walk with a child on the stack has the same output ahead. */
    static lemma Entered(ns: seq<TrieNode>, child: TrieNode, start: nat, pos: nat, len: nat, s: seq<Tree>,
                         trie: PrefixTrie)
      returns (s': seq<Tree>)
      requires trie.Shape() && Walks(trie, ns, s, start, pos, len) && 16 <= pos && len >= s[|s| - 1].plen
      requires |ns[|ns| - 1].c| == 16 && child == ns[|ns| - 1].c[pos - 16]
      ensures Walks(trie, ns + [child], s', start, 1, ns[|ns| - 1].plen + STEP)
      ensures Left(s', start, 1, ns[|ns| - 1].plen + STEP) == Left(s, start, pos, len)
      ensures Work(s', start, 1) < Work(s, start, pos)
    {
      s' := s + [child.tree];
      trie.ChildLinks(ns[|ns| - 1], pos - 16);
      EnterLeft(s, start, pos, len);
      EnterWork(s, start, pos, child.tree);
      StackDepth(s', |s'| - 1);
      EnteredPath(ns, child, pos, s, trie.nodes);
    }

    static lemma EnteredPath(ns: seq<TrieNode>, child: TrieNode, pos: nat, s: seq<Tree>, nodes: set<TrieNode>)
      requires OnPath(ns, s, nodes) && child in nodes && child.Mirrors() && 16 <= pos < 32 && ns != []
      requires TrieTree.Valid(s[|s| - 1])
      requires child == ns[|ns| - 1].c[pos - 16] && child.tree == ns[|ns| - 1].tree.c[pos - 16]
      ensures OnPath(ns + [child], s + [child.tree], nodes)
    {
      var n := ns[|ns| - 1];
      assert ValidChild(n.tree, pos - 16, child.tree);
      assert Hangs(n, child);
    }

    /** Check a local position and step down from it. */
    static method Local(ns: seq<TrieNode>, start: nat, pos0: nat, len: nat, ghost s: seq<Tree>, ghost trie: PrefixTrie)
      returns (ok: bool, out: Out, pos: nat)
      requires trie.Shape() && Walks(trie, ns, s, start, pos0, len) && pos0 < 16 && len >= s[|s| - 1].plen
      ensures Walks(trie, ns, s, start, pos, len) && Work(s, start, pos) < Work(s, start, pos0)
      ensures ok ==> Left(s, start, pos0, len) == [out] + Left(s, start, pos, len)
      ensures !ok ==> Left(s, start, pos0, len) == Left(s, start, pos, len)
    {
      var n := ns[|ns| - 1];
      StepDownLeft(s, start, pos0, len);
      StepDownWork(s, start, pos0);
      ok, out, pos := pos0 in n.local, Out(n.addr, 0), 2 * pos0;
      if ok {
        RoomIf(n.tree);
        out := LocalOut(n.plen, n.addr, pos0);
      }
    }

    /** One round of the search, after the accept mask has been checked. */
    static method Round(ns0: seq<TrieNode>, start: nat, pos0: nat, len0: nat, ghost s0: seq<Tree>,
                        ghost trie: PrefixTrie)
      returns (ok: bool, out: Out, ended: bool, ns: seq<TrieNode>, pos: nat, len: nat, ghost s: seq<Tree>)
      requires trie.Shape() && Walks(trie, ns0, s0, start, pos0, len0) && len0 >= s0[|s0| - 1].plen
      ensures ended ==> !ok && Left(s0, start, pos0, len0) == []
      ensures !ended ==> Walks(trie, ns, s, start, pos, len) && Work(s, start, pos) < Work(s0, start, pos0)
      ensures !ended ==> Left(s0, start, pos0, len0) == (if ok then [out] else []) + Left(s, start, pos, len)
    {
      ok, out := false, Out(ns0[|ns0| - 1].addr, 0);
      if pos0 >= 16 {
        ns, pos, len, ended, s := Bottom(ns0, start, pos0, len0, s0, trie);
      } else {
        ns, len, ended, s := ns0, len0, false, s0;
        ok, out, pos := Local(ns0, start, pos0, len0, s0, trie);
      }
    }

    /** The search of trie_walk_next for the next prefix. */
    static method Find(ns0: seq<TrieNode>, start: nat, pos0: nat, len0: nat, ghost s0: seq<Tree>,
                       ghost trie: PrefixTrie)
      returns (ok: bool, out: Out, ns: seq<TrieNode>, pos: nat, len: nat, ghost s: seq<Tree>)
      requires trie.Shape() && Walks(trie, ns0, s0, start, pos0, len0)
      ensures ok ==> Walks(trie, ns, s, start, pos, len)
      ensures ok ==> Left(s0, start, pos0, len0) == [out] + Left(s, start, pos, len)
      ensures !ok ==> Left(s0, start, pos0, len0) == []
    {
      ns, pos, len, s := ns0, pos0, len0, s0;
      ghost var left := Left(s0, start, pos0, len0);
      while true
        invariant Walks(trie, ns, s, start, pos, len) && left == Left(s, start, pos, len)
        decreases Work(s, start, pos)
      {
        ok, out, len := NextAccepted(ns[|ns| - 1], len, Under(s[|s| - 1], pos, After(s, start, pos)));
        if ok {
          return;
        }
        assert left == Left(s, start, pos, len);
        var ended;
        ok, out, ended, ns, pos, len, s := Round(ns, start, pos, len, s, trie);
        if ok || ended {
          return;
        }
      }
    }

    /** trie_walk_next */
    method Next() returns (ok: bool, out: Out)
      requires trie.Shape() && Valid()
      modifies this
      ensures Valid()
      ensures ok ==> old(ahead) == [out] + ahead
      ensures !ok ==> old(ahead) == [] && ahead == []
    {
      if stack == [] {
        return false, Out(seq(128, i => false), 0);
      }
      var ns, pos, len;
      ghost var s;
      ok, out, ns, pos, len, s := Find(stack, startPos, localPos, acceptLength, trees, trie);
      if ok {
        Resume(ns, s, pos, len);
      } else {
        stack, trees, ahead := [], [], [];
      }
    }

    /** Store the state of the walk. */
    method Resume(ns: seq<TrieNode>, ghost s: seq<Tree>, pos: nat, len: nat)
      requires ns != [] && Walks(trie, ns, s, startPos, pos, len)
      modifies this`stack, this`trees, this`localPos, this`acceptLength, this`ahead
      ensures Valid() && ahead == Left(s, startPos, pos, len)
    {
      stack, trees, localPos, acceptLength, ahead := ns, s, pos, len, Left(s, startPos, pos, len);
    }
  }
}
