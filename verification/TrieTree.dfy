/** The prefix-set trie as a value (filter/trie.c).

    `Tree` is the shape of the linked nodes, `Insert` the effect of
    trie_add_node, `Match` the walk of trie_match_net.  The main theorem says
    that an insertion adds exactly the prefixes the inserted node stands for.
 */
module TrieTree {
  import opened Prefix

  datatype Tree =
    | Nil
    | Node(plen: nat, addr: Addr, accept: set<nat>, local: set<nat>, c: seq<Tree>)

  /** What trie_add_node puts into the trie: a node px/plen with its masks. */
  datatype Item = Item(plen: nat, px: Addr, amask: set<nat>, local: set<nat>)

  function NoChildren(): (r: seq<Tree>)
    ensures |r| == 16 && forall k :: 0 <= k < 16 ==> r[k] == Nil
  {
    seq(16, i => Nil)
  }

  /** Local positions are 1..15; a node of full length has only its own prefix. */
  ghost predicate LocalRange(local: set<nat>, plen: nat) {
    forall p :: p in local ==> 1 <= p < 16 && (p == 1 || plen < WIDTH)
  }

  ghost predicate ValidItem(x: Item) {
    && x.plen <= WIDTH && Aligned(x.plen)
    && Clear(x.px, x.plen)
    && (forall b :: b in x.amask ==> b < WIDTH)
    && LocalRange(x.local, x.plen)
  }

  /** A child hangs in the slot its address names, strictly below its parent. */
  ghost predicate InSlot(plen: nat, addr: Addr, k: nat, t: Tree)
    requires t.Node?
  {
    && plen + STEP <= t.plen <= WIDTH
    && Agree(addr, t.addr, plen)
    && GetBits(t.addr, plen, STEP) == k
  }

  /** A child's accept mask is propagated to its parent's accept and local masks. */
  ghost predicate Propagated(p: Tree, t: Tree)
    requires p.Node? && t.Node? && p.plen + STEP <= t.plen <= WIDTH
  {
    && (forall b :: b in t.accept && b < p.plen ==> b in p.accept)
    && (forall len :: Max(p.plen, 1) <= len < p.plen + STEP && len - 1 in t.accept ==>
                        LocalPos(t.addr, len, p.plen) in p.local)
  }

  ghost predicate ValidFields(t: Tree)
    requires t.Node?
  {
    && t.plen <= WIDTH && Aligned(t.plen)
    && Clear(t.addr, t.plen)
    && |t.c| == 16
    && (forall b :: b in t.accept ==> b < WIDTH)
    && LocalRange(t.local, t.plen)
  }

  ghost predicate ValidChild(t: Tree, k: nat, child: Tree)
    requires t.Node?
  {
    child.Node? ==> InSlot(t.plen, t.addr, k, child) && Propagated(t, child)
  }

  ghost predicate Valid(t: Tree) {
    t.Node? ==>
      && ValidFields(t)
      && (forall k :: 0 <= k < 16 ==> Valid(t.c[k]))
      && (forall k :: 0 <= k < 16 ==> ValidChild(t, k, t.c[k]))
  }

  /** The local position of the prefix px/len if amask accepts its length. */
  function LocalOf(px: Addr, amask: set<nat>, len: nat, nlen: nat): set<nat>
    requires nlen <= len < nlen + STEP && len <= WIDTH
  {
    if 1 <= len && len - 1 in amask then {LocalPos(px, len, nlen)} else {}
  }

  /** trie_amask_to_local: the local positions of the prefixes of px accepted by
      amask in the range of a node of length nlen. */
  function AmaskToLocal(px: Addr, amask: set<nat>, nlen: nat): (r: set<nat>)
    requires nlen + STEP <= WIDTH
    ensures forall p :: p in r ==> 1 <= p < 16
  {
    LocalOf(px, amask, nlen, nlen) + LocalOf(px, amask, nlen + 1, nlen) +
    LocalOf(px, amask, nlen + 2, nlen) + LocalOf(px, amask, nlen + 3, nlen)
  }

  function Leaf(x: Item): Tree {
    Node(x.plen, x.px, x.amask, x.local, NoChildren())
  }

  /** Length of the branching node between px and addr (case 1). */
  function BranchLen(x: Item, t: Tree): (r: nat)
    requires t.Node? && x.plen <= WIDTH && t.plen <= WIDTH && Aligned(x.plen) && Aligned(t.plen)
    requires !Agree(x.px, t.addr, Min(x.plen, t.plen))
    ensures BranchPoint(x, t, r)
  {
    StepApart(RoundDown(PxLen(x.px, t.addr)), Min(x.plen, t.plen));
    GetBitsEqual(x.px, t.addr, RoundDown(PxLen(x.px, t.addr)), STEP);
    RoundDown(PxLen(x.px, t.addr))
  }

  ghost predicate BranchPoint(x: Item, t: Tree, blen: nat)
    requires t.Node?
  {
    && Aligned(blen) && blen + STEP <= x.plen <= WIDTH && blen + STEP <= t.plen <= WIDTH
    && Agree(x.px, t.addr, blen)
    && GetBits(x.px, blen, STEP) != GetBits(t.addr, blen, STEP)
  }

  /** Case 1: a branching node above the old node and a new leaf. */
  function Branch(x: Item, t: Tree, blen: nat): (n: Tree)
    requires t.Node? && BranchPoint(x, t, blen)
    ensures n.Node?
  {
    Node(blen, Masked(x.px, blen), Below(x.amask + t.accept, blen),
         AmaskToLocal(t.addr, t.accept, blen) + AmaskToLocal(x.px, x.amask, blen),
         NoChildren()[GetBits(t.addr, blen, STEP) := t][GetBits(x.px, blen, STEP) := Leaf(x)])
  }

  /** Case 2: a new node just above the old one. */
  function Above(x: Item, t: Tree): Tree
    requires t.Node? && ValidItem(x) && Valid(t)
    requires x.plen + STEP <= t.plen
  {
    Node(x.plen, x.px, x.amask + Below(t.accept, x.plen),
         x.local + AmaskToLocal(t.addr, t.accept, x.plen),
         NoChildren()[GetBits(t.addr, x.plen, STEP) := t])
  }

  /** A node the insertion passes through, with the new child r below it. */
  function Pass(x: Item, t: Tree, r: Tree): (n: Tree)
    requires t.Node? && |t.c| == 16 && t.plen + STEP <= WIDTH
    ensures n.Node?
  {
    Node(t.plen, t.addr, t.accept + Below(x.amask, t.plen),
         t.local + AmaskToLocal(x.px, x.amask, t.plen),
         t.c[GetBits(x.px, t.plen, STEP) := r])
  }

  /** trie_add_node from the node t down. */
  function Insert(x: Item, t: Tree): Tree
    requires ValidItem(x) && Valid(t)
    decreases t
  {
    if t.Nil? then Leaf(x)
    else if !Agree(x.px, t.addr, Min(x.plen, t.plen)) then Branch(x, t, BranchLen(x, t))
    else if x.plen < t.plen then StepApart(x.plen, t.plen); Above(x, t)
    else if x.plen == t.plen then t.(accept := t.accept + x.amask, local := t.local + x.local)
    else
      StepApart(t.plen, x.plen);
      Pass(x, t, Insert(x, t.c[GetBits(x.px, t.plen, STEP)]))
  }

  /** Does trie_add_node count a new prefix? */
  predicate AddsNew(x: Item, t: Tree)
    requires ValidItem(x) && Valid(t)
    decreases t
  {
    t.Nil? || !Agree(x.px, t.addr, Min(x.plen, t.plen)) || x.plen < t.plen ||
    if x.plen == t.plen then !(x.local <= t.local)
    else (StepApart(t.plen, x.plen); AddsNew(x, t.c[GetBits(x.px, t.plen, STEP)]))
  }

  /** trie_match_net from the node t down: is the prefix a/len accepted? */
  predicate Match(t: Tree, a: Addr, len: nat)
    requires Valid(t) && 1 <= len <= WIDTH
    decreases t
  {
    t.Node? &&
    Agree(a, t.addr, Min(len, t.plen)) &&
    ( || (t.plen == RoundDown(len) && LocalPos(a, len, t.plen) in t.local)
      || len - 1 in t.accept
      || (t.plen < RoundDown(len) && (StepApart(t.plen, RoundDown(len)); Match(t.c[GetBits(a, t.plen, STEP)], a, len))))
  }

  /** The prefixes an inserted node stands for: by its accept mask all sub- and
      superprefixes of the given lengths, by its local mask single ones. */
  ghost predicate Hits(x: Item, a: Addr, len: nat)
    requires ValidItem(x) && 1 <= len <= WIDTH
  {
    || (len - 1 in x.amask && Agree(a, x.px, Min(len, x.plen)))
    || (x.plen == RoundDown(len) && Agree(a, x.px, x.plen) && LocalPos(a, len, x.plen) in x.local)
  }

  lemma AmaskToLocalIn(px: Addr, amask: set<nat>, nlen: nat, len: nat)
    requires nlen + STEP <= WIDTH && Max(nlen, 1) <= len < nlen + STEP && len - 1 in amask
    ensures LocalPos(px, len, nlen) in AmaskToLocal(px, amask, nlen)
  {
    assert LocalPos(px, len, nlen) in LocalOf(px, amask, len, nlen);
  }

  lemma LocalOfHas(px: Addr, amask: set<nat>, l: nat, nlen: nat, a: Addr, len: nat)
    requires nlen <= l < nlen + STEP && nlen <= len < nlen + STEP && l <= WIDTH && 1 <= len <= WIDTH
    requires Agree(a, px, nlen)
    ensures LocalPos(a, len, nlen) in LocalOf(px, amask, l, nlen) <==>
            l == len && len - 1 in amask && Agree(a, px, len)
  {
    LocalPosEqual(a, len, px, l, nlen);
  }

  lemma AmaskToLocalHas(px: Addr, amask: set<nat>, nlen: nat, a: Addr, len: nat)
    requires nlen == RoundDown(len) && 1 <= len <= WIDTH && nlen + STEP <= WIDTH
    requires Agree(a, px, nlen)
    ensures LocalPos(a, len, nlen) in AmaskToLocal(px, amask, nlen) <==> len - 1 in amask && Agree(a, px, len)
  {
    LocalOfHas(px, amask, nlen, nlen, a, len);
    LocalOfHas(px, amask, nlen + 1, nlen, a, len);
    LocalOfHas(px, amask, nlen + 2, nlen, a, len);
    LocalOfHas(px, amask, nlen + 3, nlen, a, len);
  }

  // ---- Insertion keeps the trie valid ----

  /** What the parent of an insertion point needs to know about the new child. */
  ghost predicate GrownFrom(x: Item, t: Tree, r: Tree, plen: nat, addr: Addr, k: nat)
  {
    && r.Node? && InSlot(plen, addr, k, r)
    && (forall b :: b in r.accept ==> b in x.amask || (t.Node? && b in t.accept))
  }

  /** A node takes over the accept mask of a child it is put above. */
  lemma PutAbove(n: Tree, t: Tree)
    requires n.Node? && ValidFields(n) && t.Node? && Valid(t)
    requires n.plen + STEP <= t.plen && Agree(n.addr, t.addr, n.plen)
    requires Below(t.accept, n.plen) <= n.accept
    requires AmaskToLocal(t.addr, t.accept, n.plen) <= n.local
    ensures ValidChild(n, GetBits(t.addr, n.plen, STEP), t)
  {
    forall len | Max(n.plen, 1) <= len < n.plen + STEP && len - 1 in t.accept
      ensures LocalPos(t.addr, len, n.plen) in n.local
    {
      AmaskToLocalIn(t.addr, t.accept, n.plen, len);
    }
    forall b | b in t.accept && b < n.plen ensures b in n.accept {
      assert b in Below(t.accept, n.plen);
    }
  }

  lemma LeafValid(x: Item)
    requires ValidItem(x)
    ensures Valid(Leaf(x))
  {
  }

  lemma BranchValid(x: Item, t: Tree, blen: nat)
    requires t.Node? && ValidItem(x) && Valid(t) && BranchPoint(x, t, blen)
    ensures Valid(Branch(x, t, blen))
  {
    var r := Branch(x, t, blen);
    var kt, kx := GetBits(t.addr, blen, STEP), GetBits(x.px, blen, STEP);
    LeafValid(x);
    PutAbove(r, t);
    PutAbove(r, Leaf(x));
    forall k | 0 <= k < 16 ensures Valid(r.c[k]) && ValidChild(r, k, r.c[k]) {
      assert r.c[k] == if k == kx then Leaf(x) else if k == kt then t else Nil;
    }
  }

  lemma AboveValid(x: Item, t: Tree)
    requires t.Node? && ValidItem(x) && Valid(t)
    requires x.plen + STEP <= t.plen && Agree(x.px, t.addr, x.plen)
    ensures Valid(Above(x, t))
  {
    var r := Above(x, t);
    PutAbove(r, t);
    forall k | 0 <= k < 16 ensures Valid(r.c[k]) && ValidChild(r, k, r.c[k]) {
      assert r.c[k] == if k == GetBits(t.addr, x.plen, STEP) then t else Nil;
    }
  }

  lemma BranchInSlot(x: Item, t: Tree, blen: nat, plen: nat, addr: Addr)
    requires t.Node? && BranchPoint(x, t, blen)
    requires Aligned(plen) && plen + STEP <= x.plen && Agree(addr, x.px, plen)
    requires InSlot(plen, addr, GetBits(x.px, plen, STEP), t)
    ensures InSlot(plen, addr, GetBits(x.px, plen, STEP), Branch(x, t, blen))
  {
    GetBitsEqual(x.px, t.addr, plen, STEP);
    GetBitsEqual(x.px, t.addr, blen, STEP);
    if plen < blen { StepApart(plen, blen); }
    GetBitsEqual(x.px, Masked(x.px, blen), plen, STEP);
  }

  /** What an out-of-path insertion puts in the place of t. */
  lemma BranchStep(x: Item, t: Tree, plen: nat, addr: Addr) returns (blen: nat)
    requires ValidItem(x) && t.Node? && Valid(t) && !Agree(x.px, t.addr, Min(x.plen, t.plen))
    requires Aligned(plen) && plen + STEP <= x.plen && Agree(addr, x.px, plen)
    requires InSlot(plen, addr, GetBits(x.px, plen, STEP), t)
    ensures blen == RoundDown(PxLen(x.px, t.addr)) && blen + STEP <= WIDTH
    ensures GetBits(Masked(x.px, blen), plen, STEP) == GetBits(x.px, plen, STEP)
    ensures Insert(x, t) ==
            Node(blen, Masked(x.px, blen), Below(x.amask + t.accept, blen),
                 AmaskToLocal(t.addr, t.accept, blen) + AmaskToLocal(x.px, x.amask, blen),
                 NoChildren()[GetBits(t.addr, blen, STEP) := t][GetBits(x.px, blen, STEP) := Leaf(x)])
  {
    blen := BranchLen(x, t);
    BranchInSlot(x, t, blen, plen, addr);
  }

  /** The node replacing the child in slot k still hangs in slot k, and accepts
      nothing beyond the old child and the inserted item. */
  lemma InsertGrows(x: Item, t: Tree, plen: nat, addr: Addr, k: nat)
    requires ValidItem(x) && Valid(t)
    requires Aligned(plen) && plen + STEP <= x.plen && Agree(addr, x.px, plen)
    requires GetBits(x.px, plen, STEP) == k
    requires t.Node? ==> InSlot(plen, addr, k, t)
    ensures GrownFrom(x, t, Insert(x, t), plen, addr, k)
  {
    if t.Nil? {
    } else if !Agree(x.px, t.addr, Min(x.plen, t.plen)) {
      BranchInSlot(x, t, BranchLen(x, t), plen, addr);
    } else if x.plen < t.plen {
      StepApart(x.plen, t.plen);
      assert Insert(x, t) == Above(x, t);
    } else if x.plen > t.plen {
      StepApart(t.plen, x.plen);
      assert Insert(x, t) == Pass(x, t, Insert(x, t.c[GetBits(x.px, t.plen, STEP)]));
    }
  }

  lemma PassValid(x: Item, t: Tree, r: Tree)
    requires ValidItem(x) && Valid(t) && t.Node? && t.plen + STEP <= x.plen
    requires Agree(x.px, t.addr, t.plen) && Valid(r)
    requires GrownFrom(x, t.c[GetBits(x.px, t.plen, STEP)], r, t.plen, t.addr, GetBits(x.px, t.plen, STEP))
    ensures Valid(Pass(x, t, r))
  {
    var k := GetBits(x.px, t.plen, STEP);
    var n := Pass(x, t, r);
    GetBitsEqual(x.px, r.addr, t.plen, STEP);
    forall len | Max(t.plen, 1) <= len < t.plen + STEP && len - 1 in r.accept
      ensures LocalPos(r.addr, len, t.plen) in n.local
    {
      if len - 1 in x.amask {
        LocalPosEqual(r.addr, len, x.px, len, t.plen);
        AmaskToLocalIn(x.px, x.amask, t.plen, len);
      } else {
        GetBitsEqual(x.px, t.c[k].addr, t.plen, STEP);
        LocalPosEqual(r.addr, len, t.c[k].addr, len, t.plen);
      }
    }
    forall j | 0 <= j < 16 ensures Valid(n.c[j]) && ValidChild(n, j, n.c[j]) {
      assert n.c[j] == if j == k then r else t.c[j];
      assert ValidChild(t, j, t.c[j]);
    }
  }

  lemma {:induction false} InsertValid(x: Item, t: Tree)
    requires ValidItem(x) && Valid(t)
    ensures Valid(Insert(x, t))
    decreases t, 1
  {
    if t.Nil? {
      LeafValid(x);
    } else if !Agree(x.px, t.addr, Min(x.plen, t.plen)) {
      BranchValid(x, t, BranchLen(x, t));
    } else if x.plen < t.plen {
      StepApart(x.plen, t.plen);
      AboveValid(x, t);
    } else if x.plen > t.plen {
      StepApart(t.plen, x.plen);
      var k := GetBits(x.px, t.plen, STEP);
      InsertValid(x, t.c[k]);
      InsertGrows(x, t.c[k], t.plen, t.addr, k);
      PassValid(x, t, Insert(x, t.c[k]));
    }
  }

  // ---- Insertion adds exactly the item's prefixes ----

  /** For lengths above the node's range only the accept mask decides. */
  lemma MatchShort(t: Tree, a: Addr, len: nat)
    requires t.Node? && Valid(t) && 1 <= len <= WIDTH && RoundDown(len) < t.plen
    ensures len < t.plen && (Match(t, a, len) <==> Agree(a, t.addr, len) && len - 1 in t.accept)
  {
    StepApart(RoundDown(len), t.plen);
  }

  lemma HitsShort(x: Item, a: Addr, len: nat)
    requires ValidItem(x) && 1 <= len <= WIDTH && RoundDown(len) < x.plen
    ensures Hits(x, a, len) <==> Agree(a, x.px, len) && len - 1 in x.amask
  {
    StepApart(RoundDown(len), x.plen);
  }

  lemma LeafMatch(x: Item, a: Addr, len: nat)
    requires ValidItem(x) && 1 <= len <= WIDTH
    ensures Valid(Leaf(x)) && (Match(Leaf(x), a, len) <==> Hits(x, a, len))
  {
    LeafValid(x);
  }

  /** Two addresses in one slot of a node agree on all of its range. */
  lemma SlotAgree(a: Addr, b: Addr, plen: nat)
    requires plen + STEP <= WIDTH
    ensures Agree(a, b, plen) && GetBits(a, plen, STEP) == GetBits(b, plen, STEP) <==> Agree(a, b, plen + STEP)
  {
    GetBitsEqual(a, b, plen, STEP);
  }

  lemma BranchMatchShort(x: Item, t: Tree, blen: nat, a: Addr, len: nat)
    requires t.Node? && ValidItem(x) && Valid(t) && BranchPoint(x, t, blen) && 1 <= len <= WIDTH
    requires Valid(Branch(x, t, blen)) && RoundDown(len) <= blen
    ensures Match(Branch(x, t, blen), a, len) <==> Match(t, a, len) || Hits(x, a, len)
  {
    if RoundDown(len) < blen {
      MatchShort(t, a, len);
      HitsShort(x, a, len);
      MatchShort(Branch(x, t, blen), a, len);
    } else {
      BranchMatchAt(x, t, blen, a, len);
    }
  }

  lemma BranchMatchAt(x: Item, t: Tree, blen: nat, a: Addr, len: nat)
    requires t.Node? && ValidItem(x) && Valid(t) && BranchPoint(x, t, blen) && 1 <= len <= WIDTH
    requires Valid(Branch(x, t, blen)) && RoundDown(len) == blen
    ensures Match(Branch(x, t, blen), a, len) <==> Match(t, a, len) || Hits(x, a, len)
  {
    MatchShort(t, a, len);
    HitsShort(x, a, len);
    if Agree(a, x.px, blen) {
      AmaskToLocalHas(t.addr, t.accept, blen, a, len);
      AmaskToLocalHas(x.px, x.amask, blen, a, len);
    }
  }

  lemma BranchMatch(x: Item, t: Tree, blen: nat, a: Addr, len: nat)
    requires t.Node? && ValidItem(x) && Valid(t) && BranchPoint(x, t, blen) && 1 <= len <= WIDTH
    ensures Valid(Branch(x, t, blen))
    ensures Match(Branch(x, t, blen), a, len) <==> Match(t, a, len) || Hits(x, a, len)
  {
    BranchValid(x, t, blen);
    if RoundDown(len) <= blen {
      BranchMatchShort(x, t, blen, a, len);
    } else {
      BranchMatchLong(x, t, blen, a, len);
    }
  }

  lemma BranchMatchLong(x: Item, t: Tree, blen: nat, a: Addr, len: nat)
    requires t.Node? && ValidItem(x) && Valid(t) && BranchPoint(x, t, blen) && 1 <= len <= WIDTH
    requires Valid(Branch(x, t, blen)) && blen < RoundDown(len)
    ensures Match(Branch(x, t, blen), a, len) <==> Match(t, a, len) || Hits(x, a, len)
  {
    var b := Branch(x, t, blen);
    StepApart(blen, RoundDown(len));
    LeafMatch(x, a, len);
    SlotAgree(a, x.px, blen);
    SlotAgree(a, t.addr, blen);
    var k := GetBits(a, blen, STEP);
    assert b.c[k] == if k == GetBits(x.px, blen, STEP) then Leaf(x)
                     else if k == GetBits(t.addr, blen, STEP) then t else Nil;
  }

  lemma AboveMatch(x: Item, t: Tree, a: Addr, len: nat)
    requires t.Node? && ValidItem(x) && Valid(t) && 1 <= len <= WIDTH
    requires x.plen + STEP <= t.plen && Agree(x.px, t.addr, x.plen)
    ensures Valid(Above(x, t))
    ensures Match(Above(x, t), a, len) <==> Match(t, a, len) || Hits(x, a, len)
  {
    AboveValid(x, t);
    var r := Above(x, t);
    if RoundDown(len) <= x.plen {
      MatchShort(t, a, len);
      if RoundDown(len) == x.plen {
        if Agree(a, x.px, x.plen) {
          AmaskToLocalHas(t.addr, t.accept, x.plen, a, len);
        }
      } else {
        HitsShort(x, a, len);
        MatchShort(r, a, len);
      }
    } else {
      StepApart(x.plen, RoundDown(len));
      SlotAgree(a, t.addr, x.plen);
    }
  }

  lemma PassMatch(x: Item, t: Tree, r: Tree, a: Addr, len: nat)
    requires t.Node? && ValidItem(x) && Valid(t) && 1 <= len <= WIDTH
    requires t.plen + STEP <= x.plen && Agree(x.px, t.addr, t.plen)
    requires Valid(r) && Valid(Pass(x, t, r))
    requires Match(r, a, len) <==> Match(t.c[GetBits(x.px, t.plen, STEP)], a, len) || Hits(x, a, len)
    ensures Match(Pass(x, t, r), a, len) <==> Match(t, a, len) || Hits(x, a, len)
  {
    if RoundDown(len) <= t.plen {
      HitsShort(x, a, len);
      if RoundDown(len) < t.plen {
        MatchShort(t, a, len);
        MatchShort(Pass(x, t, r), a, len);
      } else if Agree(a, x.px, t.plen) {
        AmaskToLocalHas(x.px, x.amask, t.plen, a, len);
      }
    } else {
      StepApart(t.plen, RoundDown(len));
      SlotAgree(a, x.px, t.plen);
    }
  }

  /** The main theorem of the trie: after trie_add_node the trie accepts a
      prefix iff it accepted it before or the added node stands for it. */
  lemma {:induction false} InsertMatch(x: Item, t: Tree, a: Addr, len: nat)
    requires ValidItem(x) && Valid(t) && 1 <= len <= WIDTH
    ensures Valid(Insert(x, t))
    ensures Match(Insert(x, t), a, len) <==> Match(t, a, len) || Hits(x, a, len)
    decreases t
  {
    InsertValid(x, t);
    if t.Nil? {
      LeafMatch(x, a, len);
    } else if !Agree(x.px, t.addr, Min(x.plen, t.plen)) {
      BranchMatch(x, t, BranchLen(x, t), a, len);
    } else if x.plen < t.plen {
      StepApart(x.plen, t.plen);
      AboveMatch(x, t, a, len);
    } else if x.plen > t.plen {
      StepApart(t.plen, x.plen);
      var k := GetBits(x.px, t.plen, STEP);
      InsertMatch(x, t.c[k], a, len);
      PassMatch(x, t, Insert(x, t.c[k]), a, len);
    }
  }

  // ---- Several insertions ----

  ghost predicate ValidItems(xs: seq<Item>) {
    forall i :: 0 <= i < |xs| ==> ValidItem(xs[i])
  }

  ghost function InsertAll(xs: seq<Item>, t: Tree): (r: Tree)
    requires ValidItems(xs) && Valid(t)
    ensures Valid(r)
  {
    if xs == [] then t
    else
      var r := InsertAll(xs[..|xs| - 1], t);
      InsertValid(xs[|xs| - 1], r);
      Insert(xs[|xs| - 1], r)
  }

  lemma InsertAllMore(xs: seq<Item>, x: Item, t: Tree)
    requires ValidItems(xs) && ValidItem(x) && Valid(t)
    ensures InsertAll(xs + [x], t) == Insert(x, InsertAll(xs, t))
  {
    assert (xs + [x])[..|xs|] == xs;
  }

  lemma InsertAllOne(xs: seq<Item>, t: Tree)
    requires ValidItems(xs) && |xs| == 1 && Valid(t)
    ensures InsertAll(xs, t) == Insert(xs[0], t)
  {
    assert InsertAll(xs[..0], t) == t;
  }

  lemma LastApart<T>(xs: seq<T>, ys: seq<T>)
    requires ys != []
    ensures ys == ys[..|ys| - 1] + [ys[|ys| - 1]] && xs + ys == (xs + ys[..|ys| - 1]) + [ys[|ys| - 1]]
  {
  }

  lemma {:induction false} InsertAllConcat(xs: seq<Item>, ys: seq<Item>, t: Tree)
    requires ValidItems(xs) && ValidItems(ys) && Valid(t)
    ensures InsertAll(xs + ys, t) == InsertAll(ys, InsertAll(xs, t))
  {
    if ys == [] {
      assert xs + ys == xs;
    } else {
      var n := |ys| - 1;
      var zs, y := ys[..n], ys[n];
      LastApart(xs, ys);
      InsertAllConcat(xs, zs, t);
      InsertAllMore(xs + zs, y, t);
      InsertAllMore(zs, y, InsertAll(xs, t));
    }
  }

  ghost predicate AnyHits(xs: seq<Item>, a: Addr, len: nat)
    requires ValidItems(xs) && 1 <= len <= WIDTH
  {
    exists i :: 0 <= i < |xs| && Hits(xs[i], a, len)
  }

  lemma AnyHitsConcat(xs: seq<Item>, ys: seq<Item>, a: Addr, len: nat)
    requires ValidItems(xs) && ValidItems(ys) && 1 <= len <= WIDTH
    ensures ValidItems(xs + ys)
    ensures AnyHits(xs + ys, a, len) <==> AnyHits(xs, a, len) || AnyHits(ys, a, len)
  {
    var zs := xs + ys;
    if i :| 0 <= i < |xs| && Hits(xs[i], a, len) { assert Hits(zs[i], a, len); }
    if i :| 0 <= i < |ys| && Hits(ys[i], a, len) { assert Hits(zs[|xs| + i], a, len); }
    if i :| 0 <= i < |zs| && Hits(zs[i], a, len) {
      assert zs[i] == if i < |xs| then xs[i] else ys[i - |xs|];
    }
  }

  lemma {:induction false} InsertAllMatch(xs: seq<Item>, t: Tree, a: Addr, len: nat)
    requires ValidItems(xs) && Valid(t) && 1 <= len <= WIDTH
    ensures Match(InsertAll(xs, t), a, len) <==> Match(t, a, len) || AnyHits(xs, a, len)
  {
    if xs != [] {
      var n := |xs| - 1;
      InsertAllMatch(xs[..n], t, a, len);
      InsertMatch(xs[n], InsertAll(xs[..n], t), a, len);
      AnyHitsConcat(xs[..n], [xs[n]], a, len);
      assert xs == xs[..n] + [xs[n]];
      assert AnyHits([xs[n]], a, len) <==> Hits([xs[n]][0], a, len);
    }
  }
}
