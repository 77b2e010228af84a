/** Tries of explicit prefixes: every pattern has low == plen == high.

    In such a trie an accept mask holds at most the node's own length, so that
    the local masks alone say which prefixes are stored.  Longest-prefix match
    and the trie walk rely on this.
 */
module TrieExplicit {
  import opened Prefix
  import opened TrieTree
  import opened TriePattern

  ghost predicate ExplicitPattern(p: Pattern) {
    p.low == p.plen == p.high
  }

  ghost predicate ExplicitNode(t: Tree)
    requires t.Node?
  {
    forall b :: b in t.accept ==> b + 1 == t.plen
  }

  ghost predicate Explicit(t: Tree) {
    t.Node? ==> |t.c| == 16 && ExplicitNode(t) && forall k :: 0 <= k < 16 ==> Explicit(t.c[k])
  }

  /** An item for the single prefix px/len. */
  ghost predicate ExplicitItem(x: Item, px: Addr, len: nat) {
    && len <= WIDTH && x.plen == RoundDown(len) && x.px == Masked(px, x.plen)
    && x.local == {LocalPos(px, len, x.plen)}
    && (forall b :: b in x.amask ==> b + 1 == x.plen)
  }

  /** Is the prefix a/len marked in the local mask of its node? */
  predicate Stored(t: Tree, a: Addr, len: nat)
    requires Valid(t) && len <= WIDTH
    decreases t
  {
    t.Node? && t.plen <= RoundDown(len) && Agree(a, t.addr, t.plen) &&
    if t.plen == RoundDown(len) then LocalPos(a, len, t.plen) in t.local
    else (StepApart(t.plen, RoundDown(len)); Stored(t.c[GetBits(a, t.plen, STEP)], a, len))
  }

  /** Lengths below an explicit mask propagate nothing. */
  lemma NothingToPropagate(px: Addr, amask: set<nat>, plen: nat, nlen: nat)
    requires nlen + STEP <= plen <= WIDTH && forall b :: b in amask ==> b + 1 == plen
    ensures AmaskToLocal(px, amask, nlen) == {} && Below(amask, nlen) == {}
  {
  }

  /** An explicit pattern is encoded by one explicit item. */
  lemma ExplicitItems(p: Pattern)
    requires ValidPattern(p) && ExplicitPattern(p)
    ensures |PatternItems(p)| == 1 && ExplicitItem(PatternItems(p)[0], p.px, p.plen)
  {
    var nlen := RoundDown(p.plen);
    if Aligned(p.plen) {
      RoundDownIs(p.plen);
      assert Levels(p.plen, p.plen, p.plen) == {1};
    } else {
      RoomBelow(nlen);
      assert LowerItems(p) == [];
      assert Levels(nlen, p.plen, nlen) == {};
      assert PrimaryLocal(p.px, p.plen, nlen, p.plen, p.plen) == {LocalPos(p.px, p.plen, nlen)};
    }
  }

  // ---- Insertion of an explicit item ----

  lemma {:induction false} InsertExplicit(x: Item, px: Addr, len: nat, t: Tree)
    requires ValidItem(x) && ExplicitItem(x, px, len) && Valid(t) && Explicit(t)
    ensures Explicit(Insert(x, t))
    decreases t
  {
    if t.Nil? {
    } else if !Agree(x.px, t.addr, Min(x.plen, t.plen)) {
      var blen := BranchLen(x, t);
      var r := Branch(x, t, blen);
      forall k | 0 <= k < 16 ensures Explicit(r.c[k]) {
        assert r.c[k] ==
               if k == GetBits(x.px, blen, STEP) then Leaf(x) else if k == GetBits(t.addr, blen, STEP) then t else Nil;
      }
    } else if x.plen < t.plen {
      StepApart(x.plen, t.plen);
      NothingToPropagate(t.addr, t.accept, t.plen, x.plen);
      var r := Above(x, t);
      forall k | 0 <= k < 16 ensures Explicit(r.c[k]) {
        assert r.c[k] == if k == GetBits(t.addr, x.plen, STEP) then t else Nil;
      }
    } else if x.plen > t.plen {
      StepApart(t.plen, x.plen);
      NothingToPropagate(x.px, x.amask, x.plen, t.plen);
      InsertExplicit(x, px, len, t.c[GetBits(x.px, t.plen, STEP)]);
    }
  }

  /** Path compression: a node below the root stores a prefix or is a branching. */
  ghost predicate Compressed(t: Tree) {
    t.Node? ==>
      && |t.c| == 16 && (t.plen == 0 || t.local != {} || Forks(t))
      && forall k :: 0 <= k < 16 ==> Compressed(t.c[k])
  }

  ghost predicate Forks(t: Tree)
    requires t.Node? && |t.c| == 16
  {
    exists j, k :: 0 <= j < k < 16 && t.c[j].Node? && t.c[k].Node?
  }

  lemma {:induction false} InsertCompressed(x: Item, t: Tree)
    requires ValidItem(x) && x.local != {} && Valid(t) && Compressed(t)
    ensures Compressed(Insert(x, t))
    decreases t
  {
    if t.Nil? {
    } else if !Agree(x.px, t.addr, Min(x.plen, t.plen)) {
      BranchCompressed(x, t, BranchLen(x, t));
    } else if x.plen < t.plen {
      StepApart(x.plen, t.plen);
      AboveCompressed(x, t);
    } else if x.plen > t.plen {
      StepApart(t.plen, x.plen);
      var i := GetBits(x.px, t.plen, STEP);
      InsertCompressed(x, t.c[i]);
      PassCompressed(x, t, Insert(x, t.c[i]));
    }
  }

  lemma AboveCompressed(x: Item, t: Tree)
    requires ValidItem(x) && x.local != {} && t.Node? && Valid(t) && Compressed(t) && x.plen + STEP <= t.plen
    ensures Compressed(Above(x, t))
  {
    var r := Above(x, t);
    forall k | 0 <= k < 16 ensures Compressed(r.c[k]) {
      assert r.c[k] == if k == GetBits(t.addr, x.plen, STEP) then t else Nil;
    }
  }

  lemma PassCompressed(x: Item, t: Tree, r: Tree)
    requires t.Node? && |t.c| == 16 && t.plen + STEP <= WIDTH && Compressed(t) && r.Node? && Compressed(r)
    ensures Compressed(Pass(x, t, r))
  {
    var s := Pass(x, t, r);
    if t.local == {} && t.plen > 0 {
      var j, k :| 0 <= j < k < 16 && t.c[j].Node? && t.c[k].Node?;
      assert s.c[j].Node? && s.c[k].Node?;
    }
  }

  lemma BranchCompressed(x: Item, t: Tree, blen: nat)
    requires ValidItem(x) && x.local != {} && t.Node? && Compressed(t) && BranchPoint(x, t, blen)
    ensures Compressed(Branch(x, t, blen))
  {
    var r := Branch(x, t, blen);
    var i, j := GetBits(x.px, blen, STEP), GetBits(t.addr, blen, STEP);
    forall k | 0 <= k < 16 ensures Compressed(r.c[k]) {
      assert r.c[k] == if k == i then Leaf(x) else if k == j then t else Nil;
    }
    assert r.c[i].Node? && r.c[j].Node?;
    assert Forks(r);
  }

  lemma LeafStored(x: Item, px: Addr, len: nat, a: Addr, l: nat)
    requires ValidItem(x) && ExplicitItem(x, px, len) && l <= WIDTH
    ensures Valid(Leaf(x)) && (Stored(Leaf(x), a, l) <==> l == len && Agree(a, px, len))
  {
    LeafValid(x);
    if x.plen == RoundDown(l) {
      LocalPosEqual(a, l, px, len, x.plen);
    }
  }

  lemma BranchStored(x: Item, px: Addr, len: nat, t: Tree, blen: nat, a: Addr, l: nat)
    requires t.Node? && ValidItem(x) && ExplicitItem(x, px, len) && Valid(t) && Explicit(t)
    requires BranchPoint(x, t, blen) && l <= WIDTH
    ensures Valid(Branch(x, t, blen))
    ensures Stored(Branch(x, t, blen), a, l) <==> Stored(t, a, l) || (l == len && Agree(a, px, len))
  {
    BranchValid(x, t, blen);
    NothingToPropagate(t.addr, t.accept, t.plen, blen);
    NothingToPropagate(x.px, x.amask, x.plen, blen);
    if RoundDown(l) > blen {
      StepApart(blen, RoundDown(l));
      LeafStored(x, px, len, a, l);
      SlotAgree(a, x.px, blen);
      SlotAgree(a, t.addr, blen);
    }
  }

  lemma AboveStored(x: Item, px: Addr, len: nat, t: Tree, a: Addr, l: nat)
    requires t.Node? && ValidItem(x) && ExplicitItem(x, px, len) && Valid(t) && Explicit(t) && l <= WIDTH
    requires x.plen + STEP <= t.plen && Agree(x.px, t.addr, x.plen)
    ensures Valid(Above(x, t))
    ensures Stored(Above(x, t), a, l) <==> Stored(t, a, l) || (l == len && Agree(a, px, len))
  {
    AboveValid(x, t);
    NothingToPropagate(t.addr, t.accept, t.plen, x.plen);
    if RoundDown(l) == x.plen {
      LocalPosEqual(a, l, px, len, x.plen);
    } else if RoundDown(l) > x.plen {
      StepApart(x.plen, RoundDown(l));
      SlotAgree(a, t.addr, x.plen);
    }
  }

  lemma PassStored(x: Item, px: Addr, len: nat, t: Tree, r: Tree, a: Addr, l: nat)
    requires t.Node? && ValidItem(x) && ExplicitItem(x, px, len) && Valid(t) && l <= WIDTH
    requires t.plen + STEP <= x.plen && Agree(x.px, t.addr, t.plen)
    requires Valid(r) && Valid(Pass(x, t, r))
    requires Stored(r, a, l) <==> Stored(t.c[GetBits(x.px, t.plen, STEP)], a, l) || (l == len && Agree(a, px, len))
    ensures Stored(Pass(x, t, r), a, l) <==> Stored(t, a, l) || (l == len && Agree(a, px, len))
  {
    NothingToPropagate(x.px, x.amask, x.plen, t.plen);
    if RoundDown(l) > t.plen {
      StepApart(t.plen, RoundDown(l));
      SlotAgree(a, x.px, t.plen);
    }
  }

  /** Inserting px/len stores exactly that prefix in addition. */
  lemma {:induction false} InsertStored(x: Item, px: Addr, len: nat, t: Tree, a: Addr, l: nat)
    requires ValidItem(x) && ExplicitItem(x, px, len) && Valid(t) && Explicit(t) && l <= WIDTH
    ensures Valid(Insert(x, t))
    ensures Stored(Insert(x, t), a, l) <==> Stored(t, a, l) || (l == len && Agree(a, px, len))
    decreases t
  {
    InsertValid(x, t);
    if t.Nil? {
      LeafStored(x, px, len, a, l);
    } else if !Agree(x.px, t.addr, Min(x.plen, t.plen)) {
      BranchStored(x, px, len, t, BranchLen(x, t), a, l);
    } else if x.plen < t.plen {
      StepApart(x.plen, t.plen);
      AboveStored(x, px, len, t, a, l);
    } else if x.plen == t.plen {
      if RoundDown(l) == t.plen {
        LocalPosEqual(a, l, px, len, x.plen);
      }
    } else {
      StepApart(t.plen, x.plen);
      var k := GetBits(x.px, t.plen, STEP);
      InsertStored(x, px, len, t.c[k], a, l);
      PassStored(x, px, len, t, Insert(x, t.c[k]), a, l);
    }
  }

  /** A prefix is counted exactly when it was not stored yet. */
  lemma {:induction false} AddsNewIff(x: Item, px: Addr, len: nat, t: Tree)
    requires ValidItem(x) && ExplicitItem(x, px, len) && Valid(t)
    ensures AddsNew(x, t) <==> !Stored(t, px, len)
    decreases t
  {
    if t.Node? && Agree(x.px, t.addr, Min(x.plen, t.plen)) && t.plen < x.plen {
      StepApart(t.plen, x.plen);
      GetBitsEqual(x.px, px, t.plen, STEP);
      AddsNewIff(x, px, len, t.c[GetBits(x.px, t.plen, STEP)]);
    }
  }

  // ---- Node lengths ----

  /** No node is longer than w. */
  ghost predicate Fits(t: Tree, w: nat) {
    t.Node? ==> t.plen <= w && |t.c| == 16 && forall k :: 0 <= k < 16 ==> Fits(t.c[k], w)
  }

  lemma {:induction false} InsertFits(x: Item, t: Tree, w: nat)
    requires ValidItem(x) && Valid(t) && x.plen <= w && Fits(t, w)
    ensures Fits(Insert(x, t), w)
    decreases t
  {
    if t.Nil? {
    } else if !Agree(x.px, t.addr, Min(x.plen, t.plen)) {
      var blen := BranchLen(x, t);
      var r := Branch(x, t, blen);
      forall k | 0 <= k < 16 ensures Fits(r.c[k], w) {
        assert r.c[k] ==
               if k == GetBits(x.px, blen, STEP) then Leaf(x) else if k == GetBits(t.addr, blen, STEP) then t else Nil;
      }
    } else if x.plen < t.plen {
      StepApart(x.plen, t.plen);
      var r := Above(x, t);
      forall k | 0 <= k < 16 ensures Fits(r.c[k], w) {
        assert r.c[k] == if k == GetBits(t.addr, x.plen, STEP) then t else Nil;
      }
    } else if x.plen > t.plen {
      StepApart(t.plen, x.plen);
      InsertFits(x, t.c[GetBits(x.px, t.plen, STEP)], w);
    }
  }

  lemma {:induction false} InsertAllFits(xs: seq<Item>, t: Tree, w: nat)
    requires ValidItems(xs) && Valid(t) && Fits(t, w) && forall i :: 0 <= i < |xs| ==> xs[i].plen <= w
    ensures Fits(InsertAll(xs, t), w)
  {
    if xs != [] {
      var n := |xs| - 1;
      InsertAllFits(xs[..n], t, w);
      InsertFits(xs[n], InsertAll(xs[..n], t), w);
    }
  }

  lemma PatternItemsFit(p: Pattern, w: nat)
    requires ValidPattern(p) && p.plen <= w && p.high <= w
    ensures forall i :: 0 <= i < |PatternItems(p)| ==> PatternItems(p)[i].plen <= w
  {
    if !Aligned(CutLen(p)) {
      var xs, ys := PrimaryItems(p), LowerItems(p);
      assert forall i :: 0 <= i < |xs| ==> xs[i].plen <= w;
      assert forall i :: 0 <= i < |ys| ==> ys[i].plen <= w;
    }
  }

  // ---- Sets of explicit prefixes ----

  ghost predicate AllExplicit(ps: set<Pattern>) {
    forall p :: p in ps ==> ValidPattern(p) && ExplicitPattern(p)
  }

  /** The trie stores exactly the prefixes of the set. */
  ghost predicate StoresAll(t: Tree, ps: set<Pattern>)
    requires Valid(t) && AllExplicit(ps)
  {
    forall a: Addr, len: nat :: len <= WIDTH ==> (Stored(t, a, len) <==> InSet(ps, a, len))
  }

  /** Normalised explicit prefixes are determined by the set they define. */
  lemma InSetIff(ps: set<Pattern>, p: Pattern)
    requires AllExplicit(ps) && ValidPattern(p) && ExplicitPattern(p)
    ensures InSet(ps, p.px, p.plen) <==> p in ps
  {
    if q :| q in ps && Matches(q, p.px, p.plen) {
      assert p.px == q.px;
    }
    if p in ps {
      assert Matches(p, p.px, p.plen);
    }
  }

  lemma StoresMore(t: Tree, ps: set<Pattern>, p: Pattern)
    requires Valid(t) && AllExplicit(ps) && ValidPattern(p) && ExplicitPattern(p)
    requires Explicit(t) && Compressed(t) && StoresAll(t, ps)
    ensures |PatternItems(p)| == 1
    ensures Compressed(InsertAll(PatternItems(p), t))
    ensures Explicit(InsertAll(PatternItems(p), t)) && StoresAll(InsertAll(PatternItems(p), t), ps + {p})
    ensures AddsNew(PatternItems(p)[0], t) <==> p !in ps
  {
    ExplicitItems(p);
    var x := PatternItems(p)[0];
    InsertAllOne(PatternItems(p), t);
    InsertExplicit(x, p.px, p.plen, t);
    InsertCompressed(x, t);
    forall a: Addr, len: nat | len <= WIDTH
      ensures Stored(Insert(x, t), a, len) <==> InSet(ps + {p}, a, len)
    {
      InsertStored(x, p.px, p.plen, t, a, len);
      assert Matches(p, a, len) <==> len == p.plen && Agree(a, p.px, p.plen);
    }
    AddsNewIff(x, p.px, p.plen, t);
    InSetIff(ps, p);
  }
}
