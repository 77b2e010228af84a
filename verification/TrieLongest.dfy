/** Longest-prefix match on tries of explicit prefixes (trie_match_longest_ip4,
    trie_match_longest_ip6) and the walk over all covering prefixes
    (TRIE_WALK_TO_ROOT_IP4, TRIE_WALK_TO_ROOT_IP6).

    A node of full length is examined without comparing its length with that of
    the query.  For queries one bit shorter than an address the answer can hence
    be a host prefix that does not cover the query; `Overrun` says exactly when.
 */
module TrieLongest {
  import opened Prefix
  import opened TrieTree
  import opened TriePattern
  import opened TrieExplicit
  import opened Trie

  /** The walk along a, comparing w - 1 bits, ends in a stored host prefix. */
  predicate HostEnd(t: Tree, a: Addr, w: nat)
    requires Valid(t) && 1 <= w <= WIDTH && Aligned(w)
    decreases t
  {
    t.Node? && t.plen <= w && Agree(a, t.addr, Min(w - 1, t.plen)) &&
    if t.plen == w then 1 in t.local
    else (StepApart(t.plen, w); HostEnd(t.c[GetBits(a, t.plen, STEP)], a, w))
  }

  /** The guard under which the length check is missed. */
  predicate Overrun(t: Tree, a: Addr, pxlen: nat, w: nat)
    requires Valid(t) && 1 <= w <= WIDTH && Aligned(w)
  {
    pxlen + 1 == w && HostEnd(t, a, w)
  }

  /** The prefix a/len is the longest stored one covering a/pxlen, if any. */
  ghost predicate IsLongest(ps: set<Pattern>, a: Addr, pxlen: nat, found: bool, len: nat)
    requires AllExplicit(ps) && pxlen <= WIDTH
  {
    if found then
      len <= pxlen && InSet(ps, a, len) && forall l :: len < l <= pxlen ==> !InSet(ps, a, l)
    else
      forall l :: 0 <= l <= pxlen ==> !InSet(ps, a, l)
  }

  /** What the walk knows after it has looked at all lengths below len. */
  ghost predicate Seen(t: Tree, a: Addr, pxlen: nat, len: nat, found: set<nat>, last: int)
    requires Valid(t) && pxlen <= WIDTH
  {
    && (forall l :: l in found <==> 0 <= l < len && l <= pxlen && Stored(t, a, l))
    && (last < 0 ==> found == {})
    && (last >= 0 ==> last in found && forall l :: l in found ==> l <= last)
  }

  /** One level of the local mask. */
  lemma SeenMore(t: Tree, a: Addr, pxlen: nat, len: nat, found: set<nat>, last: int)
    requires Valid(t) && len <= pxlen <= WIDTH && Seen(t, a, pxlen, len, found, last)
    ensures Stored(t, a, len) ==> Seen(t, a, pxlen, len + 1, found + {len}, len)
    ensures !Stored(t, a, len) ==> Seen(t, a, pxlen, len + 1, found, last)
  {}

  /** On the way down the lengths not yet seen are decided by the current node. */
  ghost predicate Decides(t: Tree, n: Tree, a: Addr, pxlen: nat, len: nat)
    requires Valid(t) && Valid(n) && pxlen <= WIDTH
  {
    forall l :: len <= l <= pxlen ==> (Stored(t, a, l) <==> Stored(n, a, l))
  }

  /** A node in an explicit trie stores nothing between its parent and itself. */
  lemma SkipGap(t: Tree, n: Tree, a: Addr, pxlen: nat, len: nat, found: set<nat>, last: int, len': nat)
    requires Valid(t) && Valid(n) && n.Node? && pxlen <= WIDTH && Decides(t, n, a, pxlen, len)
    requires Seen(t, a, pxlen, len, found, last) && len <= len' <= n.plen
    ensures Seen(t, a, pxlen, len', found, last) && Decides(t, n, a, pxlen, len')
  {
    forall l | len <= l < len' && l <= pxlen ensures !Stored(t, a, l) {
      assert RoundDown(l) < n.plen;
    }
  }

  /** The result of the walk: lengths found, and the last one. */
  ghost predicate Walked(t: Tree, a: Addr, pxlen: nat, w: nat, found: set<nat>, last: int)
    requires Valid(t) && pxlen <= w <= WIDTH && 1 <= w && Aligned(w)
  {
    && (forall l :: l in found <==> 0 <= l < w && l <= pxlen && Stored(t, a, l))
    && (Overrun(t, a, pxlen, w) ==> last == w)
    && (!Overrun(t, a, pxlen, w) ==>
          && last <= pxlen
          && (last >= 0 ==> Stored(t, a, last))
          && (forall l :: last < l && 0 <= l <= pxlen ==> !Stored(t, a, l)))
  }

  /** Check the accept mask of n for the lengths from len to that of n. */
  method AcceptGap(n: TrieNode, pxlen: nat, len0: nat, found0: set<nat>, last0: int)
    returns (len: nat, found: set<nat>, last: int)
    requires n.Mirrors() && ExplicitNode(n.tree) && len0 <= n.plen && (len0 == 0 ==> n.plen == 0) && len0 <= pxlen + 1
    ensures found == found0 && last == last0 && len0 <= len
    ensures len == Min(n.plen, pxlen + 1)
  {
    len, found, last := len0, found0, last0;
    while len < n.plen
      invariant len0 <= len <= n.plen && len <= pxlen + 1 && found == found0 && last == last0
    {
      if len > pxlen {
        return;
      }
      if len - 1 in n.accept {
        found, last := found + {len}, len;
      }
      len := len + 1;
    }
  }

  /** Check the local mask of n, one length after another. */
  method LocalLevels(n: TrieNode, ghost t: Tree, a: Addr, pxlen: nat, found0: set<nat>, last0: int)
    returns (len: nat, found: set<nat>, last: int)
    requires n.Mirrors() && Valid(n.tree) && Valid(t) && n.plen + STEP <= WIDTH && n.plen <= pxlen + 1 <= WIDTH + 1
    requires n.plen <= pxlen ==> Agree(a, n.addr, n.plen)
    requires Seen(t, a, pxlen, n.plen, found0, last0) && Decides(t, n.tree, a, pxlen, n.plen)
    ensures len == Min(n.plen + STEP, pxlen + 1) && Seen(t, a, pxlen, len, found, last)
  {
    len, found, last := n.plen, found0, last0;
    var pos := 1;
    while pos < 16
      invariant n.plen <= len <= n.plen + STEP && len <= pxlen + 1
      invariant if len < n.plen + STEP then pos == LocalPos(a, len, n.plen) else pos >= 16
      invariant Seen(t, a, pxlen, len, found, last)
      decreases n.plen + STEP - len
    {
      if len > pxlen {
        return;
      }
      InRange(len, n.plen);
      SeenMore(t, a, pxlen, len, found, last);
      if pos in n.local {
        found, last := found + {len}, len;
      }
      pos := 2 * pos + Bit(a[len]);
      len := len + 1;
    }
  }

  lemma InRange(len: nat, nlen: nat)
    requires Aligned(nlen) && nlen <= len < nlen + STEP
    ensures RoundDown(len) == nlen
  {
    if RoundDown(len) < nlen { StepApart(RoundDown(len), nlen); }
    if nlen < RoundDown(len) { StepApart(nlen, RoundDown(len)); }
  }

  /** State of the walk at the node n (or past the last node). */
  ghost predicate At(t: Tree, n: Tree, a: Addr, pxlen: nat, w: nat, len: nat, found: set<nat>, last: int)
    requires Valid(t) && pxlen <= w <= WIDTH && 1 <= w && Aligned(w)
  {
    && Valid(n) && Explicit(n) && Fits(n, w) && len <= pxlen + 1 && len <= w
    && (n.Node? ==> len <= n.plen && (len == 0 ==> n.plen == 0))
    && Seen(t, a, pxlen, len, found, last) && Decides(t, n, a, pxlen, len)
    && (pxlen + 1 == w ==> (HostEnd(t, a, w) <==> HostEnd(n, a, w)))
  }

  /** The walk leaves the path or the query: nothing more can be found. */
  lemma OffPath(t: Tree, n: Tree, a: Addr, pxlen: nat, w: nat, len: nat, found: set<nat>, last: int)
    requires Valid(t) && pxlen <= w <= WIDTH && 1 <= w && Aligned(w)
    requires At(t, n, a, pxlen, w, len, found, last)
    requires n.Node? ==> !Agree(a, n.addr, Min(pxlen, n.plen))
    ensures Walked(t, a, pxlen, w, found, last)
  {
    forall l | len <= l <= pxlen ensures !Stored(n, a, l) {}
  }

  lemma PastQuery(t: Tree, a: Addr, pxlen: nat, w: nat, found: set<nat>, last: int)
    requires Valid(t) && pxlen + 1 < w <= WIDTH && Aligned(w)
    requires Seen(t, a, pxlen, pxlen + 1, found, last)
    ensures Walked(t, a, pxlen, w, found, last)
  {}

  /** A node of full length ends the walk. */
  lemma FullLength(t: Tree, n: Tree, a: Addr, pxlen: nat, w: nat, found: set<nat>, last: int)
    requires Valid(t) && w <= pxlen + 1 && pxlen <= w <= WIDTH && 1 <= w && Aligned(w)
    requires n.Node? && n.plen == w && At(t, n, a, pxlen, w, w, found, last)
    requires Agree(a, n.addr, pxlen)
    ensures Walked(t, a, pxlen, w, found, if 1 in n.local then w else last)
  {
    InRange(w, w);
    assert Stored(n, a, w) <==> Agree(a, n.addr, w) && 1 in n.local;
  }

  /** Going on to the child on the path. */
  lemma GoDown(t: Tree, n: Tree, a: Addr, pxlen: nat, w: nat, found: set<nat>, last: int)
    requires Valid(t) && pxlen <= w <= WIDTH && 1 <= w && Aligned(w)
    requires n.Node? && Valid(n) && Explicit(n) && Fits(n, w) && n.plen + STEP <= w && n.plen + STEP <= pxlen + 1
    requires Agree(a, n.addr, Min(pxlen, n.plen))
    requires Seen(t, a, pxlen, n.plen + STEP, found, last) && Decides(t, n, a, pxlen, n.plen)
    requires pxlen + 1 == w ==> (HostEnd(t, a, w) <==> HostEnd(n, a, w))
    ensures At(t, n.c[GetBits(a, n.plen, STEP)], a, pxlen, w, n.plen + STEP, found, last)
  {
    var k := GetBits(a, n.plen, STEP);
    assert ValidChild(n, k, n.c[k]);
    forall l | n.plen + STEP <= l <= pxlen ensures Stored(n, a, l) <==> Stored(n.c[k], a, l) {}
  }

  /** Check both masks of a node on the path, unless the query ends. */
  method CheckNode(n: TrieNode, ghost t: Tree, a: Addr, pxlen: nat, w: nat, len0: nat, found0: set<nat>, last0: int)
    returns (done: bool, len: nat, found: set<nat>, last: int)
    requires n.Mirrors() && Valid(t) && pxlen <= w && (w == 32 || w == WIDTH) && Aligned(w)
    requires At(t, n.tree, a, pxlen, w, len0, found0, last0) && Agree(a, n.addr, Min(pxlen, n.plen))
    ensures done ==> Walked(t, a, pxlen, w, found, last)
    ensures !done ==> n.plen + STEP <= w && len == n.plen + STEP <= pxlen + 1
    ensures !done ==> Seen(t, a, pxlen, len, found, last) && Decides(t, n.tree, a, pxlen, n.plen)
  {
    SkipGap(t, n.tree, a, pxlen, len0, found0, last0, Min(n.plen, pxlen + 1));
    len, found, last := AcceptGap(n, pxlen, len0, found0, last0);
    done := true;
    if len < n.plen {
      PastQuery(t, a, pxlen, w, found, last);
      return;
    }
    if len == w {
      FullLength(t, n.tree, a, pxlen, w, found, last);
      if 1 in n.local {
        last := len;
      }
      return;
    }
    StepApart(n.plen, w);
    len, found, last := LocalLevels(n, t, a, pxlen, found, last);
    if len < n.plen + STEP {
      PastQuery(t, a, pxlen, w, found, last);
      return;
    }
    done := false;
  }

  /** The loop of trie_match_longest_ip4: all lengths on the path to the query. */
  method WalkPath(t: PrefixTrie, a: Addr, pxlen: nat, w: nat) returns (found: set<nat>, last: int)
    requires t.Shape() && Explicit(t.root.tree)
    requires pxlen <= w && (w == 32 || w == WIDTH) && Aligned(w) && Fits(t.root.tree, w)
    ensures Walked(t.root.tree, a, pxlen, w, found, last)
  {
    ghost var tree := t.root.tree;
    var n: TrieNode? := t.root;
    var len: nat := 0;
    found, last := {}, -1;
    while n != null
      invariant n != null ==> n in t.nodes
      invariant At(tree, TreeOf(n), a, pxlen, w, len, found, last)
      decreases if n == null then 0 else WIDTH + 1 - n.plen
    {
      if !Agree(a, n.addr, Min(pxlen, n.plen)) {
        OffPath(tree, n.tree, a, pxlen, w, len, found, last);
        return;
      }
      var done;
      done, len, found, last := CheckNode(n, tree, a, pxlen, w, len, found, last);
      if done {
        return;
      }
      GoDown(tree, n.tree, a, pxlen, w, found, last);
      t.ChildLinks(n, GetBits(a, n.plen, STEP));
      n := n.c[GetBits(a, n.plen, STEP)];
    }
    OffPath(tree, Nil, a, pxlen, w, len, found, last);
  }

  /** trie_match_longest_ip4 and trie_match_longest_ip6.  The result is the longest
      stored prefix covering the query iff the walk does not overrun the query. */
  method MatchLongest(t: PrefixTrie, net: Net) returns (ok: bool, dst: Net, found: set<nat>)
    requires t.Valid() && AllExplicit(t.patterns) && ValidNet(net)
    requires if net.v4 then t.family != V6 else t.family == V6
    ensures IsLongest(t.patterns, net.px, net.plen, ok, dst.plen) <==>
            !Overrun(t.root.tree, net.px, net.plen, MaxLen(net.v4))
    ensures ok ==> dst.plen <= MaxLen(net.v4) && dst == Net(net.v4, Masked(net.px, dst.plen), dst.plen)
    ensures Overrun(t.root.tree, net.px, net.plen, MaxLen(net.v4)) ==> ok && dst.plen == net.plen + 1
    ensures forall l :: l in found <==>
              0 <= l < MaxLen(net.v4) && l <= net.plen && InSet(t.patterns, net.px, l)
  {
    var w := MaxLen(net.v4);
    FitsWidth(t.root.tree);
    var last;
    found, last := WalkPath(t, net.px, net.plen, w);
    if last < 0 {
      return false, net, found;
    }
    ok, dst := true, Net(net.v4, Masked(net.px, last), last);
  }

  lemma {:induction false} FitsWidth(t: Tree)
    requires Valid(t)
    ensures Fits(t, WIDTH)
  {
    if t.Node? {
      forall k | 0 <= k < 16 ensures Fits(t.c[k], WIDTH) {
        FitsWidth(t.c[k]);
      }
    }
  }

  /** trie_match_next_longest_ip4: the next shorter length recorded in found. */
  method MatchNextLongest(net: Net, found: set<nat>) returns (ok: bool, dst: Net)
    requires net.plen <= WIDTH && Clear(net.px, net.plen)
    ensures ok ==> dst.plen < net.plen && dst.plen in found && dst.v4 == net.v4 && dst.px == Masked(net.px, dst.plen)
    ensures ok ==> forall l :: dst.plen < l < net.plen ==> l !in found
    ensures !ok ==> forall l :: 0 <= l < net.plen ==> l !in found
  {
    dst := net;
    while dst.plen > 0
      invariant dst.plen <= net.plen && dst.v4 == net.v4 && dst.px == Masked(net.px, dst.plen)
      invariant forall l :: dst.plen <= l < net.plen ==> l !in found
      decreases dst.plen
    {
      var plen := dst.plen - 1;
      dst := Net(dst.v4, dst.px[plen := false], plen);
      if dst.plen in found {
        return true, dst;
      }
    }
    ok := false;
  }

  /** out lists, from longest to shortest, the stored prefixes covering net that
      are at least lo long. */
  ghost predicate Lists(ps: set<Pattern>, net: Net, lo: nat, out: seq<Net>)
    requires AllExplicit(ps) && ValidNet(net)
  {
    && (forall i :: 0 <= i < |out| ==> lo <= out[i].plen <= net.plen)
    && (forall i :: 0 <= i < |out| ==> out[i] == Net(net.v4, Masked(net.px, out[i].plen), out[i].plen))
    && (forall i, j :: 0 <= i < j < |out| ==> out[i].plen > out[j].plen)
    && (forall i :: 0 <= i < |out| ==> InSet(ps, net.px, out[i].plen))
    && (forall l :: lo <= l <= net.plen && InSet(ps, net.px, l) ==> exists i :: 0 <= i < |out| && out[i].plen == l)
  }

  /** No stored prefix covering net has a length from lo to hi - 1. */
  ghost predicate Gap(ps: set<Pattern>, net: Net, lo: nat, hi: nat)
    requires AllExplicit(ps) && ValidNet(net)
  {
    forall l :: lo <= l < hi && l <= net.plen ==> !InSet(ps, net.px, l)
  }

  lemma ListsMore(ps: set<Pattern>, net: Net, lo: nat, out: seq<Net>, dst: Net)
    requires AllExplicit(ps) && ValidNet(net) && Lists(ps, net, lo, out)
    requires dst.plen < lo && dst.plen <= net.plen && InSet(ps, net.px, dst.plen)
    requires dst == Net(net.v4, Masked(net.px, dst.plen), dst.plen)
    requires Gap(ps, net, dst.plen + 1, lo)
    ensures Lists(ps, net, dst.plen, out + [dst])
  {
    var out' := out + [dst];
    forall l | dst.plen <= l <= net.plen && InSet(ps, net.px, l)
      ensures exists i :: 0 <= i < |out'| && out'[i].plen == l
    {
      if l == dst.plen {
        assert out'[|out|].plen == l;
      } else {
        var i :| 0 <= i < |out| && out[i].plen == l;
        assert out'[i].plen == l;
      }
    }
  }

  /** TRIE_WALK_TO_ROOT: the longest match and then all shorter ones; again right
      iff the match does not overrun the query. */
  method WalkToRoot(t: PrefixTrie, net: Net) returns (out: seq<Net>)
    requires t.Valid() && AllExplicit(t.patterns) && ValidNet(net)
    requires if net.v4 then t.family != V6 else t.family == V6
    ensures Lists(t.patterns, net, 0, out) <==> !Overrun(t.root.tree, net.px, net.plen, MaxLen(net.v4))
  {
    var ok, dst, found := MatchLongest(t, net);
    out := ListFound(net, ok, dst, found, t.patterns, Overrun(t.root.tree, net.px, net.plen, MaxLen(net.v4)));
  }

  /** The loop over all shorter matches, after the longest one was found. */
  method ListFound(net: Net, ok0: bool, dst0: Net, found: set<nat>, ghost ps: set<Pattern>, ghost over: bool)
    returns (out: seq<Net>)
    requires AllExplicit(ps) && ValidNet(net)
    requires ok0 ==> dst0.plen <= WIDTH && dst0 == Net(net.v4, Masked(net.px, dst0.plen), dst0.plen)
    requires over ==> ok0 && dst0.plen > net.plen
    requires !over ==> IsLongest(ps, net.px, net.plen, ok0, dst0.plen)
    requires forall l :: 0 <= l < net.plen ==> (l in found <==> InSet(ps, net.px, l))
    ensures Lists(ps, net, 0, out) <==> !over
  {
    ghost var lo: nat := net.plen + 1;
    var ok, dst := ok0, dst0;
    out := [];
    while ok
      invariant ok ==> dst.plen <= WIDTH && dst == Net(net.v4, Masked(net.px, dst.plen), dst.plen)
      invariant over ==> if |out| == 0 then ok && dst.plen > net.plen else out[0].plen > net.plen
      invariant !over ==> lo <= net.plen + 1 && Lists(ps, net, lo, out)
      invariant !over && ok ==> dst.plen < lo && InSet(ps, net.px, dst.plen)
      invariant !over ==> Gap(ps, net, if ok then dst.plen + 1 else 0, lo)
      decreases if ok then dst.plen + 1 else 0
    {
      if !over {
        ListsMore(ps, net, lo, out, dst);
      }
      out := out + [dst];
      lo := dst.plen;
      ok, dst := MatchNextLongest(dst, found);
    }
  }

  /** A single stored host prefix is returned for every query one bit shorter
      that has its first bits, whether or not the prefix covers the query. */
  lemma SingleHostOverrun(root: Tree, px: Addr, a: Addr, w: nat)
    requires root.Node? && root == Node(0, root.addr, {}, {}, NoChildren()) && Valid(root)
    requires (w == 32 || w == WIDTH) && Aligned(w) && Clear(px, w) && Agree(a, px, w - 1)
    ensures Overrun(InsertAll(PatternItems(Pattern(px, w, w, w)), root), a, w - 1, w)
    ensures forall l :: 0 <= l < w ==> !InSet({Pattern(px, w, w, w)}, a, l)
  {
    var p := Pattern(px, w, w, w);
    ExplicitItems(p);
    InsertAllOne(PatternItems(p), root);
    var x := PatternItems(p)[0];
    InRange(w, w);
    GetBitsEqual(a, x.px, 0, STEP);
    LeafValid(x);
    InsertValid(x, root);
    assert HostEnd(Leaf(x), a, w);
  }

  /** With only 0.0.0.1/32 stored, the query 0.0.0.0/31 has no covering prefix
      but is answered by a host prefix. */
  lemma OverrunExample(root: Tree, host: Addr)
    requires root.Node? && root == Node(0, root.addr, {}, {}, NoChildren()) && Valid(root)
    requires host == seq(128, i => i == 31)
    ensures ValidPattern(Pattern(host, 32, 32, 32)) && Aligned(32)
    ensures Overrun(InsertAll(PatternItems(Pattern(host, 32, 32, 32)), root), Masked(host, 31), 31, 32)
    ensures forall l :: 0 <= l <= 31 ==> !InSet({Pattern(host, 32, 32, 32)}, Masked(host, 31), l)
  {
    var w := MaxLen(true);
    SingleHostOverrun(root, host, Masked(host, 31), w);
  }
}
