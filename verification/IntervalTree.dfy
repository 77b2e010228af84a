/** Sets and switches as balanced trees of intervals (filter/tree.c). */
module IntervalTree {
  /** Filter values of one type, and the void value of the default branch. */
  datatype Value = Void | Int(n: int)

  /** val_compare */
  function Compare(a: Value, b: Value): (r: int)
    ensures -1 <= r <= 1
  {
    match (a, b)
    case (Void, Void) => 0
    case (Void, Int(_)) => -1
    case (Int(_), Void) => 1
    case (Int(x), Int(y)) => if x < y then -1 else if x > y then 1 else 0
  }

  predicate Le(a: Value, b: Value) { Compare(a, b) <= 0 }

  predicate Lt(a: Value, b: Value) { Compare(a, b) < 0 }

  /** struct f_tree */
  class Node {
    var left: Node?
    var right: Node?
    const from: Value
    var to: Value

    constructor (from: Value, to: Value)
      ensures this.from == from && this.to == to && left == null && right == null
    {
      this.from, this.to, left, right := from, to, null, null;
    }

    predicate Contains(v: Value)
      reads this`to
    {
      Le(from, v) && Le(v, to)
    }
  }

  // ---- The list delivered by the parser ----

  /** list is the chain of left pointers from first on. */
  ghost predicate Chain(first: Node?, list: seq<Node>)
    reads list
  {
    if list == [] then first == null
    else first == list[0] && Chain(list[0].left, list[1..])
  }

  /** find_tree_linear */
  method FindLinear(first: Node?, v: Value, ghost list: seq<Node>) returns (r: Node?)
    requires Chain(first, list)
    ensures r == null <==> forall k :: 0 <= k < |list| ==> !list[k].Contains(v)
    ensures r != null ==> r in list && r.Contains(v)
    // it is the first such node
    ensures r != null ==> exists n :: 0 <= n < |list| && r == list[n] && forall k :: 0 <= k < n ==> !list[k].Contains(v)
  {
    var t := first;
    ghost var n: nat := 0;
    assert list[0..] == list;
    while t != null
      invariant n <= |list| && Chain(t, list[n..])
      invariant forall k :: 0 <= k < n ==> !list[k].Contains(v)
      decreases |list| - n
    {
      if Compare(t.from, v) != 1 && Compare(t.to, v) != -1 {
        return t;
      }
      t := t.left;
      n := n + 1;
    }
    return null;
  }

  // ---- The balanced tree ----

  /** The nodes buf[l..h]. */
  ghost function Part(buf: seq<Node>, l: nat, h: nat): set<Node>
    requires l <= h <= |buf|
  {
    set k | l <= k < h :: buf[k]
  }

  /** n is the root of a balanced tree over buf[l..h]. */
  ghost predicate Tree(buf: seq<Node>, n: Node?, l: nat, h: nat)
    requires l <= h <= |buf|
    reads Part(buf, l, h)
    decreases h - l
  {
    if l >= h then n == null
    else
      var pos := (l + h) / 2;
      n == buf[pos] && Tree(buf, buf[pos].left, l, pos) && Tree(buf, buf[pos].right, pos + 1, h)
  }

  /** Intervals in increasing order, without overlap. */
  ghost predicate Apart(buf: seq<Node>, n: nat)
    requires n <= |buf|
    reads buf`to
  {
    && (forall i :: 0 <= i < n ==> Le(buf[i].from, buf[i].to))
    && (forall i, j :: 0 <= i < j < n ==> Lt(buf[i].to, buf[j].from))
  }

  /** find_tree */
  method Find(t: Node?, v: Value, ghost buf: seq<Node>, ghost l: nat, ghost h: nat) returns (r: Node?)
    requires l <= h <= |buf| && Tree(buf, t, l, h) && Apart(buf, |buf|)
    ensures r == null <==> forall k :: l <= k < h ==> !buf[k].Contains(v)
    ensures r != null ==> exists k :: l <= k < h && r == buf[k] && buf[k].Contains(v)
    decreases h - l
  {
    if t == null {
      return null;
    }
    ghost var pos := (l + h) / 2;
    if Compare(t.from, v) != 1 && Compare(t.to, v) != -1 {
      return t;
    }
    if Compare(t.from, v) == -1 {
      r := Find(t.right, v, buf, pos + 1, h);
    } else {
      r := Find(t.left, v, buf, l, pos);
    }
  }

  // ---- Building ----

  ghost predicate Distinct(buf: seq<Node>) { forall i, j :: 0 <= i < j < |buf| ==> buf[i] != buf[j] }

  lemma PartsApart(buf: seq<Node>, l: nat, pos: nat, h: nat)
    requires l <= pos < h <= |buf| && Distinct(buf)
    ensures Part(buf, l, pos) !! Part(buf, pos + 1, h)
    ensures buf[pos] !in Part(buf, l, pos) && buf[pos] !in Part(buf, pos + 1, h)
    ensures Part(buf, l, h) == Part(buf, l, pos) + {buf[pos]} + Part(buf, pos + 1, h)
  {
  }

  method Link(n: Node, left: Node?, right: Node?, ghost buf: seq<Node>, ghost l: nat, ghost pos: nat, ghost h: nat)
    requires l < h <= |buf| && Distinct(buf) && pos == (l + h) / 2 && n == buf[pos]
    requires Tree(buf, left, l, pos) && Tree(buf, right, pos + 1, h)
    modifies n`left, n`right
    ensures Tree(buf, n, l, h)
  {
    PartsApart(buf, l, pos, h);
    n.left, n.right := left, right;
    assert Tree(buf, left, l, pos) && Tree(buf, right, pos + 1, h);
  }

  /** build_tree_rec */
  method BuildRec(buf: seq<Node>, l: nat, h: nat) returns (n: Node?)
    requires l <= h <= |buf| && Distinct(buf)
    modifies Part(buf, l, h)`left, Part(buf, l, h)`right
    ensures Tree(buf, n, l, h)
    decreases h - l
  {
    if l >= h {
      return null;
    }
    var pos := (l + h) / 2;
    n := buf[pos];
    PartsApart(buf, l, pos, h);
    var left := BuildRec(buf, l, pos);
    var right := BuildRec(buf, pos + 1, h);
    assert Tree(buf, left, l, pos);
    Link(n, left, right, buf, l, pos, h);
  }

  // ---- Sorting and merging ----

  ghost predicate SortedFrom(s: seq<Node>) { forall i, j :: 0 <= i < j < |s| ==> Le(s[i].from, s[j].from) }

  method Place(x: Node, s: seq<Node>) returns (r: seq<Node>)
    requires SortedFrom(s) && Distinct(s) && x !in s
    ensures SortedFrom(r) && Distinct(r) && forall n :: n in r <==> n in s || n == x
  {
    var k := 0;
    while k < |s| && Lt(s[k].from, x.from)
      invariant 0 <= k <= |s|
      invariant forall i :: 0 <= i < k ==> Lt(s[i].from, x.from)
    {
      k := k + 1;
    }
    r := Placed(s, x, k);
    PlacedSorted(s, x, k);
    PlacedMembers(s, x, k);
  }

  function Placed(s: seq<Node>, x: Node, k: nat): (r: seq<Node>)
    requires k <= |s|
    ensures |r| == |s| + 1
    ensures forall i :: 0 <= i < |r| ==> r[i] == if i < k then s[i] else if i == k then x else s[i - 1]
  {
    s[..k] + [x] + s[k..]
  }

  lemma PlacedSorted(s: seq<Node>, x: Node, k: nat)
    requires SortedFrom(s) && k <= |s| && (forall i :: 0 <= i < k ==> Lt(s[i].from, x.from))
    requires k < |s| ==> !Lt(s[k].from, x.from)
    ensures SortedFrom(Placed(s, x, k))
  {
  }

  lemma PlacedMembers(s: seq<Node>, x: Node, k: nat)
    requires Distinct(s) && k <= |s| && x !in s
    ensures Distinct(Placed(s, x, k)) && forall n :: n in Placed(s, x, k) <==> n in s || n == x
  {
    var r := Placed(s, x, k);
    forall n | n in s ensures n in r {
      var i :| 0 <= i < |s| && s[i] == n;
      assert r[if i < k then i else i + 1] == n;
    }
    assert r[k] == x;
  }

  /** Library sort by lower bounds, order of equal ones unspecified. */
  method Sort(s: seq<Node>) returns (r: seq<Node>)
    requires Distinct(s)
    ensures SortedFrom(r) && Distinct(r) && forall n :: n in r <==> n in s
  {
    r := [];
    if s != [] {
      assert s == [s[0]] + s[1..] && s[0] !in s[1..];
      var t := Sort(s[1..]);
      r := Place(s[0], t);
    }
  }

  /** The nodes of the chain, in order. */
  method Collect(first: Node?, ghost list: seq<Node>) returns (buf: seq<Node>)
    requires Chain(first, list)
    ensures buf == list
  {
    buf := [];
    var t := first;
    ghost var n: nat := 0;
    assert list[0..] == list;
    while t != null
      invariant n <= |list| && Chain(t, list[n..]) && buf == list[..n]
      decreases |list| - n
    {
      buf := buf + [t];
      t := t.left;
      n := n + 1;
    }
  }

  /** v lies in one of the first n intervals. */
  ghost predicate Covers(buf: seq<Node>, n: nat, v: Value)
    requires n <= |buf|
    reads buf`to
  {
    exists k :: 0 <= k < n && buf[k].Contains(v)
  }

  ghost predicate Proper(buf: seq<Node>)
    reads buf`to
  {
    forall k :: 0 <= k < |buf| ==> Le(buf[k].from, buf[k].to)
  }

  predicate Overlap(a: Node, b: Node)
    reads a`to, b`to
  {
    Le(a.from, b.to) && Le(b.from, a.to)
  }

  /** The same for upper bounds recorded in tos. */
  ghost predicate Covered(s: seq<Node>, tos: seq<Value>, n: nat, v: Value)
    requires n <= |s| == |tos|
  {
    exists k :: 0 <= k < n && Le(s[k].from, v) && Le(v, tos[k])
  }

  /** The n nodes written are different ones of s[..r]; the others are still to be read. */
  ghost predicate Written(s: seq<Node>, buf: seq<Node>, n: nat, r: nat) {
    && 1 <= n <= r <= |s| == |buf|
    && (forall i, j :: 0 <= i < j < n ==> buf[i] != buf[j])
    && (forall i :: 0 <= i < n ==> buf[i] in s[..r])
    && (forall k :: r <= k < |s| ==> buf[k] == s[k])
  }

  /** The intervals to be read are as recorded and begin no earlier than the last one written. */
  ghost predicate Ahead(s: seq<Node>, tos: seq<Value>, last: Node, r: nat)
    requires |s| == |tos|
    reads s
  {
    forall k :: r <= k < |s| ==> s[k].to == tos[k] && Le(last.from, s[k].from)
  }

  /** The n intervals written and the r intervals read cover the same. */
  ghost predicate SameCover(s: seq<Node>, tos: seq<Value>, buf: seq<Node>, n: nat, r: nat)
    requires r <= |s| == |tos| && n <= |buf|
    reads buf
  {
    forall v :: Covers(buf, n, v) <==> Covered(s, tos, r, v)
  }

  ghost predicate Merging(s: seq<Node>, tos: seq<Value>, buf: seq<Node>, n: nat, r: nat)
    requires |s| == |tos|
    reads s, buf
  {
    Written(s, buf, n, r) && Apart(buf, n) && Ahead(s, tos, buf[n - 1], r) && SameCover(s, tos, buf, n, r)
  }

  lemma CoveredMore(s: seq<Node>, tos: seq<Value>, r: nat, v: Value)
    requires r < |s| == |tos|
    ensures Covered(s, tos, r + 1, v) <==> Covered(s, tos, r, v) || (Le(s[r].from, v) && Le(v, tos[r]))
  {
  }

  lemma CoversMore(buf: seq<Node>, n: nat, x: Node, v: Value)
    requires n < |buf|
    ensures Covers(buf[n := x], n + 1, v) <==> Covers(buf, n, v) || x.Contains(v)
  {
    var now := buf[n := x];
    if k :| 0 <= k < n && buf[k].Contains(v) {
      assert now[k].Contains(v);
    }
    if x.Contains(v) {
      assert now[n].Contains(v);
    }
  }

  lemma AdvanceWritten(s: seq<Node>, buf: seq<Node>, n: nat, r: nat)
    requires Distinct(s) && Written(s, buf, n, r) && r < |s|
    ensures Written(s, buf[n := buf[r]], n + 1, r + 1)
  {
    assert s[r] !in s[..r];
    assert s[..r + 1] == s[..r] + [s[r]];
  }

  /** The next interval lies behind the current one. */
  lemma Advance(s: seq<Node>, tos: seq<Value>, buf: seq<Node>, n: nat, r: nat)
    requires |s| == |tos| && Distinct(s) && SortedFrom(s) && Merging(s, tos, buf, n, r) && r < |s|
    requires Lt(buf[n - 1].to, buf[r].from) && Le(s[r].from, tos[r])
    ensures Merging(s, tos, if n == r then buf else buf[n := buf[r]], n + 1, r + 1)
  {
    var now, m, q := buf[n := buf[r]], n + 1, r + 1;
    assert n == r ==> now == buf;
    AdvanceWritten(s, buf, n, r);
    forall v ensures Covers(now, m, v) <==> Covered(s, tos, q, v) {
      CoveredMore(s, tos, r, v);
      CoversMore(buf, n, buf[r], v);
    }
    assert Apart(now, m);
  }

  lemma CoversLast(buf: seq<Node>, n: nat, v: Value)
    requires 1 <= n <= |buf|
    ensures Covers(buf, n, v) <==> Covers(buf, n - 1, v) || buf[n - 1].Contains(v)
  {
  }

  /** The next interval begins in the current one, which is extended over it. */
  method Absorb(s: seq<Node>, ghost tos: seq<Value>, buf: seq<Node>, n: nat, r: nat, last: Node)
    requires |s| == |tos| && Distinct(s) && Merging(s, tos, buf, n, r) && r < |s|
    requires last == buf[n - 1] && !Lt(last.to, buf[r].from)
    modifies last`to
    ensures Merging(s, tos, buf, n, r + 1)
  {
    ghost var q := r + 1;
    assert s[r] !in s[..r] && s[..q] == s[..r] + [s[r]];
    forall v
      ensures Covered(s, tos, q, v) <==>
              Covers(buf, n - 1, v) || last.Contains(v) || (Le(s[r].from, v) && Le(v, tos[r]))
    {
      CoveredMore(s, tos, r, v);
      CoversLast(buf, n, v);
    }
    label L:
    if Lt(last.to, buf[r].to) {
      last.to := buf[r].to;
    }
    assert forall i :: 0 <= i < n - 1 ==> buf[i] != last;
    forall v ensures Covers(buf, n, v) <==> Covered(s, tos, q, v) {
      CoversLast(buf, n, v);
      assert Covers(buf, n - 1, v) <==> old@L(Covers(buf, n - 1, v)) by {
        assert forall k :: 0 <= k < n - 1 ==> (buf[k].Contains(v) <==> old@L(buf[k].Contains(v)));
      }
    }
    assert forall k :: q <= k < |s| ==> s[k] != last;
  }

  ghost predicate NoOverlap(s: seq<Node>)
    reads s`to
  {
    forall i, j :: 0 <= i < j < |s| ==> !Overlap(s[i], s[j])
  }

  ghost function Tos(s: seq<Node>): (r: seq<Value>)
    reads s
    ensures |r| == |s| && forall k :: 0 <= k < |s| ==> r[k] == s[k].to
  {
    seq(|s|, k requires 0 <= k < |s| reads s => s[k].to)
  }

  lemma MergingStart(s: seq<Node>, tos: seq<Value>)
    requires s != [] && SortedFrom(s) && Proper(s) && tos == Tos(s)
    ensures Merging(s, tos, s, 1, 1)
  {
    var one := 1;
    forall v ensures Covers(s, one, v) <==> Covered(s, tos, one, v) {
      CoversLast(s, 1, v);
      CoveredMore(s, tos, 0, v);
    }
  }

  lemma ApartNoOverlap(s: seq<Node>)
    requires Apart(s, |s|)
    ensures NoOverlap(s)
  {
  }

  /** No upper bound has changed. */
  ghost predicate AsRecorded(s: seq<Node>, tos: seq<Value>)
    requires |s| == |tos|
    reads s`to
  {
    forall k :: 0 <= k < |s| ==> s[k].to == tos[k]
  }

  /** The loop over the sorted intervals: tos are their upper bounds before. */
  method CompactLoop(s: seq<Node>, merge: bool, ghost tos: seq<Value>) returns (ok: bool, buf: seq<Node>, n: nat)
    requires s != [] && Distinct(s) && SortedFrom(s) && Proper(s) && tos == Tos(s)
    modifies s`to
    ensures merge ==> ok
    ensures ok ==> Merging(s, tos, buf, n, |s|)
    ensures !merge ==> AsRecorded(s, tos) && buf == s
    ensures !merge && ok ==> n == |s|
    ensures !ok ==> !NoOverlap(s)
  {
    ok, buf, n := true, s, 1;
    var r := 1;
    MergingStart(s, tos);
    while r < |s|
      invariant r <= |s| && Merging(s, tos, buf, n, r) && Plain(s, tos, merge, buf, n, r)
    {
      if !Lt(buf[n - 1].to, buf[r].from) && !merge {
        OverlapFound(s, tos, r);
        return false, buf, n;
      }
      buf, n := CompactStep(s, merge, tos, buf, n, r);
      r := r + 1;
    }
  }

  /** Without merge nothing is moved. */
  ghost predicate Plain(s: seq<Node>, tos: seq<Value>, merge: bool, buf: seq<Node>, n: nat, r: nat)
    requires |s| == |tos|
    reads s`to
  {
    !merge ==> n == r && buf == s && AsRecorded(s, tos)
  }

  method CompactStep(s: seq<Node>, merge: bool, ghost tos: seq<Value>, buf0: seq<Node>, n0: nat, r: nat)
    returns (buf: seq<Node>, n: nat)
    requires |s| == |tos| && r < |s| && Distinct(s) && SortedFrom(s) && Le(s[r].from, tos[r])
    requires Merging(s, tos, buf0, n0, r) && Plain(s, tos, merge, buf0, n0, r)
    requires merge || Lt(buf0[n0 - 1].to, buf0[r].from)
    modifies s`to
    ensures Merging(s, tos, buf, n, r + 1) && Plain(s, tos, merge, buf, n, r + 1)
  {
    if Lt(buf0[n0 - 1].to, buf0[r].from) {
      buf, n := TakeOver(s, merge, tos, buf0, n0, r);
    } else {
      buf, n := buf0, n0;
      Absorb(s, tos, buf, n, r, buf[n - 1]);
    }
  }

  /** The next interval becomes the current one. */
  method TakeOver(s: seq<Node>, merge: bool, ghost tos: seq<Value>, buf0: seq<Node>, n0: nat, r: nat)
    returns (buf: seq<Node>, n: nat)
    requires |s| == |tos| && r < |s| && Distinct(s) && SortedFrom(s) && Le(s[r].from, tos[r])
    requires Merging(s, tos, buf0, n0, r) && Plain(s, tos, merge, buf0, n0, r)
    requires Lt(buf0[n0 - 1].to, buf0[r].from)
    ensures Merging(s, tos, buf, n, r + 1) && Plain(s, tos, merge, buf, n, r + 1)
  {
    Advance(s, tos, buf0, n0, r);
    buf := Move(buf0, n0, r);
    n := n0 + 1;
  }

  method Move(buf0: seq<Node>, n: nat, r: nat) returns (buf: seq<Node>)
    requires n < |buf0| && r < |buf0|
    ensures buf == if n == r then buf0 else buf0[n := buf0[r]]
  {
    buf := buf0;
    if n != r {
      buf := buf[n := buf[r]];
    }
  }

  lemma OverlapFound(s: seq<Node>, tos: seq<Value>, r: nat)
    requires 1 <= r < |s| && SortedFrom(s) && |tos| == |s| && AsRecorded(s, tos) && Le(s[r].from, tos[r])
    requires !Lt(s[r - 1].to, s[r].from)
    ensures !NoOverlap(s)
  {
    assert Overlap(s[r - 1], s[r]);
  }

  /** With merge, the intervals end up in the first n of buf; without, the loop stops at
      the first overlap and changes nothing. */
  method Compact(s: seq<Node>, merge: bool) returns (ok: bool, buf: seq<Node>, n: nat)
    requires s != [] && Distinct(s) && SortedFrom(s) && Proper(s)
    modifies s`to
    ensures merge ==> ok
    ensures ok ==> 1 <= n <= |buf| && Apart(buf, n) && Distinct(buf[..n]) && forall i :: 0 <= i < n ==> buf[i] in s
    ensures ok ==> forall v :: Covers(buf, n, v) <==> old(Covers(s, |s|, v))
    ensures !merge ==> (ok <==> old(NoOverlap(s))) && forall x :: x in s ==> x.to == old(x.to)
    ensures !merge && ok ==> buf == s && n == |s|
  {
    ghost var tos := Tos(s);
    assert forall v :: Covers(s, |s|, v) <==> Covered(s, tos, |s|, v);
    ok, buf, n := CompactLoop(s, merge, tos);
    if !merge && ok {
      ApartNoOverlap(s);
    }
  }

  // ---- build_tree ----

  lemma SameNodes(s: seq<Node>, t: seq<Node>)
    requires forall n :: n in s <==> n in t
    ensures Proper(s) ==> Proper(t)
    ensures forall v :: Covers(s, |s|, v) <==> Covers(t, |t|, v)
  {
    forall v ensures Covers(s, |s|, v) <==> Covers(t, |t|, v) {
      if k :| 0 <= k < |s| && s[k].Contains(v) {
        assert s[k] in t;
        var j :| 0 <= j < |t| && t[j] == s[k];
        assert t[j].Contains(v);
      }
      if k :| 0 <= k < |t| && t[k].Contains(v) {
        assert t[k] in s;
        var j :| 0 <= j < |s| && s[j] == t[k];
        assert s[j].Contains(v);
      }
    }
    if Proper(s) {
      forall k | 0 <= k < |t| ensures Le(t[k].from, t[k].to) {
        assert t[k] in s;
      }
    }
  }

  lemma SameOverlaps(s: seq<Node>, t: seq<Node>)
    requires Distinct(s) && Distinct(t) && (forall n :: n in s <==> n in t) && NoOverlap(s)
    ensures NoOverlap(t)
  {
    forall i, j | 0 <= i < j < |t| ensures !Overlap(t[i], t[j]) {
      assert t[i] in s && t[j] in s;
      var p :| 0 <= p < |s| && s[p] == t[i];
      var q :| 0 <= q < |s| && s[q] == t[j];
      assert p < q || q < p;
    }
  }

  lemma CoversPrefix(a: seq<Node>, n: nat, v: Value)
    requires n <= |a|
    ensures Covers(a[..n], n, v) <==> Covers(a, n, v)
  {
    assert forall k :: 0 <= k < n ==> a[..n][k] == a[k];
  }

  /** build_tree, from the list of nodes linked by left. */
  method Build(first: Node?, merge: bool, ghost list: seq<Node>) returns (root: Node?, ghost buf: seq<Node>)
    requires Chain(first, list) && Distinct(list) && Proper(list)
    modifies list
    ensures root != null ==> Tree(buf, root, 0, |buf|) && Apart(buf, |buf|)
    ensures root != null ==> forall v :: Covers(buf, |buf|, v) <==> old(Covers(list, |list|, v))
    ensures merge ==> (root == null <==> list == [])
    ensures !merge ==> (root == null <==> list == [] || !old(NoOverlap(list)))
    ensures !merge && root != null ==> forall x :: x in buf <==> x in list
    ensures !merge ==> forall x :: x in list ==> x.to == old(x.to)
  {
    buf := [];
    if first == null {
      return null, buf;
    }
    var ok, a := Arrange(first, merge, list);
    if !ok {
      return null, buf;
    }
    buf := a;
    assert forall x :: x in Part(a, 0, |a|) ==> x in list;
    root := BuildRec(a, 0, |a|);
  }

  /** The nodes of the list in the order of the tree, compacted. */
  method Arrange(first: Node, merge: bool, ghost list: seq<Node>) returns (ok: bool, a: seq<Node>)
    requires Chain(first, list) && Distinct(list) && Proper(list)
    modifies list`to
    ensures merge ==> ok
    ensures ok ==> |a| > 0 && Apart(a, |a|) && Distinct(a) && forall x :: x in a ==> x in list
    ensures ok ==> forall v :: Covers(a, |a|, v) <==> old(Covers(list, |list|, v))
    ensures !merge ==> (ok <==> old(NoOverlap(list))) && forall x :: x in list ==> x.to == old(x.to)
    ensures !merge && ok ==> forall x :: x in a <==> x in list
  {
    var all := Collect(first, list);
    var s := Sort(all);
    SameNodes(list, s);
    SameOverlap(list, s);
    assert list[0] in s && forall k :: 0 <= k < |s| ==> s[k] in list;
    var n, buf;
    ok, buf, n := Compact(s, merge);
    a := [];
    if ok {
      a := buf[..n];
      forall v ensures Covers(a, n, v) <==> Covers(buf, n, v) { CoversPrefix(buf, n, v); }
    }
  }

  lemma SameOverlap(s: seq<Node>, t: seq<Node>)
    requires Distinct(s) && Distinct(t) && forall n :: n in s <==> n in t
    ensures NoOverlap(s) <==> NoOverlap(t)
  {
    if NoOverlap(s) {
      SameOverlaps(s, t);
    }
    if NoOverlap(t) {
      SameOverlaps(t, s);
    }
  }

  /** Searching before and after building.  A merged tree knows the same values as the
      list; an unmerged one, if there is one, delivers the same node. */
  method SearchBoth(first: Node?, merge: bool, v: Value, ghost list: seq<Node>)
    returns (before: Node?, root: Node?, after: Node?)
    requires Chain(first, list) && Distinct(list) && Proper(list)
    modifies list
    ensures merge ==> (before == null <==> after == null)
    ensures !merge && list != [] ==> (root == null <==> !old(NoOverlap(list)))
    ensures !merge && root != null ==> before == after
  {
    before := FindLinear(first, v, list);
    assert before == null <==> !Covers(list, |list|, v);
    ghost var buf;
    root, buf := Build(first, merge, list);
    if root == null {
      after := null;
      return;
    }
    after := Find(root, v, buf, 0, |buf|);
    assert after == null <==> !Covers(buf, |buf|, v);
    if !merge && after != null {
      assert before in buf && after in buf;
      OneContains(buf, before, after, v);
    }
  }

  lemma OneContains(buf: seq<Node>, a: Node, b: Node, v: Value)
    requires Apart(buf, |buf|) && a in buf && b in buf && a.Contains(v) && b.Contains(v)
    ensures a == b
  {
    var i :| 0 <= i < |buf| && buf[i] == a;
    var j :| 0 <= j < |buf| && buf[j] == b;
    assert i == j;
  }
}
