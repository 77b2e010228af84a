/** The flowspec builder as a state machine (lib/flowspec.c, lib/flowspec.h). */
module FlowBuilder {
  import opened FlowOps
  import opened FlowFormat
  import opened FlowScan
  import opened FlowBuild

  const TYPE_MAX := 14

  /** is_stackable_type */
  predicate IsStackable(kind: bv8) { IsOps(kind, true) }

  /** Where a component lies in the buffer. */
  datatype Part = Part(offset: nat, length: nat)

  ghost predicate Normal(c: Component, v6: bool) { Wf(c, v6) && Clean(c, v6) == c }

  ghost function Start(cs: seq<Component>, k: nat, v6: bool): nat
    requires k <= |cs|
  {
    |EncodeAll(cs[..k], v6)|
  }

  /** The components of the buffer, in the order they were begun. */
  ghost predicate Components(cs: seq<Component>, v6: bool) {
    && (forall k {:trigger Normal(cs[k], v6)} :: 0 <= k < |cs| ==> Normal(cs[k], v6))
    && (forall j, k :: 0 <= j < k < |cs| ==> Num(cs[j].kind) != Num(cs[k].kind))
  }

  ghost predicate Entry(parts: seq<Part>, cs: seq<Component>, k: nat, v6: bool)
    requires k < |cs|
  {
    Num(cs[k].kind) < |parts| && parts[Num(cs[k].kind)] == Part(Start(cs, k, v6), |Encode(cs[k], v6)|)
  }

  ghost predicate HasKind(cs: seq<Component>, t: nat) {
    exists k :: 0 <= k < |cs| && Num(cs[k].kind) == t
  }

  /** The index lists each component with its place; other lengths are 0. */
  ghost predicate Indexed(parts: seq<Part>, cs: seq<Component>, v6: bool) {
    && |parts| == TYPE_MAX
    && (forall k {:trigger Entry(parts, cs, k, v6)} :: 0 <= k < |cs| ==> Entry(parts, cs, k, v6))
    && (forall t :: 0 <= t < TYPE_MAX && parts[t].length != 0 ==> HasKind(cs, t))
  }

  // ---- Adding to the last component ----

  /** The operators with one more, which now carries the end bit. */
  function Extend(items: seq<Item>, i: Item): seq<Item>
    requires |items| > 0
  {
    items[..|items| - 1] + [items[|items| - 1].(op := NoEnd(items[|items| - 1].op))] + [i]
  }

  lemma {:induction false} ItemsAreNormal(items: seq<Item>, kind: bv8, v6: bool, first: bool)
    requires WfItems(items, kind) && CleanItems(items, kind, v6, first) == items
    ensures NormalItems(items, kind, v6, first)
    decreases |items|
  {
    var rest, clean := items[1..], CleanItems(items, kind, v6, first);
    assert clean[0] == items[0] && clean[1..] == CleanItems(rest, kind, v6, false);
    assert NormalItem(items[0], kind, v6, first, |items| == 1);
    if |items| > 1 {
      ItemsAreNormal(rest, kind, v6, false);
      forall k | 0 < k < |items| ensures NormalItem(items[k], kind, v6, false, k == |items| - 1) {
        assert items[k] == rest[k - 1];
      }
    }
  }

  lemma ExtendNormal(items: seq<Item>, i: Item, kind: bv8, v6: bool)
    requires NormalItems(items, kind, v6, true) && NormalItem(i, kind, v6, false, true)
    ensures NormalItems(Extend(items, i), kind, v6, true)
  {
    var n := |items|;
    NoEndFacts(items[n - 1], kind, v6, n == 1);
  }

  lemma ExtendOps(c: Component, i: Item, v6: bool)
    requires c.Ops? && Normal(c, v6) && NormalItem(i, c.kind, v6, false, true)
    ensures Normal(Ops(c.kind, Extend(c.items, i)), v6)
  {
    ItemsAreNormal(c.items, c.kind, v6, true);
    ExtendNormal(c.items, i, c.kind, v6);
    NormalItemsAre(Extend(c.items, i), c.kind, v6, true);
  }

  lemma NewOps(kind: bv8, i: Item, v6: bool)
    requires IsOps(kind, v6) && NormalItem(i, kind, v6, true, true)
    ensures Normal(Ops(kind, [i]), v6)
  {
    NormalItemsAre([i], kind, v6, true);
  }

  /** The bytes before the last operator of the last component. */
  ghost function BeforeLast(cs: seq<Component>, v6: bool): Bytes
    requires cs != [] && cs[|cs| - 1].Ops? && |cs[|cs| - 1].items| > 0
  {
    var c := cs[|cs| - 1];
    EncodeAll(cs[..|cs| - 1], v6) + ([c.kind] + EncodeItems(c.items[..|c.items| - 1]))
  }

  lemma LastOp(cs: seq<Component>, v6: bool)
    requires cs != [] && cs[|cs| - 1].Ops? && |cs[|cs| - 1].items| > 0
    ensures var i := cs[|cs| - 1].items[|cs[|cs| - 1].items| - 1];
            EncodeAll(cs, v6) == BeforeLast(cs, v6) + ([i.op] + i.value)
  {
    var c, before := cs[|cs| - 1], EncodeAll(cs[..|cs| - 1], v6);
    var items, i := c.items[..|c.items| - 1], c.items[|c.items| - 1];
    assert cs == cs[..|cs| - 1] + [c] && c.items == items + [i];
    EncodeAllAppend(cs[..|cs| - 1], c, v6);
    EncodeItemsAppend(items, i);
    Assoc([c.kind], EncodeItems(items), [i.op] + i.value);
    Assoc(before, [c.kind] + EncodeItems(items), [i.op] + i.value);
  }

  /** cs with the operator added to its last component. */
  ghost function Continued(cs: seq<Component>, i: Item): seq<Component>
    requires cs != [] && cs[|cs| - 1].Ops? && |cs[|cs| - 1].items| > 0
  {
    var c := cs[|cs| - 1];
    cs[..|cs| - 1] + [Ops(c.kind, Extend(c.items, i))]
  }

  lemma ContinuedBefore(cs: seq<Component>, i: Item, v6: bool)
    requires cs != [] && cs[|cs| - 1].Ops? && |cs[|cs| - 1].items| > 0
    ensures var last := cs[|cs| - 1].items[|cs[|cs| - 1].items| - 1];
            BeforeLast(Continued(cs, i), v6) == BeforeLast(cs, v6) + ([NoEnd(last.op)] + last.value)
  {
    var c, cs' := cs[|cs| - 1], Continued(cs, i);
    var n := |c.items|;
    var mid := c.items[n - 1].(op := NoEnd(c.items[n - 1].op));
    var before := EncodeItems(c.items[..n - 1]);
    assert Extend(c.items, i)[..n] == c.items[..n - 1] + [mid];
    EncodeItemsAppend(c.items[..n - 1], mid);
    assert cs'[..|cs| - 1] == cs[..|cs| - 1];
    assert [c.kind] + (before + ([mid.op] + mid.value)) == ([c.kind] + before) + ([mid.op] + mid.value);
  }

  lemma UpdateAt(p: Bytes, x: bv8, v: Bytes, y: bv8)
    ensures (p + ([x] + v))[|p|] == x && (p + ([x] + v))[|p| := y] == p + ([y] + v)
  {
  }

  lemma ContinuedBytes(cs: seq<Component>, i: Item, v6: bool)
    requires cs != [] && cs[|cs| - 1].Ops? && |cs[|cs| - 1].items| > 0
    ensures var p, data := |BeforeLast(cs, v6)|, EncodeAll(cs, v6);
            p < |data| && BeforeLast(Continued(cs, i), v6) == data[p := NoEnd(data[p])]
    ensures EncodeAll(Continued(cs, i), v6) == BeforeLast(Continued(cs, i), v6) + ([i.op] + i.value)
  {
    var last := cs[|cs| - 1].items[|cs[|cs| - 1].items| - 1];
    LastOp(cs, v6);
    LastOp(Continued(cs, i), v6);
    ContinuedBefore(cs, i, v6);
    UpdateAt(BeforeLast(cs, v6), last.op, last.value, NoEnd(last.op));
  }

  // ---- The index ----

  lemma EntryKept(parts: seq<Part>, cs: seq<Component>, k: nat, now: seq<Part>, ds: seq<Component>, v6: bool)
    requires k < |cs| && k < |ds| && cs[..k] == ds[..k] && cs[k] == ds[k] && Entry(parts, cs, k, v6)
    requires |now| == |parts| && now[Num(cs[k].kind)] == parts[Num(cs[k].kind)]
    ensures Entry(now, ds, k, v6)
  {
  }

  lemma KindNum(kind: bv8)
    requires kind < 14
    ensures Num(kind) < TYPE_MAX
  {
  }

  /** A type is in the index iff a component has it. */
  lemma IndexHas(parts: seq<Part>, cs: seq<Component>, t: nat, v6: bool)
    requires Indexed(parts, cs, v6) && t < TYPE_MAX
    ensures parts[t].length != 0 <==> HasKind(cs, t)
  {
    if HasKind(cs, t) {
      var k :| 0 <= k < |cs| && Num(cs[k].kind) == t;
      assert Entry(parts, cs, k, v6);
    }
  }

  lemma IndexNew(parts: seq<Part>, cs: seq<Component>, c: Component, v6: bool)
    requires Components(cs, v6) && Indexed(parts, cs, v6) && Normal(c, v6)
    requires Num(c.kind) < TYPE_MAX && parts[Num(c.kind)].length == 0
    ensures Components(cs + [c], v6)
    ensures Indexed(parts[Num(c.kind) := Part(|EncodeAll(cs, v6)|, |Encode(c, v6)|)], cs + [c], v6)
  {
    IndexHas(parts, cs, Num(c.kind), v6);
    ComponentsMore(cs, c, v6);
    IndexedMore(parts, cs, c, v6);
  }

  lemma ComponentsMore(cs: seq<Component>, c: Component, v6: bool)
    requires Components(cs, v6) && Normal(c, v6) && !HasKind(cs, Num(c.kind))
    ensures Components(cs + [c], v6)
  {
    var ds := cs + [c];
    forall k | 0 <= k < |ds| ensures Normal(ds[k], v6) {
      if k < |cs| {
        assert Normal(cs[k], v6) && ds[k] == cs[k];
      }
    }
  }

  lemma IndexedMore(parts: seq<Part>, cs: seq<Component>, c: Component, v6: bool)
    requires Indexed(parts, cs, v6) && Num(c.kind) < TYPE_MAX && !HasKind(cs, Num(c.kind))
    ensures Indexed(parts[Num(c.kind) := Part(|EncodeAll(cs, v6)|, |Encode(c, v6)|)], cs + [c], v6)
  {
    var ds, now := cs + [c], parts[Num(c.kind) := Part(|EncodeAll(cs, v6)|, |Encode(c, v6)|)];
    forall k | 0 <= k < |cs| ensures Entry(now, ds, k, v6) {
      assert Entry(parts, cs, k, v6) && cs[..k] == ds[..k];
      EntryKept(parts, cs, k, now, ds, v6);
    }
    assert Entry(now, ds, |cs|, v6) by {
      assert ds[..|cs|] == cs && ds[|cs|] == c;
    }
    forall t | 0 <= t < TYPE_MAX && now[t].length != 0 ensures HasKind(ds, t) {
      KindAppend(cs, c, t);
    }
  }

  lemma IndexDrop(parts: seq<Part>, cs: seq<Component>, v6: bool)
    requires cs != [] && Components(cs, v6) && Indexed(parts, cs, v6)
    ensures var m, t := |cs| - 1, Num(cs[|cs| - 1].kind);
            t < TYPE_MAX && parts[t].offset == |EncodeAll(cs[..m], v6)| &&
            Indexed(parts[t := Part(0, 0)], cs[..m], v6)
  {
    var m, ds := |cs| - 1, cs[..|cs| - 1];
    var last := Num(cs[m].kind);
    assert Entry(parts, cs, m, v6);
    var now := parts[last := Part(0, 0)];
    forall k | 0 <= k < m ensures Entry(now, ds, k, v6) {
      assert Entry(parts, cs, k, v6) && cs[..k] == ds[..k];
      EntryKept(parts, cs, k, now, ds, v6);
    }
    forall t | 0 <= t < TYPE_MAX && now[t].length != 0 ensures HasKind(ds, t) {
      KindBefore(cs, t);
    }
  }

  lemma KindBefore(cs: seq<Component>, t: nat)
    requires cs != [] && HasKind(cs, t) && Num(cs[|cs| - 1].kind) != t
    ensures HasKind(cs[..|cs| - 1], t)
  {
    var k :| 0 <= k < |cs| && Num(cs[k].kind) == t;
    assert Num(cs[..|cs| - 1][k].kind) == t;
  }

  lemma KindAppend(cs: seq<Component>, c: Component, t: nat)
    ensures HasKind(cs + [c], t) <==> HasKind(cs, t) || Num(c.kind) == t
  {
    var ds := cs + [c];
    if HasKind(cs, t) {
      var k :| 0 <= k < |cs| && Num(cs[k].kind) == t;
      assert Num(ds[k].kind) == t;
    }
    if Num(c.kind) == t {
      assert Num(ds[|cs|].kind) == t;
    }
  }

  lemma IndexLast(parts: seq<Part>, cs: seq<Component>, c: Component, v6: bool)
    requires cs != [] && Components(cs, v6) && Indexed(parts, cs, v6) && Normal(c, v6) && c.kind == cs[|cs| - 1].kind
    ensures Num(c.kind) < TYPE_MAX && parts[Num(c.kind)].offset == |EncodeAll(cs[..|cs| - 1], v6)|
    ensures var ds := cs[..|cs| - 1] + [c];
            Components(ds, v6) &&
            Indexed(parts[Num(c.kind) := Part(parts[Num(c.kind)].offset, |Encode(c, v6)|)], ds, v6)
  {
    var t, before := Num(c.kind), cs[..|cs| - 1];
    IndexDrop(parts, cs, v6);
    var was := parts[t := Part(0, 0)];
    IndexNew(was, before, c, v6);
    var p := Part(parts[t].offset, |Encode(c, v6)|);
    assert was[t := p] == parts[t := p];
  }

  // ---- The builder ----

  /** Offsets and lengths are 16-bit fields. */
  const MAX_USED := 0xffff

  /** The buffer holds the components, the index tells where, and the position of the last operator is known. */
  ghost predicate Holds(data: Bytes, parts: seq<Part>, lastOpOffset: nat, cs: seq<Component>, v6: bool) {
    && Components(cs, v6) && Indexed(parts, cs, v6) && data == EncodeAll(cs, v6)
    && (cs != [] && cs[|cs| - 1].Ops? ==> |cs[|cs| - 1].items| > 0 && lastOpOffset == |BeforeLast(cs, v6)|)
  }

  lemma NewHolds(data: Bytes, parts: seq<Part>, off: nat, cs: seq<Component>, v6: bool, c: Component, off': nat)
    requires Holds(data, parts, off, cs, v6) && Normal(c, v6)
    requires Num(c.kind) < TYPE_MAX && parts[Num(c.kind)].length == 0
    requires c.Ops? ==> |c.items| == 1 && off' == |data| + 1
    ensures Holds(data + Encode(c, v6), parts[Num(c.kind) := Part(|data|, |Encode(c, v6)|)], off', cs + [c], v6)
  {
    IndexNew(parts, cs, c, v6);
    EncodeAllAppend(cs, c, v6);
    if c.Ops? {
      NewLast(cs, c, v6);
    }
  }

  lemma NewLast(cs: seq<Component>, c: Component, v6: bool)
    requires c.Ops? && |c.items| == 1
    ensures |BeforeLast(cs + [c], v6)| == |EncodeAll(cs, v6)| + 1
  {
    assert c == Ops(c.kind, [c.items[0]]);
    FirstOp(cs, c, c.items[0], v6);
  }

  /** The bytes written stand behind the last component, whatever its type. */
  lemma ContinuedData(data: Bytes, parts: seq<Part>, off: nat, cs: seq<Component>, v6: bool, kind: bv8, i: Item,
                      now: Bytes, parts': seq<Part>)
    requires Holds(data, parts, off, cs, v6) && Appended(data, parts, off, kind, i, now, parts')
    ensures cs != [] && cs[|cs| - 1].Ops? ==>
              |cs[|cs| - 1].items| > 0 && now == EncodeAll(Continued(cs, i), v6)
  {
    if cs != [] && cs[|cs| - 1].Ops? {
      ContinuedBytes(cs, i, v6);
    }
  }

  lemma ContinuedIndexed(parts: seq<Part>, cs: seq<Component>, v6: bool, i: Item)
    requires cs != [] && Components(cs, v6) && Indexed(parts, cs, v6) && IsOps(cs[|cs| - 1].kind, v6)
    requires NormalItem(i, cs[|cs| - 1].kind, v6, false, true)
    ensures cs[|cs| - 1].Ops? && |cs[|cs| - 1].items| > 0
    ensures var t, used := Num(cs[|cs| - 1].kind), |EncodeAll(Continued(cs, i), v6)|;
            t < TYPE_MAX && parts[t].offset <= used && Components(Continued(cs, i), v6) &&
            Indexed(parts[t := Part(parts[t].offset, used - parts[t].offset)], Continued(cs, i), v6)
  {
    var c := cs[|cs| - 1];
    assert Normal(c, v6) && c.Ops?;
    var c' := Ops(c.kind, Extend(c.items, i));
    ExtendOps(c, i, v6);
    IndexLast(parts, cs, c', v6);
    ContinuedLength(cs, i, v6);
    assert Continued(cs, i) == cs[..|cs| - 1] + [c'];
  }

  lemma BeginIff(data: Bytes, parts: seq<Part>, off: nat, cs: seq<Component>, v6: bool, kind: bv8, i: Item,
                 bytes: Bytes)
    requires Holds(data, parts, off, cs, v6) && bytes == [kind] + ([i.op] + i.value)
    requires Num(kind) < TYPE_MAX && parts[Num(kind)].length == 0
    ensures Holds(data + bytes, parts[Num(kind) := Part(|data|, |bytes|)], |data| + 1, cs + [Ops(kind, [i])], v6) <==>
            IsOps(kind, v6) && NormalItem(i, kind, v6, true, true)
  {
    if IsOps(kind, v6) && NormalItem(i, kind, v6, true, true) {
      BeginHolds(data, parts, off, cs, v6, kind, i, bytes);
    } else {
      BeginFails(cs, v6, kind, i);
    }
  }

  lemma BeginHolds(data: Bytes, parts: seq<Part>, off: nat, cs: seq<Component>, v6: bool, kind: bv8, i: Item,
                   bytes: Bytes)
    requires Holds(data, parts, off, cs, v6) && IsOps(kind, v6) && bytes == [kind] + ([i.op] + i.value)
    requires Num(kind) < TYPE_MAX && parts[Num(kind)].length == 0 && NormalItem(i, kind, v6, true, true)
    ensures Holds(data + bytes, parts[Num(kind) := Part(|data|, |bytes|)], |data| + 1, cs + [Ops(kind, [i])], v6)
  {
    var c := Ops(kind, [i]);
    NewOps(kind, i, v6);
    FirstOp(cs, c, i, v6);
    NewHolds(data, parts, off, cs, v6, c, |data| + 1);
  }

  lemma BeginFails(cs: seq<Component>, v6: bool, kind: bv8, i: Item)
    requires !(IsOps(kind, v6) && NormalItem(i, kind, v6, true, true))
    ensures !Components(cs + [Ops(kind, [i])], v6)
  {
    var ds := cs + [Ops(kind, [i])];
    if Components(ds, v6) {
      LastNormal(ds, v6);
      ItemsAreNormal([i], kind, v6, true);
    }
  }

  lemma LastNormal(cs: seq<Component>, v6: bool)
    requires cs != [] && Components(cs, v6)
    ensures Normal(cs[|cs| - 1], v6)
  {
  }

  /** now and parts' are buffer and index with i written behind the rest. */
  ghost predicate Appended(data: Bytes, parts: seq<Part>, off: nat, kind: bv8, i: Item, now: Bytes, parts': seq<Part>) {
    && Num(kind) < |parts| && |now| == |data| + |[i.op] + i.value|
    && now == (if off < |data| then data[off := NoEnd(data[off])] else data) + ([i.op] + i.value)
    && var start := if parts[Num(kind)].length == 0 then |data| else parts[Num(kind)].offset;
       start <= |now| && parts' == parts[Num(kind) := Part(start, |now| - start)]
  }

  method Append(data: Bytes, parts: seq<Part>, off: nat, kind: bv8, i: Item) returns (now: Bytes, parts': seq<Part>)
    requires Num(kind) < |parts| && (parts[Num(kind)].length != 0 ==> parts[Num(kind)].offset <= |data|)
    ensures Appended(data, parts, off, kind, i, now, parts')
  {
    var bytes := if off < |data| then data[off := NoEnd(data[off])] else data;
    now := bytes + ([i.op] + i.value);
    var start := if parts[Num(kind)].length == 0 then |data| else parts[Num(kind)].offset;
    parts' := parts[Num(kind) := Part(start, |now| - start)];
  }

  lemma ContinueIff(data: Bytes, parts: seq<Part>, off: nat, cs: seq<Component>, v6: bool, kind: bv8, i: Item,
                    now: Bytes, parts': seq<Part>)
    requires Holds(data, parts, off, cs, v6) && IsStackable(kind) && Appended(data, parts, off, kind, i, now, parts')
    ensures Holds(now, parts', |data|, Added(cs, kind, i), v6) <==>
            cs != [] && cs[|cs| - 1].kind == kind && NormalItem(i, kind, v6, false, true)
  {
    if cs == [] || cs[|cs| - 1].kind != kind {
      AddedElsewhere(data, cs, v6, kind, i, now);
    } else {
      LastIsOps(cs, v6);
      if NormalItem(i, kind, v6, false, true) {
        ContinueHolds(data, parts, off, cs, v6, kind, i, now, parts');
      } else {
        ContinuedFails(cs, i, v6);
      }
    }
  }

  lemma ContinueHolds(data: Bytes, parts: seq<Part>, off: nat, cs: seq<Component>, v6: bool, kind: bv8, i: Item,
                      now: Bytes, parts': seq<Part>)
    requires Holds(data, parts, off, cs, v6) && Appended(data, parts, off, kind, i, now, parts')
    requires cs != [] && cs[|cs| - 1].kind == kind && IsOps(kind, v6) && NormalItem(i, kind, v6, false, true)
    ensures cs[|cs| - 1].Ops? && |cs[|cs| - 1].items| > 0 && Holds(now, parts', |data|, Continued(cs, i), v6)
  {
    LastHasEntry(parts, cs, v6);
    ContinuedIndexed(parts, cs, v6, i);
    ContinuedData(data, parts, off, cs, v6, kind, i, now, parts');
    ContinuedLast(cs, i, v6);
  }

  lemma ContinuedLast(cs: seq<Component>, i: Item, v6: bool)
    requires cs != [] && cs[|cs| - 1].Ops? && |cs[|cs| - 1].items| > 0
    ensures |BeforeLast(Continued(cs, i), v6)| == |EncodeAll(cs, v6)|
  {
    ContinuedBytes(cs, i, v6);
  }

  /** Behind a component of another type, the byte of the type is missing. */
  lemma AddedElsewhere(data: Bytes, cs: seq<Component>, v6: bool, kind: bv8, i: Item, now: Bytes)
    requires data == EncodeAll(cs, v6) && |now| == |data| + |[i.op] + i.value|
    requires cs == [] || cs[|cs| - 1].kind != kind
    ensures now != EncodeAll(Added(cs, kind, i), v6)
  {
    AddedLength(cs, kind, i, v6);
  }

  /** A new component takes one byte more than its operator. */
  lemma AddedLength(cs: seq<Component>, kind: bv8, i: Item, v6: bool)
    requires cs == [] || cs[|cs| - 1].kind != kind
    ensures |EncodeAll(Added(cs, kind, i), v6)| == |EncodeAll(cs, v6)| + 1 + |[i.op] + i.value|
  {
    FirstOp(cs, Ops(kind, [i]), i, v6);
    EncodeAllAppend(cs, Ops(kind, [i]), v6);
  }

  lemma LastIsOps(cs: seq<Component>, v6: bool)
    requires cs != [] && Components(cs, v6) && IsStackable(cs[|cs| - 1].kind)
    ensures IsOps(cs[|cs| - 1].kind, v6) && cs[|cs| - 1].Ops? && |cs[|cs| - 1].items| > 0
  {
    LastNormal(cs, v6);
  }

  lemma ContinuedFails(cs: seq<Component>, i: Item, v6: bool)
    requires cs != [] && cs[|cs| - 1].Ops? && |cs[|cs| - 1].items| > 0
    requires !NormalItem(i, cs[|cs| - 1].kind, v6, false, true)
    ensures !Components(Continued(cs, i), v6)
  {
    if Components(Continued(cs, i), v6) {
      ExtendedNormal(cs, i, v6);
    }
  }

  lemma LastHasEntry(parts: seq<Part>, cs: seq<Component>, v6: bool)
    requires cs != [] && Indexed(parts, cs, v6)
    ensures Num(cs[|cs| - 1].kind) < TYPE_MAX && parts[Num(cs[|cs| - 1].kind)].length != 0
  {
    assert Entry(parts, cs, |cs| - 1, v6);
  }

  lemma ExtendedNormal(cs: seq<Component>, i: Item, v6: bool)
    requires cs != [] && cs[|cs| - 1].Ops? && |cs[|cs| - 1].items| > 0 && Components(Continued(cs, i), v6)
    ensures NormalItem(i, cs[|cs| - 1].kind, v6, false, true)
  {
    var c := cs[|cs| - 1];
    var items := Extend(c.items, i);
    LastNormal(Continued(cs, i), v6);
    ItemsAreNormal(items, c.kind, v6, true);
    assert items[|items| - 1] == i;
  }

  lemma OffsetWithin(parts: seq<Part>, cs: seq<Component>, t: nat, v6: bool)
    requires Indexed(parts, cs, v6) && t < TYPE_MAX
    ensures parts[t].length != 0 ==> parts[t].offset <= |EncodeAll(cs, v6)|
  {
    if parts[t].length != 0 {
      assert HasKind(cs, t);
      var k :| 0 <= k < |cs| && Num(cs[k].kind) == t;
      assert Entry(parts, cs, k, v6);
      PartSlice(cs, k, v6);
    }
  }

  class Builder {
    var data: Bytes
    var thisType: bv8
    var lastType: bv8
    var lastOpOffset: nat
    var parts: seq<Part>
    const v6: bool
    /** The components added so far. */
    ghost var cs: seq<Component>

    ghost predicate Valid()
      reads this
    {
      Holds(data, parts, lastOpOffset, cs, v6)
    }

    /** The component added last is of the type being added. */
    ghost predicate Continues()
      reads this
    {
      cs != [] && cs[|cs| - 1].kind == thisType
    }

    /** The type was set once since the last component, or is still that of it. */
    ghost predicate Ready()
      reads this
    {
      thisType == lastType ==> Continues()
    }

    /** The type of the component allows the operator and the value. */
    predicate Fitting(op: bv8, value: nat)
      reads this
    {
      && IsOps(thisType, v6) && ValueOk(thisType, value, v6)
      && OpOk(op, thisType, thisType != lastType, LengthBits(thisType, value))
    }

    lemma TypeAllowed()
      requires Valid() && IsStackable(thisType)
      ensures Continues() ==> IsOps(thisType, v6)
    {
      if Continues() {
        LastIsOps(cs, v6);
      }
    }

    /** flow_builder_init */
    constructor (v6: bool)
      ensures Valid() && cs == [] && this.v6 == v6 && thisType == lastType == 0
    {
      data, thisType, lastType, lastOpOffset := [], 0, 0, 0;
      parts := seq(TYPE_MAX, _ => Part(0, 0));
      this.v6 := v6;
      cs := [];
    }

    /** The new state after an addition. */
    method Store(data': Bytes, parts': seq<Part>, off: nat, ghost cs': seq<Component>)
      modifies this
      ensures (Valid() <==> Holds(data', parts', off, cs', v6)) && cs == cs' && thisType == lastType == old(thisType)
      ensures data == data'
    {
      data, parts, lastOpOffset, lastType, cs := data', parts', off, thisType, cs';
    }

    /** flow_builder_set_type */
    method SetType(t: bv8)
      requires Valid()
      modifies this`thisType, this`lastType
      ensures Valid() && thisType == t && lastType == old(thisType)
    {
      lastType := thisType;
      thisType := t;
    }

    /** flow_builder4_add_pfx, flow_builder6_add_pfx */
    method AddPrefix(addr: seq<bool>, pxlen: nat, offset: nat) returns (ok: bool)
      requires Valid() && IsPrefix(thisType) && |data| + 19 <= MAX_USED
      requires |addr| == MaxPrefix(v6) && offset <= pxlen <= |addr| && (!v6 ==> offset == 0)
      requires forall k :: pxlen <= k < |addr| ==> !addr[k]
      modifies this
      ensures Valid() && thisType == old(thisType)
      ensures ok <==> !HasKind(old(cs), Num(thisType))
      ensures ok ==> lastType == thisType && cs == old(cs) + [PrefixPart(thisType, addr, pxlen, offset)]
      ensures !ok ==> cs == old(cs) && lastType == old(lastType) && data == old(data)
      // the bytes written: type, length, offset, and the bits of the address behind the offset
      ensures ok ==> old(data) < data && PrefixWritten(data[|old(data)|..], thisType, addr, pxlen, offset, v6)
    {
      KindNum(thisType);
      IndexHas(parts, cs, Num(thisType), v6);
      if parts[Num(thisType)].length != 0 {
        return false;
      }
      ghost var c := PrefixPart(thisType, addr, pxlen, offset);
      PrefixNormal(thisType, addr, pxlen, offset, v6);
      var bytes := PrefixHeader(thisType, pxlen, offset, v6) + PrefixBytes(ShiftLeft(addr, offset), pxlen - offset);
      assert bytes == Encode(c, v6);
      WrittenBits(thisType, addr, pxlen, offset, v6, bytes);
      ghost var was := data;
      BeginPart(c, bytes, lastOpOffset);
      assert data[|was|..] == bytes;
      return true;
    }

    /** A new component behind the others. */
    method BeginPart(ghost c: Component, bytes: Bytes, off: nat)
      requires Valid() && Normal(c, v6) && c.kind == thisType && bytes == Encode(c, v6)
      requires Num(thisType) < TYPE_MAX && parts[Num(thisType)].length == 0
      requires c.Ops? ==> |c.items| == 1 && off == |data| + 1
      modifies this
      ensures Valid() && thisType == lastType == old(thisType) && cs == old(cs) + [c] && data == old(data) + bytes
    {
      NewHolds(data, parts, lastOpOffset, cs, v6, c, off);
      Store(data + bytes, parts[Num(thisType) := Part(|data|, |bytes|)], off, cs + [c]);
    }

    /** A new component with one operator: right iff the operator is in normal form. */
    method BeginOps(i: Item)
      requires Valid() && Num(thisType) < TYPE_MAX && parts[Num(thisType)].length == 0
      modifies this
      ensures thisType == lastType == old(thisType) && cs == old(cs) + [Ops(thisType, [i])]
      ensures Valid() <==> IsOps(thisType, v6) && NormalItem(i, thisType, v6, true, true)
    {
      var bytes := [thisType] + ([i.op] + i.value);
      BeginIff(data, parts, lastOpOffset, cs, v6, thisType, i, bytes);
      Store(data + bytes, parts[Num(thisType) := Part(|data|, |bytes|)], |data| + 1, cs + [Ops(thisType, [i])]);
    }

    /** One more operator behind the last one, whose end bit goes: right iff the last
        component is of this type and the operator is in normal form; in any case the last
        component has it now. */
    method Continue(i: Item)
      requires Valid() && IsStackable(thisType) && Num(thisType) < TYPE_MAX
      modifies this
      ensures thisType == lastType == old(thisType) && cs == Added(old(cs), thisType, i)
      ensures Valid() <==> old(Continues()) && NormalItem(i, thisType, v6, false, true)
      ensures old(cs != [] && cs[|cs| - 1].Ops?) ==> data == EncodeAll(Continued(old(cs), i), v6)
    {
      OffsetWithin(parts, cs, Num(thisType), v6);
      var now, parts' := Append(data, parts, lastOpOffset, thisType, i);
      ContinueIff(data, parts, lastOpOffset, cs, v6, thisType, i, now, parts');
      ContinuedData(data, parts, lastOpOffset, cs, v6, thisType, i, now, parts');
      Store(now, parts', |data|, Added(cs, thisType, i));
    }

    /** flow_builder_add_op_val.  What is added is right iff the type was set once since
        the last component or is still that of the last component, and it allows the
        operator and the value. */
    method AddOp(op: bv8, value: nat) returns (ok: bool)
      requires Valid() && IsStackable(thisType) && value <= MAX_VALUE && |data| + 6 <= MAX_USED
      modifies this
      ensures thisType == old(thisType)
      ensures ok <==> !HasKind(old(cs), Num(thisType)) || old(lastType) == thisType
      ensures !ok ==> Valid() && cs == old(cs) && lastType == old(lastType)
      ensures ok ==> lastType == thisType && cs == Added(old(cs), thisType, Pushed(thisType, op, value))
      ensures ok ==> (Valid() <==> old(Ready() && Fitting(op, value)))
      ensures old(thisType == lastType && cs != [] && cs[|cs| - 1].Ops?) ==>
                data == EncodeAll(Continued(old(cs), Pushed(thisType, op, value)), v6)
    {
      KindNum(thisType);
      IndexHas(parts, cs, Num(thisType), v6);
      if parts[Num(thisType)].length != 0 && lastType != thisType {
        return false;
      }
      var i := Pushed(thisType, op, value);
      PushedIff(thisType, op, value, v6, thisType != lastType);
      if thisType == lastType {
        TypeAllowed();
        Continue(i);
      } else {
        BeginOps(i);
      }
      return true;
    }

    /** builder_write_parts: the components in increasing order of type. */
    method WriteParts() returns (out: Bytes, ghost ss: seq<Component>)
      requires Valid()
      ensures out == EncodeAll(ss, v6) && |out| == |data| && Ordered(ss, TYPE_MAX, v6)
      ensures forall c :: c in ss <==> c in cs
    {
      AllSlots(data, parts, lastOpOffset, cs, v6);
      out, ss := WriteSlots(data, parts, cs, v6);
      AllWritten(ss, cs, v6);
    }
  }

  /** The bytes of a prefix component: type, length, in IPv6 the offset, and the bits of the address behind it. */
  ghost predicate PrefixWritten(bytes: Bytes, kind: bv8, addr: seq<bool>, pxlen: nat, offset: nat, v6: bool)
    requires offset <= pxlen <= |addr|
  {
    var h := if v6 then 3 else 2;
    && |bytes| == h + (pxlen - offset + 7) / 8
    && bytes[0] == kind && Num(bytes[1]) == pxlen && (v6 ==> Num(bytes[2]) == offset)
    && forall k :: 0 <= k < pxlen - offset ==> (BitAt(bytes[h + k / 8], k % 8) <==> addr[offset + k])
  }

  lemma WrittenBits(kind: bv8, addr: seq<bool>, pxlen: nat, offset: nat, v6: bool, bytes: Bytes)
    requires offset <= pxlen <= |addr| <= 0xff && |addr| % 8 == 0
    requires bytes == PrefixHeader(kind, pxlen, offset, v6) + PrefixBytes(ShiftLeft(addr, offset), pxlen - offset)
    ensures PrefixWritten(bytes, kind, addr, pxlen, offset, v6)
  {
    var h, px := if v6 then 3 else 2, PrefixBytes(ShiftLeft(addr, offset), pxlen - offset);
    forall k | 0 <= k < pxlen - offset ensures BitAt(bytes[h + k / 8], k % 8) <==> addr[offset + k] {
      PrefixBit(addr, pxlen - offset, offset, k);
      assert bytes[h + k / 8] == px[k / 8];
    }
  }

  /** A type set twice before its first operator: the operator is accepted and goes to the component before. */
  method SetTwice(fb: Builder, kind: bv8, op: bv8, value: nat) returns (ok: bool)
    requires fb.Valid() && IsStackable(kind) && value <= MAX_VALUE && |fb.data| + 6 <= MAX_USED
    requires fb.cs == [] || fb.cs[|fb.cs| - 1].kind != kind
    modifies fb
    ensures ok && !fb.Valid()
    ensures old(fb.cs != [] && fb.cs[|fb.cs| - 1].Ops?) ==>
              fb.data == EncodeAll(Continued(old(fb.cs), Pushed(kind, op, value)), fb.v6)
  {
    fb.SetType(kind);
    fb.SetType(kind);
    ok := fb.AddOp(op, value);
  }

  /** Port 80, and then protocol 6 with its type set twice: what is built says port 80 or 6. */
  method SetTwiceExample() returns (fb: Builder, ok: bool)
    ensures ok && !fb.Valid() && fb.data == [4, 0x01, 80, 0x81, 6]
  {
    fb := new Builder(false);
    fb.SetType(4);
    ok := fb.AddOp(1, 80);
    ExampleBytes(fb.cs);
    ok := SetTwice(fb, 3, 1, 6);
  }

  lemma ExampleBytes(cs: seq<Component>)
    requires cs == [Ops(4, [Pushed(4, 1, 80)])]
    ensures EncodeAll(cs, false) == [4, 0x81, 80]
    ensures EncodeAll(Continued(cs, Pushed(3, 1, 6)), false) == [4, 0x01, 80, 0x81, 6]
  {
    var i, j := Item(0x81, [80]), Item(0x81, [6]);
    SmallPushed(4, 80, 80);
    SmallPushed(3, 6, 6);
    FirstOp([], cs[0], i, false);
    EncodeOne(cs[0], false);
    ContinuedBytes(cs, j, false);
    assert cs[..0] == [] && [i][..0] == [];
    assert |BeforeLast(cs, false)| == 1;
  }

  lemma SmallPushed(kind: bv8, value: nat, b: bv8)
    requires value == Num(b) && kind != LABEL
    ensures Pushed(kind, 1, value) == Item(0x81, [b])
  {
    NumLess(ByteOf(value), b);
    NumLess(b, ByteOf(value));
  }

  /** c is the one component of type t. */
  ghost predicate OnlyOf(c: Component, cs: seq<Component>, t: nat) {
    c in cs && Num(c.kind) == t && forall d :: d in cs && Num(d.kind) == t ==> d == c
  }

  /** The index entry p tells the place of the component of type t, if there is one. */
  ghost predicate SlotOk(data: Bytes, p: Part, cs: seq<Component>, t: nat, v6: bool) {
    if p.length == 0 then forall d :: d in cs ==> Num(d.kind) != t
    else exists c :: OnlyOf(c, cs, t) && PartIs(data, p, c, v6)
  }

  ghost predicate SlotsOk(data: Bytes, parts: seq<Part>, cs: seq<Component>, v6: bool) {
    |parts| == TYPE_MAX &&
    forall t {:trigger SlotOk(data, parts[t], cs, t, v6)} :: 0 <= t < TYPE_MAX ==> SlotOk(data, parts[t], cs, t, v6)
  }

  /** Strictly increasing types, all below t. */
  ghost predicate Rising(ss: seq<Component>, t: nat) {
    && (forall k :: 0 <= k < |ss| ==> Num(ss[k].kind) < t)
    && (forall j, k :: 0 <= j < k < |ss| ==> Num(ss[j].kind) < Num(ss[k].kind))
  }

  /** out lists the components of types below t. */
  ghost predicate Written(out: Bytes, ss: seq<Component>, cs: seq<Component>, t: nat, v6: bool) {
    && out == EncodeAll(ss, v6) && Rising(ss, t)
    && (forall c :: c in ss ==> c in cs)
    && (forall c :: c in cs && Num(c.kind) < t ==> c in ss)
  }

  /** The loop of builder_write_parts. */
  method WriteSlots(data: Bytes, parts: seq<Part>, ghost cs: seq<Component>, v6: bool)
    returns (out: Bytes, ghost ss: seq<Component>)
    requires SlotsOk(data, parts, cs, v6) && forall c :: c in cs ==> 1 <= Num(c.kind)
    ensures Written(out, ss, cs, TYPE_MAX, v6)
  {
    out, ss := [], [];
    for i := 1 to TYPE_MAX
      invariant Written(out, ss, cs, i, v6)
    {
      if parts[i].length != 0 {
        ss := TakeSlot(data, parts, out, ss, cs, i, v6);
        out := out + data[parts[i].offset..parts[i].offset + parts[i].length];
      } else {
        SkipSlot(data, parts, out, ss, cs, i, v6);
      }
    }
  }

  lemma SkipSlot(data: Bytes, parts: seq<Part>, out: Bytes, ss: seq<Component>, cs: seq<Component>, t: nat, v6: bool)
    requires SlotsOk(data, parts, cs, v6) && t < TYPE_MAX && parts[t].length == 0 && Written(out, ss, cs, t, v6)
    ensures Written(out, ss, cs, t + 1, v6)
  {
    assert SlotOk(data, parts[t], cs, t, v6);
  }

  lemma TakeSlot(data: Bytes, parts: seq<Part>, out: Bytes, ss: seq<Component>, cs: seq<Component>, t: nat, v6: bool)
    returns (ss': seq<Component>)
    requires SlotsOk(data, parts, cs, v6) && t < TYPE_MAX && parts[t].length != 0 && Written(out, ss, cs, t, v6)
    ensures parts[t].offset + parts[t].length <= |data|
    ensures Written(out + data[parts[t].offset..parts[t].offset + parts[t].length], ss', cs, t + 1, v6)
  {
    assert SlotOk(data, parts[t], cs, t, v6);
    var c :| OnlyOf(c, cs, t) && PartIs(data, parts[t], c, v6);
    ss' := ss + [c];
    WrittenMore(out, ss, cs, t, v6, c);
  }

  lemma WrittenMore(out: Bytes, ss: seq<Component>, cs: seq<Component>, t: nat, v6: bool, c: Component)
    requires Written(out, ss, cs, t, v6) && OnlyOf(c, cs, t)
    ensures Written(out + Encode(c, v6), ss + [c], cs, t + 1, v6)
  {
    EncodeAllAppend(ss, c, v6);
  }

  lemma AllSlots(data: Bytes, parts: seq<Part>, off: nat, cs: seq<Component>, v6: bool)
    requires Holds(data, parts, off, cs, v6)
    ensures SlotsOk(data, parts, cs, v6)
    ensures forall c :: c in cs ==> 1 <= Num(c.kind) < TYPE_MAX
  {
    forall t | 0 <= t < TYPE_MAX ensures SlotOk(data, parts[t], cs, t, v6) {
      OneSlot(data, parts, cs, v6, t);
    }
    forall c | c in cs ensures 1 <= Num(c.kind) < TYPE_MAX {
      var k :| 0 <= k < |cs| && cs[k] == c;
      NormalKind(cs, k, v6);
    }
  }

  lemma NormalKind(cs: seq<Component>, k: nat, v6: bool)
    requires Components(cs, v6) && k < |cs|
    ensures 1 <= Num(cs[k].kind) < TYPE_MAX
  {
    assert Normal(cs[k], v6);
    KindRange(cs[k], v6);
  }

  lemma OneSlot(data: Bytes, parts: seq<Part>, cs: seq<Component>, v6: bool, t: nat)
    requires Components(cs, v6) && Indexed(parts, cs, v6) && data == EncodeAll(cs, v6) && t < TYPE_MAX
    ensures SlotOk(data, parts[t], cs, t, v6)
  {
    IndexHas(parts, cs, t, v6);
    if parts[t].length == 0 {
      forall d | d in cs ensures Num(d.kind) != t {
        var k :| 0 <= k < |cs| && cs[k] == d;
      }
    } else {
      var k :| 0 <= k < |cs| && Num(cs[k].kind) == t;
      EntrySlice(parts, cs, k, v6);
      OnlyKind(cs, k, v6);
      assert OnlyOf(cs[k], cs, t);
    }
  }

  lemma OnlyKind(cs: seq<Component>, k: nat, v6: bool)
    requires Components(cs, v6) && k < |cs|
    ensures OnlyOf(cs[k], cs, Num(cs[k].kind))
  {
    forall d | d in cs && Num(d.kind) == Num(cs[k].kind) ensures d == cs[k] {
      var j :| 0 <= j < |cs| && cs[j] == d;
    }
  }

  function PrefixHeader(kind: bv8, pxlen: nat, offset: nat, v6: bool): Bytes
    requires offset <= pxlen <= 0xff
  {
    [kind, ByteOf(pxlen)] + if v6 then [ByteOf(offset)] else []
  }

  /** cs with an operator added: to the last component if that has this type, as a new component if not. */
  ghost function Added(cs: seq<Component>, kind: bv8, i: Item): seq<Component> {
    if cs != [] && cs[|cs| - 1].kind == kind && cs[|cs| - 1].Ops? && |cs[|cs| - 1].items| > 0 then Continued(cs, i)
    else cs + [Ops(kind, [i])]
  }

  lemma FirstOp(cs: seq<Component>, c: Component, i: Item, v6: bool)
    requires c == Ops(c.kind, [i])
    ensures Encode(c, v6) == [c.kind] + ([i.op] + i.value)
    ensures |BeforeLast(cs + [c], v6)| == |EncodeAll(cs, v6)| + 1
  {
    assert EncodeItems([i]) == [i.op] + i.value + EncodeItems([]);
    assert (cs + [c])[..|cs|] == cs && [i][..0] == [];
  }

  lemma ContinuedLength(cs: seq<Component>, i: Item, v6: bool)
    requires cs != [] && cs[|cs| - 1].Ops? && |cs[|cs| - 1].items| > 0
    ensures var c := cs[|cs| - 1];
            |EncodeAll(Continued(cs, i), v6)| ==
              |EncodeAll(cs[..|cs| - 1], v6)| + |Encode(Ops(c.kind, Extend(c.items, i)), v6)|
  {
    var c := cs[|cs| - 1];
    EncodeAllAppend(cs[..|cs| - 1], Ops(c.kind, Extend(c.items, i)), v6);
  }

  // ---- The finished rule ----

  lemma PartSlice(cs: seq<Component>, k: nat, v6: bool)
    requires k < |cs|
    ensures var data, s, n := EncodeAll(cs, v6), Start(cs, k, v6), |Encode(cs[k], v6)|;
            s + n <= |data| && data[s..s + n] == Encode(cs[k], v6)
  {
    assert cs == cs[..k] + ([cs[k]] + cs[k + 1..]);
    SliceBetween(cs, cs[..k], cs[k], cs[k + 1..], v6);
  }

  lemma SliceBetween(cs: seq<Component>, a: seq<Component>, c: Component, b: seq<Component>, v6: bool)
    requires cs == a + ([c] + b)
    ensures var data, s, n := EncodeAll(cs, v6), |EncodeAll(a, v6)|, |Encode(c, v6)|;
            s + n <= |data| && data[s..s + n] == Encode(c, v6)
  {
    EncodeAllConcat(a, [c] + b, v6);
    EncodeMore(c, b, v6);
    MiddleSlice(EncodeAll(cs, v6), EncodeAll(a, v6), Encode(c, v6), EncodeAll(b, v6));
  }

  lemma MiddleSlice(all: Bytes, a: Bytes, b: Bytes, c: Bytes)
    requires all == a + (b + c)
    ensures |a| + |b| <= |all| && all[|a|..|a| + |b|] == b
  {
  }

  /** Components in strictly increasing order of type, all below t. */
  ghost predicate Ordered(ss: seq<Component>, t: nat, v6: bool) {
    Rising(ss, t) && forall k :: 0 <= k < |ss| ==> Normal(ss[k], v6)
  }

  lemma NumLess(a: bv8, b: bv8)
    ensures Num(a) < Num(b) <==> a < b
  {
  }

  lemma {:induction false} OrderedWf(ss: seq<Component>, t: nat, above: bv8, v6: bool)
    requires Ordered(ss, t, v6) && (ss != [] ==> Num(above) < Num(ss[0].kind))
    ensures WfAll(ss, above, v6) && CleanAll(ss, v6) == ss
    decreases |ss|
  {
    if ss != [] {
      NumLess(above, ss[0].kind);
      assert Normal(ss[0], v6);
      OrderedRest(ss, t, v6);
      OrderedWf(ss[1..], t, ss[0].kind, v6);
      assert ss == [ss[0]] + ss[1..];
    }
  }

  lemma OrderedRest(ss: seq<Component>, t: nat, v6: bool)
    requires ss != [] && Ordered(ss, t, v6)
    ensures Ordered(ss[1..], t, v6) && (|ss| > 1 ==> Num(ss[0].kind) < Num(ss[1..][0].kind))
  {
    var r := ss[1..];
    forall k | 0 <= k < |r| ensures Normal(r[k], v6) && Num(r[k].kind) < t { assert r[k] == ss[k + 1]; }
    forall j, k | 0 <= j < k < |r| ensures Num(r[j].kind) < Num(r[k].kind) {
      assert r[j] == ss[j + 1] && r[k] == ss[k + 1];
    }
  }

  lemma KindRange(c: Component, v6: bool)
    requires Wf(c, v6)
    ensures 1 <= Num(c.kind) < TYPE_MAX
  {
  }

  /** The place p of the buffer holds the component. */
  ghost predicate PartIs(data: Bytes, p: Part, c: Component, v6: bool) {
    p.offset + p.length <= |data| && data[p.offset..p.offset + p.length] == Encode(c, v6)
  }

  lemma EntrySlice(parts: seq<Part>, cs: seq<Component>, k: nat, v6: bool)
    requires k < |cs| && Indexed(parts, cs, v6)
    ensures Num(cs[k].kind) < TYPE_MAX && PartIs(EncodeAll(cs, v6), parts[Num(cs[k].kind)], cs[k], v6)
  {
    PartSlice(cs, k, v6);
    assert Entry(parts, cs, k, v6);
  }

  lemma AllWritten(ss: seq<Component>, cs: seq<Component>, v6: bool)
    requires Components(cs, v6) && Rising(ss, TYPE_MAX) && forall c :: c in ss ==> c in cs
    requires forall c :: c in cs && Num(c.kind) < TYPE_MAX ==> c in ss
    ensures (forall c :: c in ss <==> c in cs) && |EncodeAll(ss, v6)| == |EncodeAll(cs, v6)|
    ensures Ordered(ss, TYPE_MAX, v6)
  {
    forall c | c in cs ensures c in ss {
      var k :| 0 <= k < |cs| && cs[k] == c;
      NormalKind(cs, k, v6);
    }
    AllNormal(ss, cs, v6);
    SameLength(ss, cs, v6);
  }

  lemma AllNormal(ss: seq<Component>, cs: seq<Component>, v6: bool)
    requires Components(cs, v6) && forall c :: c in ss ==> c in cs
    ensures forall k :: 0 <= k < |ss| ==> Normal(ss[k], v6)
  {
    forall k | 0 <= k < |ss| ensures Normal(ss[k], v6) {
      assert ss[k] in cs;
      var j :| 0 <= j < |cs| && cs[j] == ss[k];
    }
  }

  lemma FirstIn(cs: seq<Component>)
    ensures cs != [] ==> cs[0] in cs
  {
  }

  /** Lists without repetition and with the same members have encodings of the same length. */
  lemma {:induction false} SameLength(ss: seq<Component>, cs: seq<Component>, v6: bool)
    requires forall j, k :: 0 <= j < k < |ss| ==> ss[j] != ss[k]
    requires forall j, k :: 0 <= j < k < |cs| ==> cs[j] != cs[k]
    requires forall c :: c in ss <==> c in cs
    ensures |EncodeAll(ss, v6)| == |EncodeAll(cs, v6)|
    decreases |ss|
  {
    FirstIn(cs);
    if ss == [] {
      assert cs == [];
    } else {
      assert ss[0] in cs;
      var k :| 0 <= k < |cs| && cs[k] == ss[0];
      var rest := cs[..k] + cs[k + 1..];
      Removed(ss, cs, k);
      RemovedLength(cs, k, v6);
      SameLength(ss[1..], rest, v6);
    }
  }

  lemma RemovedLength(cs: seq<Component>, k: nat, v6: bool)
    requires k < |cs|
    ensures |EncodeAll(cs, v6)| == |Encode(cs[k], v6)| + |EncodeAll(cs[..k] + cs[k + 1..], v6)|
  {
    assert cs == cs[..k] + ([cs[k]] + cs[k + 1..]);
    EncodeAllConcat(cs[..k], [cs[k]] + cs[k + 1..], v6);
    EncodeAllConcat(cs[..k], cs[k + 1..], v6);
    EncodeMore(cs[k], cs[k + 1..], v6);
  }

  lemma Removed(ss: seq<Component>, cs: seq<Component>, k: nat)
    requires ss != [] && k < |cs| && cs[k] == ss[0]
    requires forall j, k :: 0 <= j < k < |ss| ==> ss[j] != ss[k]
    requires forall j, k :: 0 <= j < k < |cs| ==> cs[j] != cs[k]
    requires forall c :: c in ss <==> c in cs
    ensures var rest := cs[..k] + cs[k + 1..];
            (forall i, j :: 0 <= i < j < |rest| ==> rest[i] != rest[j]) && forall c :: c in ss[1..] <==> c in rest
  {
    var rest := cs[..k] + cs[k + 1..];
    forall c ensures c in ss[1..] <==> c in rest {
      assert c in rest <==> c in cs && c != cs[k];
      assert c in ss[1..] <==> c in ss && c != ss[0];
    }
  }
}
