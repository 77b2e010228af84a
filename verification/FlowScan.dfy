/** What the checks of lib/flowspec.c report, component by component, and that
    they accept exactly the encodings of component lists.
 */
module FlowScan {
  import opened FlowOps
  import opened FlowFormat

  /** FLOW_ST_* */
  datatype State =
    | UnknownComponent | Valid | NotComplete | ExceedMaxPrefixLength | ExceedMaxPrefixOffset
    | ExceedMaxValueLength | BadTypeOrder | NonzeroPadding | FirstAndBitSet | ZeroBitSet
    | InvalidTcpFlags | InvalidFragment

  /** One component checked: an error, or the position behind it. */
  datatype Step = Stop(state: State) | Go(next: nat)

  // ---- Checks; strict ones also reject what is not in normal form ----

  function PayloadAt(b: Bytes, pos: nat, bits: nat, strict: bool): (r: Step)
    ensures r.Go? ==> r.next == pos + BytesOf(bits) <= |b|
    ensures r.Stop? ==> r.state != Valid
  {
    var next := pos + BytesOf(bits);
    if next > |b| then Stop(NotComplete)
    else if strict && bits % 8 != 0 && b[next - 1] & Padding(bits) != 0 then Stop(NonzeroPadding)
    else Go(next)
  }

  /** The first complaint about the header of a prefix. */
  function PrefixFault(b: Bytes, pos: nat, v6: bool): State {
    if pos + HeaderLength(v6) > |b| then NotComplete
    else if Num(b[pos]) > MaxPrefix(v6) then ExceedMaxPrefixLength
    else if v6 && Num(b[pos + 1]) > Num(b[pos]) then ExceedMaxPrefixOffset
    else Valid
  }

  function HeaderLength(v6: bool): nat { if v6 then 2 else 1 }

  /** Number of prefix bits that follow the header. */
  function BitsAt(b: Bytes, pos: nat, v6: bool): nat
    requires PrefixFault(b, pos, v6) == Valid
  {
    if v6 then Num(b[pos]) - Num(b[pos + 1]) else Num(b[pos])
  }

  function PrefixAt(b: Bytes, pos: nat, v6: bool, strict: bool): (r: Step)
    ensures r.Go? ==> pos < r.next <= |b|
    ensures r.Stop? ==> r.state != Valid
  {
    if PrefixFault(b, pos, v6) != Valid then Stop(PrefixFault(b, pos, v6))
    else PayloadAt(b, pos + HeaderLength(v6), BitsAt(b, pos, v6), strict)
  }

  /** The first complaint about an operator and the first byte of its value. */
  function OpFault(op: bv8, x: bv8, kind: bv8, v6: bool, first: bool): State {
    if first && AndBit(op) then FirstAndBitSet
    else if op & 0x08 != 0 then ZeroBitSet
    else if (kind == TCP_FLAGS || kind == FRAGMENT) && op & 0x04 != 0 then ZeroBitSet
    else if kind == TCP_FLAGS && ValueLength(op) == 2 && x & 0xf0 != 0 then InvalidTcpFlags
    else if kind == FRAGMENT && ValueLength(op) == 1 && x & (if v6 then 0xf1 else 0xf0) != 0 then InvalidFragment
    else Valid
  }

  function OpsAt(b: Bytes, pos: nat, kind: bv8, v6: bool, first: bool, strict: bool): (r: Step)
    ensures r.Go? ==> pos < r.next <= |b|
    ensures r.Stop? ==> r.state != Valid
    decreases |b| - pos
  {
    if pos + 1 > |b| then Stop(NotComplete)
    else if !LengthAllowed(kind, ValueLength(b[pos])) then Stop(ExceedMaxValueLength)
    else if NextOp(b, pos) > |b| then Stop(NotComplete)
    else
      var fault := if strict then OpFault(b[pos], b[pos + 1], kind, v6, first) else Valid;
      if fault != Valid then Stop(fault)
      else if EndBit(b[pos]) then Go(NextOp(b, pos))
      else OpsAt(b, NextOp(b, pos), kind, v6, false, strict)
  }

  function PartAt(b: Bytes, pos: nat, v6: bool, strict: bool): (r: Step)
    requires pos < |b|
    ensures r.Go? ==> pos < r.next <= |b|
    ensures r.Stop? ==> r.state != Valid
  {
    if IsPrefix(b[pos]) then PrefixAt(b, pos + 1, v6, strict)
    else if IsOps(b[pos], v6) then OpsAt(b, pos + 1, b[pos], v6, true, strict)
    else Stop(UnknownComponent)
  }

  /** The state reported for the bytes from pos on, after a component of type above. */
  function Scan(b: Bytes, pos: nat, above: bv8, v6: bool, strict: bool): State
    requires pos <= |b|
    decreases |b| - pos
  {
    if pos == |b| then Valid
    else if b[pos] <= above then BadTypeOrder
    else
      match PartAt(b, pos, v6, strict)
      case Stop(state) => state
      case Go(next) => Scan(b, next, b[pos], v6, strict)
  }

  // ---- Parsing ----

  ghost function ItemAt(b: Bytes, pos: nat): Item
    requires pos < |b| && NextOp(b, pos) <= |b|
  {
    Item(b[pos], b[pos + 1..NextOp(b, pos)])
  }

  ghost function ItemsAt(b: Bytes, pos: nat, kind: bv8, v6: bool, first: bool): (r: seq<Item>)
    requires OpsAt(b, pos, kind, v6, first, false).Go?
    ensures |r| > 0
    decreases |b| - pos
  {
    if EndBit(b[pos]) then [ItemAt(b, pos)]
    else [ItemAt(b, pos)] + ItemsAt(b, NextOp(b, pos), kind, v6, false)
  }

  lemma {:induction false} ItemsParsed(b: Bytes, pos: nat, kind: bv8, v6: bool, first: bool)
    requires OpsAt(b, pos, kind, v6, first, false).Go?
    ensures var items := ItemsAt(b, pos, kind, v6, first);
            WfItems(items, kind) && EncodeItems(items) == b[pos..OpsAt(b, pos, kind, v6, first, false).next]
    decreases |b| - pos
  {
    var items, next := ItemsAt(b, pos, kind, v6, first), NextOp(b, pos);
    assert b[pos..next] == [b[pos]] + b[pos + 1..next];
    if EndBit(b[pos]) {
      assert EncodeItems(items[1..]) == [];
    } else {
      ItemsParsed(b, next, kind, v6, false);
      assert items[1..] == ItemsAt(b, next, kind, v6, false);
      var end := OpsAt(b, next, kind, v6, false, false).next;
      assert b[pos..end] == b[pos..next] + b[next..end];
    }
  }

  /** Splitting a prefix of a suffix. */
  lemma SplitAt(x: Bytes, y: Bytes, b: Bytes, pos: nat)
    requires pos <= |b| && x + y <= b[pos..]
    ensures pos + |x| <= |b| && x == b[pos..pos + |x|] && y <= b[pos + |x|..]
  {
    var s := b[pos..];
    assert (x + y)[..|x|] == x && s[..|x|] == b[pos..pos + |x|];
    assert (x + y)[|x|..] == y && s[|x|..] == b[pos + |x|..];
  }

  lemma {:induction false} ItemsEncoded(items: seq<Item>, b: Bytes, pos: nat, kind: bv8, v6: bool, first: bool)
    requires WfItems(items, kind) && pos <= |b| && EncodeItems(items) <= b[pos..]
    ensures OpsAt(b, pos, kind, v6, first, false) == Go(pos + |EncodeItems(items)|)
    ensures ItemsAt(b, pos, kind, v6, first) == items
    decreases |items|
  {
    var i, rest := items[0], EncodeItems(items[1..]);
    assert EncodeItems(items) == ([i.op] + i.value) + rest;
    SplitAt([i.op] + i.value, rest, b, pos);
    assert b[pos] == i.op && b[pos + 1..NextOp(b, pos)] == i.value;
    assert items == [i] + items[1..];
    if |items| > 1 {
      ItemsEncoded(items[1..], b, NextOp(b, pos), kind, v6, false);
    }
  }

  ghost function PartOf(b: Bytes, pos: nat, v6: bool): Component
    requires pos < |b| && PartAt(b, pos, v6, false).Go?
  {
    var next := PartAt(b, pos, v6, false).next;
    if !IsPrefix(b[pos]) then Ops(b[pos], ItemsAt(b, pos + 1, b[pos], v6, true))
    else if v6 then Prefix(b[pos], b[pos + 1], b[pos + 2], b[pos + 3..next])
    else Prefix(b[pos], b[pos + 1], 0, b[pos + 2..next])
  }

  lemma PartParsed(b: Bytes, pos: nat, v6: bool)
    requires pos < |b| && PartAt(b, pos, v6, false).Go?
    ensures var c := PartOf(b, pos, v6);
            Wf(c, v6) && c.kind == b[pos] && Encode(c, v6) == b[pos..PartAt(b, pos, v6, false).next]
  {
    var c, next := PartOf(b, pos, v6), PartAt(b, pos, v6, false).next;
    if !IsPrefix(b[pos]) {
      ItemsParsed(b, pos + 1, b[pos], v6, true);
    } else if v6 {
      assert Encode(c, v6) == [b[pos], b[pos + 1]] + [b[pos + 2]] + b[pos + 3..next];
    } else {
      assert Encode(c, v6) == [b[pos], b[pos + 1]] + [] + b[pos + 2..next];
    }
  }

  /** A list of bytes at a position, byte by byte. */
  lemma HeaderAt(head: Bytes, bytes: Bytes, b: Bytes, pos: nat)
    requires pos <= |b| && head + bytes <= b[pos..]
    ensures pos + |head| + |bytes| <= |b| && bytes == b[pos + |head|..pos + |head| + |bytes|]
    ensures forall k :: 0 <= k < |head| ==> b[pos + k] == head[k]
  {
    SplitAt(head, bytes, b, pos);
    forall k | 0 <= k < |head| ensures b[pos + k] == head[k] {
      assert b[pos..pos + |head|][k] == head[k];
    }
  }

  lemma PrefixEncoded(c: Component, b: Bytes, pos: nat, v6: bool)
    requires c.Prefix? && Wf(c, v6) && pos <= |b| && Encode(c, v6) <= b[pos..]
    ensures pos < |b| && b[pos] == c.kind && PrefixAt(b, pos + 1, v6, false) == Go(pos + |Encode(c, v6)|)
    ensures c.pxlen == b[pos + 1] && (v6 ==> c.offset == b[pos + 2])
    ensures c.bytes == b[pos + (if v6 then 3 else 2)..pos + |Encode(c, v6)|]
  {
    var head := [c.kind, c.pxlen] + if v6 then [c.offset] else [];
    HeaderAt(head, c.bytes, b, pos);
    assert b[pos + 0] == head[0] && b[pos + 1] == head[1] && (v6 ==> b[pos + 2] == head[2]);
  }

  lemma PartEncoded(c: Component, b: Bytes, pos: nat, v6: bool)
    requires Wf(c, v6) && pos <= |b| && Encode(c, v6) <= b[pos..]
    ensures pos < |b| && b[pos] == c.kind && PartAt(b, pos, v6, false) == Go(pos + |Encode(c, v6)|)
    ensures PartOf(b, pos, v6) == c
  {
    match c
    case Prefix(kind, pxlen, offset, bytes) =>
      PrefixEncoded(c, b, pos, v6);
    case Ops(kind, items) =>
      SplitAt([kind], EncodeItems(items), b, pos);
      assert b[pos] == kind;
      ItemsEncoded(items, b, pos + 1, kind, v6, true);
  }

  ghost function Parse(b: Bytes, pos: nat, above: bv8, v6: bool): seq<Component>
    requires pos <= |b| && Scan(b, pos, above, v6, false) == Valid
    decreases |b| - pos
  {
    if pos == |b| then []
    else [PartOf(b, pos, v6)] + Parse(b, PartAt(b, pos, v6, false).next, b[pos], v6)
  }

  lemma EncodeMore(c: Component, cs: seq<Component>, v6: bool)
    ensures EncodeAll([c] + cs, v6) == Encode(c, v6) + EncodeAll(cs, v6)
  {
    assert ([c] + cs)[1..] == cs;
  }

  lemma WfMore(c: Component, cs: seq<Component>, above: bv8, v6: bool)
    ensures WfAll([c] + cs, above, v6) <==> above < c.kind && Wf(c, v6) && WfAll(cs, c.kind, v6)
  {
    assert ([c] + cs)[1..] == cs;
  }

  /** One component ahead of what is parsed behind it. */
  lemma ScanStep(b: Bytes, pos: nat, above: bv8, v6: bool, next: nat)
    requires pos < |b| && above < b[pos] && PartAt(b, pos, v6, false) == Go(next)
    requires Scan(b, next, b[pos], v6, false) == Valid
    ensures Scan(b, pos, above, v6, false) == Valid
    ensures Parse(b, pos, above, v6) == [PartOf(b, pos, v6)] + Parse(b, next, b[pos], v6)
  {
  }

  lemma {:induction false} Parsed(b: Bytes, pos: nat, above: bv8, v6: bool)
    requires pos <= |b| && Scan(b, pos, above, v6, false) == Valid
    ensures var cs := Parse(b, pos, above, v6); WfAll(cs, above, v6) && EncodeAll(cs, v6) == b[pos..]
    decreases |b| - pos
  {
    if pos < |b| {
      var next := PartAt(b, pos, v6, false).next;
      Parsed(b, next, b[pos], v6);
      ParsedMore(b, pos, above, v6, next, Parse(b, next, b[pos], v6));
    }
  }

  lemma ParsedMore(b: Bytes, pos: nat, above: bv8, v6: bool, next: nat, cs: seq<Component>)
    requires pos < |b| && above < b[pos] && PartAt(b, pos, v6, false) == Go(next)
    requires WfAll(cs, b[pos], v6) && EncodeAll(cs, v6) == b[next..]
    ensures WfAll([PartOf(b, pos, v6)] + cs, above, v6) && EncodeAll([PartOf(b, pos, v6)] + cs, v6) == b[pos..]
  {
    PartParsed(b, pos, v6);
    EncodeMore(PartOf(b, pos, v6), cs, v6);
    WfMore(PartOf(b, pos, v6), cs, above, v6);
    assert b[pos..] == b[pos..next] + b[next..];
  }

  lemma EncodedFirst(c: Component, rest: Bytes, b: Bytes, pos: nat, v6: bool, next: nat)
    requires Wf(c, v6) && pos <= |b| && Encode(c, v6) + rest == b[pos..] && next == pos + |Encode(c, v6)|
    ensures pos < |b| && b[pos] == c.kind && PartAt(b, pos, v6, false) == Go(next)
    ensures PartOf(b, pos, v6) == c && next <= |b| && rest == b[next..]
  {
    var e := Encode(c, v6);
    SplitAt(e, rest, b, pos);
    assert (e + rest)[|e|..] == rest && b[pos..][|e|..] == b[next..];
    PartEncoded(c, b, pos, v6);
  }

  lemma {:induction false} Encoded(cs: seq<Component>, b: Bytes, pos: nat, above: bv8, v6: bool)
    requires WfAll(cs, above, v6) && pos <= |b| && EncodeAll(cs, v6) == b[pos..]
    ensures Scan(b, pos, above, v6, false) == Valid && Parse(b, pos, above, v6) == cs
    decreases |cs|
  {
    if cs != [] {
      var c, ds := cs[0], cs[1..];
      assert cs == [c] + ds;
      EncodeMore(c, ds, v6);
      WfMore(c, ds, above, v6);
      var next := pos + |Encode(c, v6)|;
      EncodedFirst(c, EncodeAll(ds, v6), b, pos, v6, next);
      Encoded(ds, b, next, b[pos], v6);
      ScanStep(b, pos, above, v6, next);
    }
  }

  // ---- Strict checks accept what is parsed and in normal form ----

  lemma OpFaultIff(op: bv8, x: bv8, kind: bv8, v6: bool, first: bool)
    ensures OpFault(op, x, kind, v6, first) == Valid <==>
      CleanOp(op, kind, first) == op && CleanByte(x, kind, ValueLength(op), v6) == x
  {
  }

  lemma CleanItemsFixed(items: seq<Item>, kind: bv8, v6: bool, first: bool)
    requires items != [] && items[0].value != []
    ensures CleanItems(items, kind, v6, first) == items <==> (
      && CleanOp(items[0].op, kind, first) == items[0].op
      && CleanByte(items[0].value[0], kind, |items[0].value|, v6) == items[0].value[0]
      && CleanItems(items[1..], kind, v6, false) == items[1..])
  {
    var i, tail := items[0], CleanItems(items[1..], kind, v6, false);
    var head := Item(CleanOp(i.op, kind, first), CleanValue(i.value, kind, v6));
    assert items == [i] + items[1..];
    assert i.value == [i.value[0]] + i.value[1..];
    assert ([head] + tail)[0] == head && ([head] + tail)[1..] == tail;
    assert head.value[0] == CleanByte(i.value[0], kind, |i.value|, v6);
  }

  lemma {:induction false} ItemsStrict(b: Bytes, pos: nat, kind: bv8, v6: bool, first: bool)
    ensures OpsAt(b, pos, kind, v6, first, true).Go? <==> (
      && OpsAt(b, pos, kind, v6, first, false).Go?
      && CleanItems(ItemsAt(b, pos, kind, v6, first), kind, v6, first) == ItemsAt(b, pos, kind, v6, first))
    ensures OpsAt(b, pos, kind, v6, first, true).Go? ==>
      OpsAt(b, pos, kind, v6, first, true) == OpsAt(b, pos, kind, v6, first, false)
    decreases |b| - pos
  {
    if pos < |b| && NextOp(b, pos) <= |b| {
      OpFaultIff(b[pos], b[pos + 1], kind, v6, first);
      if OpsAt(b, pos, kind, v6, first, false).Go? {
        FirstClean(b, pos, kind, v6, first);
      }
      if !EndBit(b[pos]) {
        ItemsStrict(b, NextOp(b, pos), kind, v6, false);
      }
    }
  }

  /** Whether all operators are clean is told by the first one and the rest. */
  lemma FirstClean(b: Bytes, pos: nat, kind: bv8, v6: bool, first: bool)
    requires OpsAt(b, pos, kind, v6, first, false).Go?
    ensures CleanItems(ItemsAt(b, pos, kind, v6, first), kind, v6, first) == ItemsAt(b, pos, kind, v6, first) <==> (
      && CleanOp(b[pos], kind, first) == b[pos]
      && CleanByte(b[pos + 1], kind, ValueLength(b[pos]), v6) == b[pos + 1]
      && (!EndBit(b[pos]) ==>
            var rest := ItemsAt(b, NextOp(b, pos), kind, v6, false); CleanItems(rest, kind, v6, false) == rest))
  {
    FirstOperator(b, pos, kind, v6, first);
    CleanItemsFixed(ItemsAt(b, pos, kind, v6, first), kind, v6, first);
  }

  lemma FirstOperator(b: Bytes, pos: nat, kind: bv8, v6: bool, first: bool)
    requires OpsAt(b, pos, kind, v6, first, false).Go?
    ensures var items := ItemsAt(b, pos, kind, v6, first);
            && items[0].op == b[pos] && |items[0].value| == ValueLength(b[pos]) && items[0].value[0] == b[pos + 1]
            && items[1..] == if EndBit(b[pos]) then [] else ItemsAt(b, NextOp(b, pos), kind, v6, false)
  {
    assert ItemsAt(b, pos, kind, v6, first)[0] == ItemAt(b, pos);
  }

  lemma PaddingStrict(bytes: Bytes, bits: nat)
    requires |bytes| == BytesOf(bits)
    ensures CleanPadding(bytes, bits) == bytes <==>
      (bits % 8 == 0 || bytes[|bytes| - 1] & Padding(bits) == 0)
  {
    if bits % 8 != 0 {
      MaskFixed(bytes[|bytes| - 1], Padding(bits));
      assert CleanPadding(bytes, bits)[|bytes| - 1] == bytes[|bytes| - 1] & !Padding(bits);
      assert bytes == bytes[..|bytes| - 1] + [bytes[|bytes| - 1]];
    }
  }

  lemma MaskFixed(x: bv8, p: bv8)
    ensures x & !p == x <==> x & p == 0
  {
  }

  lemma PayloadStrict(b: Bytes, pos: nat, bits: nat)
    ensures PayloadAt(b, pos, bits, true).Go? <==> (
      && PayloadAt(b, pos, bits, false).Go?
      && var bytes := b[pos..pos + BytesOf(bits)]; CleanPadding(bytes, bits) == bytes)
  {
    if pos + BytesOf(bits) <= |b| {
      PaddingStrict(b[pos..pos + BytesOf(bits)], bits);
    }
  }

  lemma CleanPrefix(c: Component, v6: bool)
    requires c.Prefix? && PrefixBits(c) >= 0
    ensures Clean(c, v6) == c <==> CleanPadding(c.bytes, PrefixBits(c)) == c.bytes
  {
  }

  lemma PrefixStrict(b: Bytes, pos: nat, v6: bool)
    requires pos < |b| && IsPrefix(b[pos])
    ensures PrefixAt(b, pos + 1, v6, true).Go? <==> (
      && PrefixAt(b, pos + 1, v6, false).Go?
      && Clean(PartOf(b, pos, v6), v6) == PartOf(b, pos, v6))
  {
    if PrefixAt(b, pos + 1, v6, false).Go? {
      var c, bits, start := PartOf(b, pos, v6), BitsAt(b, pos + 1, v6), pos + 1 + HeaderLength(v6);
      assert PrefixBits(c) == bits by { assert Num(0) == 0; }
      assert c.bytes == b[start..start + BytesOf(bits)];
      PayloadStrict(b, start, bits);
      CleanPrefix(c, v6);
    }
  }

  lemma PartStrict(b: Bytes, pos: nat, v6: bool)
    requires pos < |b|
    ensures PartAt(b, pos, v6, true).Go? <==> (
      && PartAt(b, pos, v6, false).Go?
      && Clean(PartOf(b, pos, v6), v6) == PartOf(b, pos, v6))
    ensures PartAt(b, pos, v6, true).Go? ==> PartAt(b, pos, v6, true) == PartAt(b, pos, v6, false)
  {
    if IsPrefix(b[pos]) {
      PrefixStrict(b, pos, v6);
    } else {
      ItemsStrict(b, pos + 1, b[pos], v6, true);
    }
  }

  lemma {:induction false} ScanStrict(b: Bytes, pos: nat, above: bv8, v6: bool)
    requires pos <= |b|
    ensures Scan(b, pos, above, v6, true) == Valid <==> (
      && Scan(b, pos, above, v6, false) == Valid
      && CleanAll(Parse(b, pos, above, v6), v6) == Parse(b, pos, above, v6))
    decreases |b| - pos
  {
    if pos < |b| && b[pos] > above {
      PartStrict(b, pos, v6);
      var step := PartAt(b, pos, v6, false);
      if step.Go? {
        ScanStrict(b, step.next, b[pos], v6);
        if Scan(b, pos, above, v6, false) == Valid {
          var cs := Parse(b, pos, above, v6);
          assert cs[1..] == Parse(b, step.next, b[pos], v6);
          assert CleanAll(cs, v6)[1..] == CleanAll(cs[1..], v6) && CleanAll(cs, v6)[0] == Clean(cs[0], v6);
        }
      }
    }
  }
}
