/** The wire format of flowspec rules (RFC 8955, RFC 8956): components, their
    encoding and their normal form, as lib/flowspec.c checks and produces them.
 */
module FlowFormat {
  import opened FlowOps

  // ---- Components ----

  datatype Item = Item(op: bv8, value: Bytes)

  datatype Component =
    | Prefix(kind: bv8, pxlen: bv8, offset: bv8, bytes: Bytes)
    | Ops(kind: bv8, items: seq<Item>)

  /** FLOW_TYPE_* */
  const TCP_FLAGS: bv8 := 9
  const DSCP: bv8 := 11
  const FRAGMENT: bv8 := 12
  const LABEL: bv8 := 13

  predicate IsPrefix(kind: bv8) { kind == 1 || kind == 2 }

  predicate IsOps(kind: bv8, v6: bool) { 3 <= kind <= 12 || (kind == LABEL && v6) }

  /** The longest operand a component may have, if there is a limit. */
  predicate LengthAllowed(kind: bv8, len: nat) {
    (kind == TCP_FLAGS ==> len <= 2) && (kind == DSCP || kind == FRAGMENT ==> len <= 1)
  }

  function MaxPrefix(v6: bool): nat { if v6 then 128 else 32 }

  /** BYTES(n) */
  function BytesOf(n: nat): (r: nat) { (n + 7) / 8 }

  /** flow_padding: the bits of the last byte beyond a prefix of n bits. */
  function Padding(n: nat): bv8 {
    var k := n % 8;
    if k == 0 then 0x00 else if k == 1 then 0x7f else if k == 2 then 0x3f else if k == 3 then 0x1f
    else if k == 4 then 0x0f else if k == 5 then 0x07 else if k == 6 then 0x03 else 0x01
  }

  // ---- Syntax and encoding ----

  predicate WfItem(i: Item, kind: bv8, last: bool) {
    |i.value| == ValueLength(i.op) && LengthAllowed(kind, |i.value|) && EndBit(i.op) == last
  }

  predicate WfItems(items: seq<Item>, kind: bv8) {
    |items| > 0 && WfItem(items[0], kind, |items| == 1) && (|items| > 1 ==> WfItems(items[1..], kind))
  }

  function PrefixBits(c: Component): int
    requires c.Prefix?
  {
    Num(c.pxlen) - Num(c.offset)
  }

  predicate Wf(c: Component, v6: bool) {
    match c
    case Prefix(kind, pxlen, offset, bytes) =>
      IsPrefix(kind) && Num(pxlen) <= MaxPrefix(v6) && (!v6 ==> offset == 0) &&
      PrefixBits(c) >= 0 && |bytes| == BytesOf(PrefixBits(c))
    case Ops(kind, items) =>
      IsOps(kind, v6) && WfItems(items, kind)
  }

  /** Components in strictly increasing order of type, above the given one. */
  predicate WfAll(cs: seq<Component>, above: bv8, v6: bool) {
    cs == [] || (above < cs[0].kind && Wf(cs[0], v6) && WfAll(cs[1..], cs[0].kind, v6))
  }

  function EncodeItems(items: seq<Item>): Bytes {
    if items == [] then [] else [items[0].op] + items[0].value + EncodeItems(items[1..])
  }

  function Encode(c: Component, v6: bool): (r: Bytes)
    ensures |r| >= 1 && r[0] == c.kind
  {
    match c
    case Prefix(kind, pxlen, offset, bytes) => [kind, pxlen] + (if v6 then [offset] else []) + bytes
    case Ops(kind, items) => [kind] + EncodeItems(items)
  }

  function EncodeAll(cs: seq<Component>, v6: bool): Bytes {
    if cs == [] then [] else Encode(cs[0], v6) + EncodeAll(cs[1..], v6)
  }

  // ---- Normal form ----

  /** An operator with the bits cleared that carry no meaning. */
  function CleanOp(op: bv8, kind: bv8, first: bool): bv8 {
    var a := if first then op & 0xbf else op;
    var b := a & 0xf7;
    if kind == TCP_FLAGS || kind == FRAGMENT then b & 0xfb else b
  }

  /** The first byte of an operand, likewise. */
  function CleanByte(x: bv8, kind: bv8, len: nat, v6: bool): bv8 {
    if kind == TCP_FLAGS && len == 2 then x & 0x0f
    else if kind == FRAGMENT && len == 1 then (if v6 then x & 0x0e else x & 0x0f)
    else x
  }

  function CleanValue(value: Bytes, kind: bv8, v6: bool): Bytes {
    if value == [] then [] else [CleanByte(value[0], kind, |value|, v6)] + value[1..]
  }

  function CleanItems(items: seq<Item>, kind: bv8, v6: bool, first: bool): (r: seq<Item>)
    ensures |r| == |items|
  {
    if items == [] then []
    else
      [Item(CleanOp(items[0].op, kind, first), CleanValue(items[0].value, kind, v6))] +
      CleanItems(items[1..], kind, v6, false)
  }

  function CleanPadding(bytes: Bytes, bits: nat): Bytes {
    if bits % 8 == 0 || bytes == [] then bytes
    else bytes[..|bytes| - 1] + [bytes[|bytes| - 1] & !Padding(bits)]
  }

  function Clean(c: Component, v6: bool): (r: Component)
    ensures r.kind == c.kind
  {
    match c
    case Prefix(kind, pxlen, offset, bytes) =>
      Prefix(kind, pxlen, offset, if PrefixBits(c) >= 0 then CleanPadding(bytes, PrefixBits(c)) else bytes)
    case Ops(kind, items) => Ops(kind, CleanItems(items, kind, v6, true))
  }

  function CleanAll(cs: seq<Component>, v6: bool): (r: seq<Component>)
    ensures |r| == |cs|
  {
    if cs == [] then [] else [Clean(cs[0], v6)] + CleanAll(cs[1..], v6)
  }

  // ---- Cleaning keeps the syntax and is done in one go ----

  lemma CleanOpFacts(op: bv8, kind: bv8, first: bool)
    ensures ValueLength(CleanOp(op, kind, first)) == ValueLength(op)
    ensures EndBit(CleanOp(op, kind, first)) == EndBit(op)
    ensures CleanOp(CleanOp(op, kind, first), kind, first) == CleanOp(op, kind, first)
  {
  }

  lemma CleanByteTwice(x: bv8, kind: bv8, len: nat, v6: bool)
    ensures CleanByte(CleanByte(x, kind, len, v6), kind, len, v6) == CleanByte(x, kind, len, v6)
  {
  }

  lemma {:induction false} CleanItemsWf(items: seq<Item>, kind: bv8, v6: bool, first: bool)
    requires WfItems(items, kind)
    ensures WfItems(CleanItems(items, kind, v6, first), kind)
    decreases |items|
  {
    CleanOpFacts(items[0].op, kind, first);
    if |items| > 1 {
      CleanItemsWf(items[1..], kind, v6, false);
      assert CleanItems(items, kind, v6, first)[1..] == CleanItems(items[1..], kind, v6, false);
    }
  }

  lemma {:induction false} CleanItemsTwice(items: seq<Item>, kind: bv8, v6: bool, first: bool)
    ensures CleanItems(CleanItems(items, kind, v6, first), kind, v6, first) == CleanItems(items, kind, v6, first)
    decreases |items|
  {
    if items != [] {
      var clean := CleanItems(items, kind, v6, first);
      CleanOpFacts(items[0].op, kind, first);
      if items[0].value != [] {
        CleanByteTwice(items[0].value[0], kind, |items[0].value|, v6);
      }
      CleanItemsTwice(items[1..], kind, v6, false);
      assert clean[1..] == CleanItems(items[1..], kind, v6, false);
      assert CleanValue(clean[0].value, kind, v6) == clean[0].value;
    }
  }

  lemma MaskTwice(x: bv8, p: bv8)
    ensures (x & p) & p == x & p
  {
  }

  lemma CleanPaddingTwice(bytes: Bytes, bits: nat)
    ensures CleanPadding(CleanPadding(bytes, bits), bits) == CleanPadding(bytes, bits)
  {
    if bytes != [] {
      MaskTwice(bytes[|bytes| - 1], !Padding(bits));
    }
  }

  lemma CleanFacts(c: Component, v6: bool)
    requires Wf(c, v6)
    ensures Wf(Clean(c, v6), v6) && Clean(Clean(c, v6), v6) == Clean(c, v6)
  {
    match c
    case Prefix(kind, pxlen, offset, bytes) =>
      CleanPaddingTwice(bytes, PrefixBits(c));
    case Ops(kind, items) =>
      CleanItemsWf(items, kind, v6, true);
      CleanItemsTwice(items, kind, v6, true);
  }

  lemma {:induction false} CleanAllFacts(cs: seq<Component>, above: bv8, v6: bool)
    requires WfAll(cs, above, v6)
    ensures WfAll(CleanAll(cs, v6), above, v6) && CleanAll(CleanAll(cs, v6), v6) == CleanAll(cs, v6)
    decreases |cs|
  {
    if cs != [] {
      CleanFacts(cs[0], v6);
      CleanAllFacts(cs[1..], cs[0].kind, v6);
      assert CleanAll(cs, v6)[1..] == CleanAll(cs[1..], v6);
    }
  }
}
