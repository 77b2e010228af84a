/** The flowspec builder (lib/flowspec.c): components are collected in any order
    in one growing buffer, an index tells where each lies, and the finished rule
    lists them in increasing order of type.
 */
module FlowBuild {
  import opened FlowOps
  import opened FlowFormat
  import opened FlowScan

  // ---- Encodings grow at the end ----

  lemma {:induction false} EncodeItemsAppend(items: seq<Item>, i: Item)
    ensures EncodeItems(items + [i]) == EncodeItems(items) + ([i.op] + i.value)
    decreases |items|
  {
    if items == [] {
      assert items + [i] == [i];
      assert EncodeItems([i]) == [i.op] + i.value + EncodeItems([]);
    } else {
      EncodeItemsAppend(items[1..], i);
      assert (items + [i])[1..] == items[1..] + [i];
    }
  }

  lemma Assoc(x: Bytes, y: Bytes, z: Bytes)
    ensures (x + y) + z == x + (y + z)
  {
  }

  lemma {:induction false} EncodeAllConcat(a: seq<Component>, b: seq<Component>, v6: bool)
    ensures EncodeAll(a + b, v6) == EncodeAll(a, v6) + EncodeAll(b, v6)
    decreases |a|
  {
    if a == [] {
      NothingBefore(a, b);
      NothingBefore(EncodeAll(a, v6), EncodeAll(b, v6));
    } else {
      EncodeAllConcat(a[1..], b, v6);
      ConcatMore(a[0], a[1..], b, v6);
      FirstApart(a, b);
    }
  }

  lemma NothingBefore<T>(a: seq<T>, b: seq<T>)
    requires a == []
    ensures a + b == b
  {
  }

  lemma FirstApart(a: seq<Component>, b: seq<Component>)
    requires a != []
    ensures a == [a[0]] + a[1..] && a + b == [a[0]] + (a[1..] + b)
  {
  }

  lemma ConcatMore(c: Component, rest: seq<Component>, b: seq<Component>, v6: bool)
    requires EncodeAll(rest + b, v6) == EncodeAll(rest, v6) + EncodeAll(b, v6)
    ensures EncodeAll([c] + (rest + b), v6) == EncodeAll([c] + rest, v6) + EncodeAll(b, v6)
  {
    EncodeMore(c, rest + b, v6);
    EncodeMore(c, rest, v6);
    Assoc(Encode(c, v6), EncodeAll(rest, v6), EncodeAll(b, v6));
  }

  lemma EncodeAllAppend(cs: seq<Component>, c: Component, v6: bool)
    ensures EncodeAll(cs + [c], v6) == EncodeAll(cs, v6) + Encode(c, v6)
  {
    EncodeAllConcat(cs, [c], v6);
    EncodeOne(c, v6);
  }

  lemma EncodeOne(c: Component, v6: bool)
    ensures EncodeAll([c], v6) == Encode(c, v6)
  {
    EncodeMore(c, [], v6);
    assert [c] + [] == [c];
  }

  /** An item as the validator wants it, at the given place in its list. */
  ghost predicate NormalItem(i: Item, kind: bv8, v6: bool, first: bool, last: bool) {
    WfItem(i, kind, last) && CleanOp(i.op, kind, first) == i.op && CleanValue(i.value, kind, v6) == i.value
  }

  ghost predicate NormalItems(items: seq<Item>, kind: bv8, v6: bool, first: bool) {
    |items| > 0 &&
    forall k :: 0 <= k < |items| ==> NormalItem(items[k], kind, v6, first && k == 0, k == |items| - 1)
  }

  lemma {:induction false} NormalItemsAre(items: seq<Item>, kind: bv8, v6: bool, first: bool)
    requires NormalItems(items, kind, v6, first)
    ensures WfItems(items, kind) && CleanItems(items, kind, v6, first) == items
    decreases |items|
  {
    var rest := items[1..];
    assert NormalItem(items[0], kind, v6, first, |items| == 1);
    if |items| > 1 {
      forall k | 0 <= k < |rest| ensures NormalItem(rest[k], kind, v6, false, k == |rest| - 1) {
        assert rest[k] == items[k + 1];
      }
      NormalItemsAre(rest, kind, v6, false);
    }
    assert items == [items[0]] + rest;
  }

  // ---- Operators ----

  /** op & 0x7f */
  function NoEnd(op: bv8): bv8 { op & 0x7f }

  lemma NoEndFacts(i: Item, kind: bv8, v6: bool, first: bool)
    requires NormalItem(i, kind, v6, first, true)
    ensures NormalItem(i.(op := NoEnd(i.op)), kind, v6, first, false)
  {
  }

  lemma NextByte(x: bv8)
    requires Num(x) < 0xff
    ensures Num(x + 1) == Num(x) + 1
  {
    assert x != 0xff;
  }

  /** The byte of value v. */
  function ByteOf(v: nat): (r: bv8)
    requires v <= 0xff
    ensures Num(r) == v
  {
    if v == 0 then 0 else NextByte(ByteOf(v - 1)); ByteOf(v - 1) + 1
  }

  /** put_u16, put_u32 */
  function Put16(v: nat): (r: Bytes)
    requires v <= 0xffff
    ensures |r| == 2
  {
    [ByteOf(v / 0x100), ByteOf(v % 0x100)]
  }

  function Put32(v: nat): (r: Bytes)
    requires v <= MAX_VALUE
    ensures |r| == 4
  {
    Put16(v / 0x10000) + Put16(v % 0x10000)
  }

  /** The operator-value pair written for op and value, as the last of its list. */
  function Pushed(kind: bv8, op: bv8, value: nat): Item
    requires value <= MAX_VALUE
  {
    if value > 0xffff || kind == LABEL then Item((op | 0x80) | 0x20, Put32(value))
    else if value > 0xff then Item((op | 0x80) | 0x10, Put16(value))
    else Item(op | 0x80, [ByteOf(value)])
  }

  /** It can be read back. */
  lemma PushedValue(kind: bv8, op: bv8, value: nat)
    requires value <= MAX_VALUE
    ensures var i := Pushed(kind, op, value); GetValue(i.value, 0, |i.value|) == value
  {
  }

  /** The operator keeps its AND bit and its comparison, ends the list and tells the length of the value. */
  lemma PushedOp(kind: bv8, op: bv8, value: nat)
    requires value <= MAX_VALUE
    ensures var i := Pushed(kind, op, value);
            && Num(i.op) >= 0x80 && Num(i.op) % 16 == Num(op) % 16 && Num(i.op) / 0x40 % 2 == Num(op) / 0x40 % 2
            && (Num(op) / 0x10 % 4 == 0 ==> [1, 2, 4, 8][Num(i.op) / 0x10 % 4] == |i.value|)
  {
    var i := Pushed(kind, op, value);
    EndIs(i.op);
    AndIs(i.op);
    AndIs(op);
    LengthIs(i.op);
    LengthIs(op);
    SameLow(op, i.op);
  }

  lemma SameLow(x: bv8, y: bv8)
    requires x & 0x0f == y & 0x0f
    ensures Num(x) % 16 == Num(y) % 16
  {
    LowOf(x);
    LowOf(y);
  }

  lemma LowOf(x: bv8)
    ensures Num(x & 0x0f) == Num(x) % 16
  {
  }

  predicate IsBitmask(kind: bv8) { kind == TCP_FLAGS || kind == FRAGMENT }

  /** The length bits that go with a value. */
  function LengthBits(kind: bv8, value: nat): bv8 {
    if value > 0xffff || kind == LABEL then 0x20 else if value > 0xff then 0x10 else 0x00
  }

  /** Operators that the type of the component allows; a length may be in them already. */
  predicate OpOk(op: bv8, kind: bv8, first: bool, length: bv8) {
    && op & 0x08 == 0 && (op & 0x30) | length == length
    && (first ==> op & 0x40 == 0) && (IsBitmask(kind) ==> op & 0x04 == 0)
  }

  /** Values that it allows. */
  predicate ValueOk(kind: bv8, value: nat, v6: bool) {
    && (kind == TCP_FLAGS ==> value <= 0xfff)
    && (kind == DSCP ==> value <= 0xff)
    && (kind == FRAGMENT ==> value <= 0x0f && (v6 ==> value % 2 == 0))
  }

  lemma NibbleIff(x: bv8)
    ensures x & 0x0f == x <==> Num(x) <= 0x0f
    ensures x & 0x0e == x <==> Num(x) <= 0x0f && Num(x) % 2 == 0
  {
  }

  lemma OpBitsIff(op: bv8, l: bv8, kind: bv8, first: bool)
    requires l == 0x00 || l == 0x10 || l == 0x20
    ensures var r := (op | 0x80) | l;
            EndBit(r) &&
            (CleanOp(r, kind, first) == r && ValueLength(r) == ValueLength(l) <==> OpOk(op, kind, first, l))
  {
  }

  lemma ByteIff(kind: bv8, a: bv8, v6: bool)
    ensures CleanValue([a], kind, v6) == [a] && LengthAllowed(kind, 1) <==> ValueOk(kind, Num(a), v6)
  {
    NibbleIff(a);
    assert CleanValue([a], kind, v6)[0] == CleanByte(a, kind, 1, v6);
  }

  lemma PairIff(kind: bv8, a: bv8, b: bv8, v6: bool)
    requires Num(a) > 0
    ensures CleanValue([a, b], kind, v6) == [a, b] && LengthAllowed(kind, 2) <==>
            ValueOk(kind, Num(a) * 0x100 + Num(b), v6)
  {
    NibbleIff(a);
    assert CleanValue([a, b], kind, v6)[0] == CleanByte(a, kind, 2, v6);
  }

  lemma LongIff(kind: bv8, v: Bytes, value: nat, v6: bool)
    requires |v| == 4 && (value > 0xffff || kind == LABEL)
    ensures CleanValue(v, kind, v6) == v && LengthAllowed(kind, 4) <==> ValueOk(kind, value, v6)
  {
  }

  lemma ValueIff(kind: bv8, op: bv8, value: nat, v6: bool)
    requires value <= MAX_VALUE
    ensures var i := Pushed(kind, op, value);
            |i.value| == ValueLength(LengthBits(kind, value)) && i.op == (op | 0x80) | LengthBits(kind, value) &&
            (CleanValue(i.value, kind, v6) == i.value && LengthAllowed(kind, |i.value|) <==> ValueOk(kind, value, v6))
  {
    if value > 0xffff || kind == LABEL {
      LongIff(kind, Put32(value), value, v6);
    } else if value > 0xff {
      PairIff(kind, ByteOf(value / 0x100), ByteOf(value % 0x100), v6);
    } else {
      ByteIff(kind, ByteOf(value), v6);
    }
  }

  /** What is pushed is in normal form iff the operator and the value are allowed. */
  lemma PushedIff(kind: bv8, op: bv8, value: nat, v6: bool, first: bool)
    requires value <= MAX_VALUE
    ensures NormalItem(Pushed(kind, op, value), kind, v6, first, true) <==>
            OpOk(op, kind, first, LengthBits(kind, value)) && ValueOk(kind, value, v6)
  {
    OpBitsIff(op, LengthBits(kind, value), kind, first);
    ValueIff(kind, op, value, v6);
  }

  // ---- Prefixes ----

  function PackByte(b: seq<bool>): bv8
    requires |b| == 8
  {
    (if b[0] then 0x80 else 0) | (if b[1] then 0x40 else 0) | (if b[2] then 0x20 else 0) | (if b[3] then 0x10 else 0) |
    (if b[4] then 0x08 else 0) | (if b[5] then 0x04 else 0) | (if b[6] then 0x02 else 0) | (if b[7] then 0x01 else 0)
  }

  /** Bit k of a byte, the highest first, by division. */
  predicate BitAt(x: bv8, k: nat)
    requires k < 8
  {
    Num(x) / [128, 64, 32, 16, 8, 4, 2, 1][k] % 2 == 1
  }

  /** The mask of bit k. */
  function BitMask(k: nat): bv8
    requires k < 8
  {
    if k == 0 then 0x80 else if k == 1 then 0x40 else if k == 2 then 0x20 else if k == 3 then 0x10
    else if k == 4 then 0x08 else if k == 5 then 0x04 else if k == 6 then 0x02 else 0x01
  }

  lemma Bit0Is(x: bv8)
    ensures Num(x) / 128 % 2 == 1 <==> x & 0x80 != 0
  {
  }

  lemma Bit1Is(x: bv8)
    ensures Num(x) / 64 % 2 == 1 <==> x & 0x40 != 0
  {
  }

  lemma Bit2Is(x: bv8)
    ensures Num(x) / 32 % 2 == 1 <==> x & 0x20 != 0
  {
  }

  lemma Bit3Is(x: bv8)
    ensures Num(x) / 16 % 2 == 1 <==> x & 0x10 != 0
  {
  }

  lemma Bit4Is(x: bv8)
    ensures Num(x) / 8 % 2 == 1 <==> x & 0x08 != 0
  {
  }

  lemma Bit5Is(x: bv8)
    ensures Num(x) / 4 % 2 == 1 <==> x & 0x04 != 0
  {
  }

  lemma Bit6Is(x: bv8)
    ensures Num(x) / 2 % 2 == 1 <==> x & 0x02 != 0
  {
  }

  lemma Bit7Is(x: bv8)
    ensures Num(x) / 1 % 2 == 1 <==> x & 0x01 != 0
  {
  }

  lemma BitAtIs(x: bv8, k: nat)
    requires k < 8
    ensures BitAt(x, k) <==> x & BitMask(k) != 0
  {
    Bit0Is(x);
    Bit1Is(x);
    Bit2Is(x);
    Bit3Is(x);
    Bit4Is(x);
    Bit5Is(x);
    Bit6Is(x);
    Bit7Is(x);
  }

  lemma PackedMask(b: seq<bool>, k: nat)
    requires |b| == 8 && k < 8
    ensures PackByte(b) & BitMask(k) != 0 <==> b[k]
  {
  }

  /** A packed byte spells its bits. */
  lemma PackedBit(b: seq<bool>, k: nat)
    requires |b| == 8 && k < 8
    ensures BitAt(PackByte(b), k) <==> b[k]
  {
    BitAtIs(PackByte(b), k);
    PackedMask(b, k);
  }

  /** The leading bytes of an address that hold its first n bits. */
  function PrefixBytes(addr: seq<bool>, n: nat): (r: Bytes)
    requires n <= |addr| && |addr| % 8 == 0
    ensures |r| == BytesOf(n)
  {
    seq(BytesOf(n), k requires 0 <= k < BytesOf(n) => PackByte(addr[8 * k..8 * k + 8]))
  }

  /** ip6_shift_left */
  function ShiftLeft(addr: seq<bool>, n: nat): (r: seq<bool>)
    requires n <= |addr|
    ensures |r| == |addr|
  {
    addr[n..] + seq(n, _ => false)
  }

  /** The component for a network address. */
  function PrefixPart(kind: bv8, addr: seq<bool>, pxlen: nat, offset: nat): Component
    requires offset <= pxlen <= |addr| <= 0xff && |addr| % 8 == 0
  {
    Prefix(kind, ByteOf(pxlen), ByteOf(offset), PrefixBytes(ShiftLeft(addr, offset), pxlen - offset))
  }

  lemma BytesBit(a: seq<bool>, n: nat, k: nat)
    requires |a| % 8 == 0 && n <= |a| && k / 8 < BytesOf(n)
    ensures k < |a| && (BitAt(PrefixBytes(a, n)[k / 8], k % 8) <==> a[k])
  {
    var b := a[8 * (k / 8)..8 * (k / 8) + 8];
    PackedBit(b, k % 8);
    assert b[k % 8] == a[k];
  }

  /** Bit k of the bytes of a prefix, counted behind the offset, is that of the address. */
  lemma PrefixBit(addr: seq<bool>, n: nat, offset: nat, k: nat)
    requires |addr| % 8 == 0 && offset + n <= |addr| && k < n
    ensures BitAt(PrefixBytes(ShiftLeft(addr, offset), n)[k / 8], k % 8) <==> addr[offset + k]
  {
    BytesBit(ShiftLeft(addr, offset), n, k);
  }

  // ---- Reading a prefix back ----

  /** Bit j of an address whose first n bytes are px, moved right by the offset. */
  predicate ReadBit(px: Bytes, n: nat, offset: nat, j: nat)
    requires n <= |px|
  {
    offset <= j && (j - offset) / 8 < n && BitAt(px[(j - offset) / 8], (j - offset) % 8)
  }

  /** flow_read_ip4, flow_read_ip6: the bytes as an address of w bits, moved right by the offset. */
  function ReadAddress(px: Bytes, pxlen: nat, offset: nat, w: nat): (r: seq<bool>)
    requires offset <= pxlen <= w && BytesOf(pxlen - offset) <= |px|
    ensures |r| == w && forall j :: 0 <= j < w ==> r[j] == ReadBit(px, BytesOf(pxlen - offset), offset, j)
  {
    seq(w, j requires 0 <= j < w => ReadBit(px, BytesOf(pxlen - offset), offset, j))
  }

  lemma BitBack(addr: seq<bool>, n: nat, offset: nat, k: nat, px: Bytes)
    requires |addr| % 8 == 0 && offset + n <= |addr| && offset + k < |addr| && (n <= k ==> !addr[offset + k])
    requires px == PrefixBytes(ShiftLeft(addr, offset), n)
    ensures k / 8 < BytesOf(n) && BitAt(px[k / 8], k % 8) <==> addr[offset + k]
  {
    if k / 8 < BytesOf(n) {
      BytesBit(ShiftLeft(addr, offset), n, k);
    } else {
      assert n <= k;
    }
  }

  /** What was written is read back, with the bits before the offset cleared. */
  lemma ReadBack(addr: seq<bool>, pxlen: nat, offset: nat)
    requires |addr| % 8 == 0 && offset <= pxlen <= |addr| && forall k :: pxlen <= k < |addr| ==> !addr[k]
    ensures var r := ReadAddress(PrefixBytes(ShiftLeft(addr, offset), pxlen - offset), pxlen, offset, |addr|);
            forall j :: 0 <= j < |addr| ==> (r[j] <==> offset <= j && addr[j])
  {
    var px := PrefixBytes(ShiftLeft(addr, offset), pxlen - offset);
    forall j | 0 <= j < |addr| ensures ReadBit(px, BytesOf(pxlen - offset), offset, j) <==> offset <= j && addr[j] {
      if offset <= j {
        BitBack(addr, pxlen - offset, offset, j - offset, px);
      }
    }
  }

  lemma ZeroPadding(b: seq<bool>, n: nat)
    requires |b| == 8 && forall k :: n % 8 <= k < 8 ==> !b[k]
    ensures n % 8 != 0 ==> PackByte(b) & !Padding(n) == PackByte(b)
  {
  }

  lemma BytesPadded(a: seq<bool>, n: nat)
    requires n <= |a| && |a| % 8 == 0 && forall k :: n <= k < |a| ==> !a[k]
    ensures CleanPadding(PrefixBytes(a, n), n) == PrefixBytes(a, n)
  {
    if n % 8 != 0 {
      var m, r := BytesOf(n) - 1, PrefixBytes(a, n);
      var b := a[8 * m..8 * m + 8];
      assert forall k :: n % 8 <= k < 8 ==> b[k] == a[8 * m + k];
      ZeroPadding(b, n);
      assert r[m] == PackByte(b);
      LastByte(r, n);
    }
  }

  lemma LastByte(r: Bytes, n: nat)
    requires |r| == BytesOf(n) && n % 8 != 0 && r[|r| - 1] & !Padding(n) == r[|r| - 1]
    ensures CleanPadding(r, n) == r
  {
    assert r == r[..|r| - 1] + [r[|r| - 1]];
  }

  lemma PrefixNormal(kind: bv8, addr: seq<bool>, pxlen: nat, offset: nat, v6: bool)
    requires IsPrefix(kind) && |addr| == MaxPrefix(v6) && offset <= pxlen <= |addr| && (!v6 ==> offset == 0)
    requires forall k :: pxlen <= k < |addr| ==> !addr[k]
    ensures var c := PrefixPart(kind, addr, pxlen, offset); Wf(c, v6) && Clean(c, v6) == c
  {
    var bytes := PrefixBytes(ShiftLeft(addr, offset), pxlen - offset);
    ShiftedPadded(addr, pxlen, offset, bytes);
    NormalIfPadded(kind, ByteOf(pxlen), ByteOf(offset), bytes, v6);
  }

  lemma ShiftedPadded(addr: seq<bool>, pxlen: nat, offset: nat, bytes: Bytes)
    requires offset <= pxlen <= |addr| <= 0xff && |addr| % 8 == 0 && forall k :: pxlen <= k < |addr| ==> !addr[k]
    requires bytes == PrefixBytes(ShiftLeft(addr, offset), pxlen - offset)
    ensures CleanPadding(bytes, pxlen - offset) == bytes
  {
    ShiftClear(addr, pxlen, offset);
    BytesPadded(ShiftLeft(addr, offset), pxlen - offset);
  }

  lemma ShiftClear(addr: seq<bool>, pxlen: nat, offset: nat)
    requires offset <= pxlen <= |addr| && forall k :: pxlen <= k < |addr| ==> !addr[k]
    ensures var a := ShiftLeft(addr, offset); forall k :: pxlen - offset <= k < |a| ==> !a[k]
  {
  }

  lemma NormalIfPadded(kind: bv8, pxlen: bv8, offset: bv8, bytes: Bytes, v6: bool)
    requires IsPrefix(kind) && Num(pxlen) <= MaxPrefix(v6) && (!v6 ==> offset == 0) && Num(offset) <= Num(pxlen)
    requires var n := Num(pxlen) - Num(offset); |bytes| == BytesOf(n) && CleanPadding(bytes, n) == bytes
    ensures var c := Prefix(kind, pxlen, offset, bytes); Wf(c, v6) && Clean(c, v6) == c
  {
    CleanPrefix(Prefix(kind, pxlen, offset, bytes), v6);
  }
}
