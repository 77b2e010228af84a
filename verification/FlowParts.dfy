/** Finished flowspec rules (lib/flowspec.c, lib/flowspec.h): the length in front,
    the iterator over components and the search for one.
 */
module FlowParts {
  import opened FlowOps
  import opened FlowFormat
  import opened FlowScan
  import opened FlowBuild
  import opened FlowBuilder
  import FlowDecode

  // ---- Length ----

  /** flow_write_length */
  function WriteLength(len: nat): (r: Bytes)
    requires len <= 0xfff
    ensures |r| == 1 || |r| == 2
  {
    if len >= 0xf0 then Put16(0xf000 + len) else [ByteOf(len)]
  }

  /** flow_hdr_length */
  function HdrLength(data: Bytes): nat
    requires |data| > 0
  {
    if data[0] & 0xf0 == 0xf0 then 2 else 1
  }

  /** flow_read_length */
  function ReadLength(data: Bytes): nat
    requires |data| > 0 && HdrLength(data) <= |data|
  {
    if data[0] & 0xf0 == 0xf0 then (Num(data[0]) * 0x100 + Num(data[1])) % 0x1000 else Num(data[0])
  }

  lemma HighNibble(x: bv8)
    ensures x & 0xf0 == 0xf0 <==> Num(x) >= 0xf0
  {
  }

  lemma LengthReadBack(len: nat, rest: Bytes)
    requires len <= 0xfff
    ensures var f := WriteLength(len) + rest; HdrLength(f) == |WriteLength(len)| && ReadLength(f) == len
  {
    if len >= 0xf0 {
      LongLength(len, rest);
    } else {
      HighNibble(ByteOf(len));
    }
  }

  /** One byte up to 239, and two from there on with the first four bits set (section 4.1 of RFC 8955). */
  lemma LengthWritten(len: nat)
    requires len <= 0xfff
    ensures len < 240 ==> |WriteLength(len)| == 1 && Num(WriteLength(len)[0]) == len
    ensures len >= 240 ==> |WriteLength(len)| == 2 && Num(WriteLength(len)[0]) == 240 + len / 256 &&
                           Num(WriteLength(len)[1]) == len % 256
  {
  }

  lemma LongLength(len: nat, rest: Bytes)
    requires 0xf0 <= len <= 0xfff
    ensures var f := Put16(0xf000 + len) + rest; HdrLength(f) == 2 && ReadLength(f) == len
  {
    var v := 0xf000 + len;
    HighNibble(ByteOf(v / 0x100));
    LongValue(len, v / 0x100, v % 0x100);
  }

  lemma LongValue(len: nat, a: nat, b: nat)
    requires len <= 0xfff && a == (0xf000 + len) / 0x100 && b == (0xf000 + len) % 0x100
    ensures 0xf0 <= a <= 0xff && b <= 0xff && (a * 0x100 + b) % 0x1000 == len
  {
    assert a * 0x100 + b == 0xf000 + len;
  }

  // ---- Components ----

  lemma {:induction false} KindsAbove(cs: seq<Component>, above: bv8, v6: bool, k: nat)
    requires WfAll(cs, above, v6) && k < |cs|
    ensures above < cs[k].kind
    decreases k
  {
    if k > 0 {
      KindsAbove(cs[1..], cs[0].kind, v6, k - 1);
    }
  }

  predicate IsKnown(kind: bv8) { IsPrefix(kind) || IsOps(kind, true) }

  /** BYTES of a difference, computed as a 32-bit number. */
  function BytesOf32(n: int): (r: nat)
    ensures n >= 0 && n < 0x10000 ==> r == BytesOf(n)
  {
    (n + 7) % 0x100000000 / 8
  }

  /** Behind the operators from pos on: behind the first one with the end bit, whatever the
      lengths of the values; -1 if the bytes end before that. */
  function OpsEnd(b: Bytes, pos: nat): (r: int)
    ensures r == -1 || pos < r
    decreases |b| - pos
  {
    if pos >= |b| then -1
    else if EndBit(b[pos]) then NextOp(b, pos)
    else OpsEnd(b, NextOp(b, pos))
  }

  /** Behind the component at pos; -1 if it cannot be told from the bytes. */
  function PartEnd(b: Bytes, pos: nat, v6: bool): (r: int)
    requires pos < |b|
    ensures r == -1 || pos < r
  {
    if !IsPrefix(b[pos]) then OpsEnd(b, pos + 1)
    else if pos + HeaderLength(v6) >= |b| then -1
    else pos + 1 + HeaderLength(v6) + BytesOf32(Num(b[pos + 1]) - if v6 then Num(b[pos + 2]) else 0)
  }

  /** For components that the decoder accepts, that is where they end. */
  lemma PartEndIs(b: Bytes, pos: nat, v6: bool)
    requires pos < |b| && PartAt(b, pos, v6, false).Go?
    ensures IsKnown(b[pos]) && PartEnd(b, pos, v6) == PartAt(b, pos, v6, false).next
  {
    if !IsPrefix(b[pos]) {
      OpsEndIs(b, pos + 1, b[pos], v6, true);
    }
  }

  lemma {:induction false} OpsEndIs(b: Bytes, pos: nat, kind: bv8, v6: bool, first: bool)
    requires OpsAt(b, pos, kind, v6, first, false).Go?
    ensures OpsEnd(b, pos) == OpsAt(b, pos, kind, v6, first, false).next
    decreases |b| - pos
  {
    if !EndBit(b[pos]) {
      OpsEndIs(b, NextOp(b, pos), kind, v6, false);
    }
  }

  /** flow_next_part: -1 stands for NULL, also for components of unknown type. */
  method NextPart(b: Bytes, pos0: nat, v6: bool) returns (r: int)
    requires pos0 < |b| && (IsKnown(b[pos0]) ==> PartEnd(b, pos0, v6) != -1)
    ensures !IsKnown(b[pos0]) ==> r == -1
    ensures IsKnown(b[pos0]) ==> var end := PartEnd(b, pos0, v6); r == if end < |b| then end else -1
  {
    if !IsKnown(b[pos0]) {
      return -1;
    }
    var pos;
    if IsPrefix(b[pos0]) {
      pos := SkipPrefix(b, pos0 + 1, v6);
    } else {
      pos := SkipOps(b, pos0 + 1);
    }
    return if pos < |b| then pos else -1;
  }

  method SkipPrefix(b: Bytes, pos0: nat, v6: bool) returns (pos: nat)
    requires pos0 > 0 && pos0 + HeaderLength(v6) <= |b|
    ensures pos == pos0 + HeaderLength(v6) + BytesOf32(Num(b[pos0]) - if v6 then Num(b[pos0 + 1]) else 0)
  {
    pos := pos0;
    var pxlen: int := Num(b[pos]);
    pos := pos + 1;
    var offset := 0;
    if v6 {
      offset := Num(b[pos]);
      pos := pos + 1;
    }
    pos := pos + BytesOf32(pxlen - offset);
  }

  method SkipOps(b: Bytes, pos0: nat) returns (pos: nat)
    requires OpsEnd(b, pos0) != -1
    ensures pos == OpsEnd(b, pos0)
  {
    pos := pos0;
    var last := false;
    while !last
      invariant OpsEnd(b, pos0) == if last then pos else OpsEnd(b, pos)
      decreases |b| - pos, !last
    {
      last := EndBit(b[pos]);
      pos := pos + 1 + ValueLength(b[pos]);
    }
  }

  /** The component at a position. */
  ghost predicate FoundAt(b: Bytes, pos: int, c: Component, v6: bool) {
    0 <= pos < |b| && Encode(c, v6) <= b[pos..]
  }

  /** Standing at the first of the remaining components. */
  ghost predicate StandsAt(b: Bytes, pos: int, ds: seq<Component>, v6: bool) {
    0 < pos < |b| && ds != [] && EncodeAll(ds, v6) == b[pos..]
  }

  lemma AtPart(b: Bytes, pos: nat, ds: seq<Component>, above: bv8, v6: bool)
    requires StandsAt(b, pos, ds, v6) && WfAll(ds, above, v6)
    ensures b[pos] == ds[0].kind && FoundAt(b, pos, ds[0], v6)
    ensures PartAt(b, pos, v6, false).Go?
    ensures var next := PartAt(b, pos, v6, false).next;
            if next < |b| then StandsAt(b, next, ds[1..], v6) else ds[1..] == []
  {
    var e, rest := Encode(ds[0], v6), EncodeAll(ds[1..], v6);
    FirstPart(e, rest, b, pos);
    PartEncoded(ds[0], b, pos, v6);
    if pos + |e| == |b| {
      NothingEncoded(ds[1..], v6);
    }
  }

  lemma FirstPart(e: Bytes, rest: Bytes, b: Bytes, pos: nat)
    requires pos < |b| && b[pos..] == e + rest && |e| > 0
    ensures pos + |e| <= |b| && e <= b[pos..] && b[pos] == e[0] && b[pos + |e|..] == rest
  {
    assert (e + rest)[|e|..] == rest && b[pos..][|e|..] == b[pos + |e|..];
    assert b[pos] == b[pos..][0];
  }

  ghost predicate HasType(cs: seq<Component>, kind: bv8) {
    exists c :: c in cs && c.kind == kind
  }

  /** The rest of the search: the components still ahead decide. */
  ghost predicate Searching(b: Bytes, part: int, ds: seq<Component>, above: bv8, cs: seq<Component>, kind: bv8,
                            v6: bool)
  {
    && WfAll(ds, above, v6) && (if part == -1 then ds == [] else StandsAt(b, part, ds, v6))
    && (forall c :: c in ds ==> c in cs)
    && (HasType(cs, kind) <==> HasType(ds, kind))
  }

  lemma SearchNext(b: Bytes, part: nat, ds: seq<Component>, above: bv8, cs: seq<Component>, kind: bv8, v6: bool)
    requires Searching(b, part, ds, above, cs, kind, v6) && ds[0].kind != kind && PartAt(b, part, v6, false).Go?
    ensures var next := PartAt(b, part, v6, false).next;
            Searching(b, if next < |b| then next else -1, ds[1..], ds[0].kind, cs, kind, v6)
  {
    AtPart(b, part, ds, above, v6);
    assert ds == [ds[0]] + ds[1..];
    if HasType(ds, kind) {
      var c :| c in ds && c.kind == kind;
      assert c in ds[1..];
    }
  }

  lemma SearchOver(ds: seq<Component>, above: bv8, kind: bv8, v6: bool)
    requires WfAll(ds, above, v6) && (ds != [] ==> kind < ds[0].kind)
    ensures !HasType(ds, kind)
  {
    forall c | c in ds ensures c.kind != kind {
      var k :| 0 <= k < |ds| && ds[k] == c;
      KindsFrom(ds, above, v6, k);
    }
  }

  /** flow_get_part */
  method GetPart(b: Bytes, kind: bv8, v6: bool, ghost cs: seq<Component>) returns (r: int)
    requires |b| > 0 && HdrLength(b) <= |b| && ReadLength(b) == |b| - HdrLength(b)
    requires WfAll(cs, 0, v6) && b[HdrLength(b)..] == EncodeAll(cs, v6)
    ensures r == -1 <==> !HasType(cs, kind)
    ensures r != -1 ==> exists c :: c in cs && c.kind == kind && FoundAt(b, r, c, v6)
  {
    if ReadLength(b) == 0 {
      NothingEncoded(cs, v6);
      return -1;
    }
    var part: int := HdrLength(b);
    ghost var ds, above: bv8 := cs, 0;
    while part != -1 && b[part] <= kind
      invariant Searching(b, part, ds, above, cs, kind, v6)
      decreases |ds|
    {
      AtPart(b, part, ds, above, v6);
      if b[part] == kind {
        assert ds[0] in cs;
        return part;
      }
      SearchNext(b, part, ds, above, cs, kind, v6);
      PartEndIs(b, part, v6);
      part := NextPart(b, part, v6);
      above, ds := ds[0].kind, ds[1..];
    }
    if part != -1 {
      AtPart(b, part, ds, above, v6);
    }
    SearchOver(ds, above, kind, v6);
    return -1;
  }

  lemma KindsFrom(cs: seq<Component>, above: bv8, v6: bool, k: nat)
    requires WfAll(cs, above, v6) && k < |cs|
    ensures cs[0].kind <= cs[k].kind
  {
    if k > 0 {
      KindsAbove(cs[1..], cs[0].kind, v6, k - 1);
    }
  }

  lemma NothingEncoded(cs: seq<Component>, v6: bool)
    requires EncodeAll(cs, v6) == []
    ensures cs == []
  {
  }

  // ---- What the builder delivers ----

  /** Components in order encode to bytes that the validator accepts. */
  lemma OrderedValid(ss: seq<Component>, v6: bool)
    requires Ordered(ss, TYPE_MAX, v6)
    ensures WfAll(ss, 0, v6) && CleanAll(ss, v6) == ss
    ensures Scan(EncodeAll(ss, v6), 0, 0, v6, true) == Valid
  {
    if ss != [] {
      assert Normal(ss[0], v6);
      KindRange(ss[0], v6);
      assert Num(0) == 0;
    }
    OrderedWf(ss, TYPE_MAX, 0, v6);
    FlowDecode.ValidIff(EncodeAll(ss, v6), v6);
  }

  /** flow_read_ip4_part, flow_read_ip6_part, flow_read_pxlen */
  method ReadPrefix(part: Bytes, v6: bool, ghost c: Component) returns (ip: seq<bool>, pxlen: nat)
    requires c.Prefix? && Wf(c, v6) && Encode(c, v6) <= part
    ensures ip == AddressOf(c, v6) && pxlen == Num(c.pxlen)
  {
    PrefixLaidOut(part, v6, c);
    pxlen := Num(part[1]);
    if v6 {
      ReadMore(c.bytes, part[3..], pxlen, Num(part[2]), 128);
      ip := ReadAddress(part[3..], pxlen, Num(part[2]), 128);
    } else {
      ReadMore(c.bytes, part[2..], pxlen, 0, 32);
      ip := ReadAddress(part[2..], pxlen, 0, 32);
    }
  }

  lemma PrefixLaidOut(part: Bytes, v6: bool, c: Component)
    requires c.Prefix? && Encode(c, v6) <= part
    ensures |part| >= (if v6 then 3 else 2) && part[1] == c.pxlen && (v6 ==> part[2] == c.offset)
    ensures c.bytes <= part[if v6 then 3 else 2..]
  {
    var e := Encode(c, v6);
    assert e[1] == c.pxlen;
    if v6 {
      assert e[2] == c.offset;
      assert c.bytes == e[3..];
    } else {
      assert c.bytes == e[2..];
    }
  }

  /** Bytes behind those of the prefix are not read. */
  lemma ReadMore(px: Bytes, more: Bytes, pxlen: nat, offset: nat, w: nat)
    requires offset <= pxlen <= w && BytesOf(pxlen - offset) <= |px| && px <= more
    ensures ReadAddress(px, pxlen, offset, w) == ReadAddress(more, pxlen, offset, w)
  {
    var n := BytesOf(pxlen - offset);
    forall j: nat | j < w ensures ReadBit(px, n, offset, j) == ReadBit(more, n, offset, j) {
    }
  }

  /** The address of a prefix component. */
  function AddressOf(c: Component, v6: bool): seq<bool>
    requires c.Prefix? && Wf(c, v6)
  {
    ReadAddress(c.bytes, Num(c.pxlen), Num(c.offset), MaxPrefix(v6))
  }

  /** The network address of a rule: that of the destination prefix, or none. */
  method ReadNet(fb: Builder) returns (prefix: seq<bool>, pxlen: nat)
    requires fb.Valid()
    ensures |prefix| == MaxPrefix(fb.v6)
    ensures !HasType(fb.cs, 1) ==> pxlen == 0 && forall j :: 0 <= j < |prefix| ==> !prefix[j]
    ensures forall c :: c in fb.cs && c.kind == 1 ==>
              c.Prefix? && Wf(c, fb.v6) && prefix == AddressOf(c, fb.v6) && pxlen == Num(c.pxlen)
  {
    prefix, pxlen := seq(MaxPrefix(fb.v6), _ => false), 0;
    ghost var c := DestinationPart(fb.data, fb.parts, fb.lastOpOffset, fb.cs, fb.v6);
    OnlyOne(fb.cs, fb.v6);
    if fb.parts[1].length != 0 {
      prefix, pxlen := ReadPrefix(fb.data[fb.parts[1].offset..], fb.v6, c);
    }
  }

  /** The index finds the component of type 1 if there is one. */
  lemma DestinationPart(data: Bytes, parts: seq<Part>, off: nat, cs: seq<Component>, v6: bool) returns (c: Component)
    requires FlowBuilder.Holds(data, parts, off, cs, v6)
    ensures |parts| == TYPE_MAX && (parts[1].length != 0 <==> HasType(cs, 1))
    ensures parts[1].length != 0 ==> c in cs && c.kind == 1 && c.Prefix? && Wf(c, v6) && parts[1].offset <= |data| &&
                                     Encode(c, v6) <= data[parts[1].offset..]
  {
    c := Ops(1, []);
    IndexHas(parts, cs, 1, v6);
    assert Num(1) == 1;
    if parts[1].length != 0 {
      var k :| 0 <= k < |cs| && Num(cs[k].kind) == 1;
      c := cs[k];
      PartOfType1(parts, cs, v6, k);
      SliceStart(data, parts[1].offset, parts[1].length, Encode(c, v6));
    } else {
      forall d | d in cs ensures d.kind != 1 {
        var k :| 0 <= k < |cs| && cs[k] == d;
        assert Num(cs[k].kind) != 1;
      }
    }
  }

  lemma PartOfType1(parts: seq<Part>, cs: seq<Component>, v6: bool, k: nat)
    requires Components(cs, v6) && Indexed(parts, cs, v6) && k < |cs| && Num(cs[k].kind) == 1
    ensures cs[k].kind == 1 && cs[k].Prefix? && Wf(cs[k], v6) && PartIs(EncodeAll(cs, v6), parts[1], cs[k], v6)
  {
    assert Num(1) == 1;
    NumLess(cs[k].kind, 1);
    NumLess(1, cs[k].kind);
    EntrySlice(parts, cs, k, v6);
    assert Normal(cs[k], v6);
  }

  lemma SliceStart(data: Bytes, i: nat, n: nat, e: Bytes)
    requires i + n <= |data| && data[i..i + n] == e
    ensures e <= data[i..]
  {
    assert data[i..][..n] == e;
  }

  /** The address of a component added is the one that was added, with the bits before the offset cleared. */
  lemma AddressAdded(addr: seq<bool>, pxlen: nat, offset: nat, v6: bool)
    requires |addr| == MaxPrefix(v6) && offset <= pxlen <= |addr| && (!v6 ==> offset == 0)
    requires forall k :: pxlen <= k < |addr| ==> !addr[k]
    ensures var c := PrefixPart(1, addr, pxlen, offset);
            Wf(c, v6) && Num(c.pxlen) == pxlen && |AddressOf(c, v6)| == |addr| &&
            forall j :: 0 <= j < |addr| ==> (AddressOf(c, v6)[j] <==> offset <= j && addr[j])
  {
    PrefixNormal(1, addr, pxlen, offset, v6);
    ReadBack(addr, pxlen, offset);
  }

  /** flow_builder4_finalize, flow_builder6_finalize: the network address of the destination
      prefix, the length, and then the components added, each once and in order of type. */
  method Finalize(fb: Builder) returns (f: Bytes, ghost ss: seq<Component>, prefix: seq<bool>, pxlen: nat)
    requires fb.Valid() && |fb.data| <= 0xfff
    ensures |f| > 0 && HdrLength(f) <= |f| && ReadLength(f) == |f| - HdrLength(f) == |fb.data|
    ensures f[HdrLength(f)..] == EncodeAll(ss, fb.v6) && Scan(EncodeAll(ss, fb.v6), 0, 0, fb.v6, true) == Valid
    ensures Ordered(ss, TYPE_MAX, fb.v6) && WfAll(ss, 0, fb.v6) && forall c :: c in ss <==> c in fb.cs
    ensures |prefix| == MaxPrefix(fb.v6)
    ensures !HasType(fb.cs, 1) ==> pxlen == 0 && forall j :: 0 <= j < |prefix| ==> !prefix[j]
    ensures forall c :: c in fb.cs && c.kind == 1 ==>
              c.Prefix? && Wf(c, fb.v6) && prefix == AddressOf(c, fb.v6) && pxlen == Num(c.pxlen)
  {
    prefix, pxlen := ReadNet(fb);
    var out;
    out, ss := fb.WriteParts();
    f := WriteLength(|fb.data|) + out;
    LengthReadBack(|fb.data|, out);
    OrderedValid(ss, fb.v6);
  }

  /** flow_get_part on the finished rule: a type is found iff a component of it was
      added, and then it is that component. */
  method FindAdded(fb: Builder, kind: bv8) returns (f: Bytes, r: int)
    requires fb.Valid() && |fb.data| <= 0xfff
    ensures r == -1 <==> !HasType(fb.cs, kind)
    ensures r != -1 ==> exists c :: c in fb.cs && c.kind == kind && FoundAt(f, r, c, fb.v6)
    ensures forall c :: c in fb.cs && c.kind == kind ==> FoundAt(f, r, c, fb.v6)
  {
    ghost var ss;
    var prefix, pxlen;
    f, ss, prefix, pxlen := Finalize(fb);
    r := GetPart(f, kind, fb.v6, ss);
    OnlyOne(fb.cs, fb.v6);
  }

  /** There is one component of each type. */
  lemma OnlyOne(cs: seq<Component>, v6: bool)
    requires Components(cs, v6)
    ensures forall c, d :: c in cs && d in cs && c.kind == d.kind ==> c == d
  {
  }

  /** A rule with a destination prefix has it as its network address, without the bits before the offset. */
  method AddAndFinalize(fb: Builder, addr: seq<bool>, n: nat, offset: nat)
    returns (ok: bool, f: Bytes, prefix: seq<bool>, pxlen: nat)
    requires fb.Valid() && |fb.data| + 19 <= 0xfff && !HasKind(fb.cs, 1)
    requires |addr| == MaxPrefix(fb.v6) && offset <= n <= |addr| && (!fb.v6 ==> offset == 0)
    requires forall k :: n <= k < |addr| ==> !addr[k]
    modifies fb
    ensures ok && pxlen == n && |prefix| == |addr|
    ensures forall j :: 0 <= j < |addr| ==> (prefix[j] <==> offset <= j && addr[j])
  {
    fb.SetType(1);
    assert Num(1) == 1;
    ok := fb.AddPrefix(addr, n, offset);
    ghost var ss;
    AddressAdded(addr, n, offset, fb.v6);
    assert fb.cs[|fb.cs| - 1] in fb.cs;
    f, ss, prefix, pxlen := Finalize(fb);
  }
}
