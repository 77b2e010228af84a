/** flow_decode and flow_validate (lib/flowspec.c): the check of received rules
    that also brings them into normal form, in place, and the check that
    insists on normal form.
 */
module FlowDecode {
  import opened FlowOps
  import opened FlowFormat
  import opened FlowScan
  import opened FlowStates

  // ---- The two checks compared ----

  /** The bytes with every component in normal form. */
  ghost function Normalised(b: Bytes, v6: bool): Bytes
    requires Scan(b, 0, 0, v6, false) == Valid
  {
    EncodeAll(CleanAll(Parse(b, 0, 0, v6), v6), v6)
  }

  /** The decoder accepts exactly the encodings of component lists. */
  lemma AcceptsIff(b: Bytes, v6: bool)
    ensures Scan(b, 0, 0, v6, false) == Valid <==> exists cs :: WfAll(cs, 0, v6) && EncodeAll(cs, v6) == b
  {
    assert b[0..] == b;
    if Scan(b, 0, 0, v6, false) == Valid {
      Parsed(b, 0, 0, v6);
    }
    if cs :| WfAll(cs, 0, v6) && EncodeAll(cs, v6) == b {
      Encoded(cs, b, 0, 0, v6);
    }
  }

  /** The validator accepts exactly the encodings of component lists in normal form. */
  lemma ValidIff(b: Bytes, v6: bool)
    ensures Scan(b, 0, 0, v6, true) == Valid <==>
      exists cs :: WfAll(cs, 0, v6) && CleanAll(cs, v6) == cs && EncodeAll(cs, v6) == b
  {
    assert b[0..] == b;
    ScanStrict(b, 0, 0, v6);
    if Scan(b, 0, 0, v6, true) == Valid {
      Parsed(b, 0, 0, v6);
    }
    if cs :| WfAll(cs, 0, v6) && CleanAll(cs, v6) == cs && EncodeAll(cs, v6) == b {
      Encoded(cs, b, 0, 0, v6);
    }
  }

  /** What the decoder accepts, the validator accepts in normalised form, with the
      components found at the same places. */
  lemma NormalisedValid(b: Bytes, v6: bool)
    requires Scan(b, 0, 0, v6, false) == Valid
    ensures Scan(Normalised(b, v6), 0, 0, v6, true) == Scan(Normalised(b, v6), 0, 0, v6, false) == Valid
    ensures Parse(Normalised(b, v6), 0, 0, v6) == CleanAll(Parse(b, 0, 0, v6), v6)
  {
    var cs, n := Parse(b, 0, 0, v6), Normalised(b, v6);
    Parsed(b, 0, 0, v6);
    CleanAllFacts(cs, 0, v6);
    assert n[0..] == n;
    Encoded(CleanAll(cs, v6), n, 0, 0, v6);
    ScanStrict(n, 0, 0, v6);
  }

  /** Cleaning a component keeps the length of its encoding. */
  lemma {:induction false} CleanItemsLength(items: seq<Item>, kind: bv8, v6: bool, first: bool)
    ensures |EncodeItems(CleanItems(items, kind, v6, first))| == |EncodeItems(items)|
    decreases |items|
  {
    if items != [] {
      CleanItemsLength(items[1..], kind, v6, false);
      assert CleanItems(items, kind, v6, first)[1..] == CleanItems(items[1..], kind, v6, false);
    }
  }

  lemma CleanLength(c: Component, v6: bool)
    ensures |Encode(Clean(c, v6), v6)| == |Encode(c, v6)|
  {
    if c.Ops? {
      CleanItemsLength(c.items, c.kind, v6, true);
    }
  }

  /** Where the k-th component starts. */
  function Boundary(cs: seq<Component>, k: nat, v6: bool): nat
    requires k <= |cs|
  {
    if k == 0 then 0 else |Encode(cs[0], v6)| + Boundary(cs[1..], k - 1, v6)
  }

  lemma {:induction false} CleanBoundary(cs: seq<Component>, k: nat, v6: bool)
    requires k <= |cs|
    ensures Boundary(CleanAll(cs, v6), k, v6) == Boundary(cs, k, v6)
    decreases k
  {
    if k > 0 {
      CleanBoundary(cs[1..], k - 1, v6);
      CleanLength(cs[0], v6);
      BoundaryMore(Clean(cs[0], v6), CleanAll(cs[1..], v6), k - 1, v6);
    }
  }

  lemma BoundaryMore(c: Component, cs: seq<Component>, k: nat, v6: bool)
    requires k <= |cs|
    ensures Boundary([c] + cs, k + 1, v6) == |Encode(c, v6)| + Boundary(cs, k, v6)
  {
    assert ([c] + cs)[1..] == cs;
  }

  /** The validator accepts exactly what the decoder accepts and leaves unchanged. */
  lemma ValidIffFixed(b: Bytes, v6: bool)
    ensures Scan(b, 0, 0, v6, true) == Valid <==> Scan(b, 0, 0, v6, false) == Valid && Normalised(b, v6) == b
  {
    assert b[0..] == b;
    ScanStrict(b, 0, 0, v6);
    if Scan(b, 0, 0, v6, false) == Valid {
      Parsed(b, 0, 0, v6);
      NormalisedValid(b, v6);
    }
  }

  /** Decoding twice is decoding once. */
  lemma NormalisedTwice(b: Bytes, v6: bool)
    requires Scan(b, 0, 0, v6, false) == Valid
    ensures Scan(Normalised(b, v6), 0, 0, v6, false) == Valid
    ensures Normalised(Normalised(b, v6), v6) == Normalised(b, v6)
  {
    NormalisedValid(b, v6);
    ValidIffFixed(Normalised(b, v6), v6);
  }

  // ---- flow_validate ----

  /** Prefix length and offset, with their limits; shared by both checks. */
  method ReadHeader(nlri: Bytes, pos0: nat, v6: bool) returns (fault: State, pos: nat, bits: nat)
    ensures fault == PrefixFault(nlri, pos0, v6)
    ensures fault == Valid ==> pos == pos0 + HeaderLength(v6) <= |nlri| && bits == BitsAt(nlri, pos0, v6)
  {
    pos, bits := pos0, 0;
    if !v6 {
      if pos + 1 > |nlri| { return NotComplete, pos, bits; }
      var pxlen := Num(nlri[pos]);
      pos := pos + 1;
      if pxlen > 32 { return ExceedMaxPrefixLength, pos, bits; }
      bits := pxlen;
    } else {
      if pos + 2 > |nlri| { return NotComplete, pos, bits; }
      var pxlen, offset := Num(nlri[pos]), Num(nlri[pos + 1]);
      pos := pos + 2;
      if pxlen > 128 { return ExceedMaxPrefixLength, pos, bits; }
      if offset > pxlen { return ExceedMaxPrefixOffset, pos, bits; }
      bits := pxlen - offset;
    }
    fault := Valid;
  }

  method ValidatePrefix(nlri: Bytes, pos0: nat, v6: bool) returns (step: Step)
    ensures step == PrefixAt(nlri, pos0, v6, true)
  {
    var fault, pos, bits := ReadHeader(nlri, pos0, v6);
    if fault != Valid { return Stop(fault); }
    pos := pos + BytesOf(bits);
    if pos > |nlri| { return Stop(NotComplete); }
    if bits % 8 != 0 && nlri[pos - 1] & Padding(bits) != 0 { return Stop(NonzeroPadding); }
    return Go(pos);
  }

  method ValidateOps(nlri: Bytes, pos0: nat, kind: bv8, v6: bool) returns (step: Step)
    ensures step == OpsAt(nlri, pos0, kind, v6, true, true)
  {
    var pos, first, last := pos0, true, false;
    while !last
      invariant OpsAt(nlri, pos0, kind, v6, true, true) ==
        if last then Go(pos) else OpsAt(nlri, pos, kind, v6, first, true)
      decreases |nlri| - pos, !last
    {
      if pos + 1 > |nlri| { return Stop(NotComplete); }
      var len := ValueLength(nlri[pos]);
      if !LengthAllowed(kind, len) { return Stop(ExceedMaxValueLength); }
      if pos + 1 + len > |nlri| { return Stop(NotComplete); }
      if first && AndBit(nlri[pos]) { return Stop(FirstAndBitSet); }
      if nlri[pos] & 0x08 != 0 { return Stop(ZeroBitSet); }
      if (kind == TCP_FLAGS || kind == FRAGMENT) && nlri[pos] & 0x04 != 0 { return Stop(ZeroBitSet); }
      if kind == TCP_FLAGS && len == 2 && nlri[pos + 1] & 0xf0 != 0 { return Stop(InvalidTcpFlags); }
      if kind == FRAGMENT && len == 1 && nlri[pos + 1] & (if v6 then 0xf1 else 0xf0) != 0 {
        return Stop(InvalidFragment);
      }
      first := false;
      last := EndBit(nlri[pos]);
      pos := pos + 1 + len;
    }
    return Go(pos);
  }

  method Validate(nlri: Bytes, v6: bool) returns (st: State)
    ensures st == Scan(nlri, 0, 0, v6, true)
    ensures st == Valid <==> exists cs :: WfAll(cs, 0, v6) && CleanAll(cs, v6) == cs && EncodeAll(cs, v6) == nlri
    // what that is for rules of one component
    ensures OneOperator(nlri) ==> st == OperatorStateOf(nlri, v6, true)
    ensures OnePrefix(nlri, v6) ==> st == PrefixStateOf(nlri, v6, true)
  {
    States(nlri, v6, true);
    st := ValidateAll(nlri, v6);
    ValidIff(nlri, v6);
  }

  method ValidateAll(nlri: Bytes, v6: bool) returns (st: State)
    ensures st == Scan(nlri, 0, 0, v6, true)
  {
    var kind: bv8, pos: nat := 0, 0;
    while pos < |nlri|
      invariant pos <= |nlri|
      invariant Scan(nlri, pos, kind, v6, true) == Scan(nlri, 0, 0, v6, true)
    {
      if nlri[pos] <= kind { return BadTypeOrder; }
      kind := nlri[pos];
      var step := ValidatePart(nlri, pos, v6);
      if step.Stop? { return step.state; }
      pos := step.next;
    }
    return Valid;
  }

  method ValidatePart(nlri: Bytes, pos: nat, v6: bool) returns (step: Step)
    requires pos < |nlri|
    ensures step == PartAt(nlri, pos, v6, true)
  {
    var kind := nlri[pos];
    step := Stop(UnknownComponent);
    if IsPrefix(kind) {
      step := ValidatePrefix(nlri, pos + 1, v6);
    } else if IsOps(kind, v6) {
      step := ValidateOps(nlri, pos + 1, kind, v6);
    }
  }

  // ---- flow_decode ----

  /** x has no bit that y lacks. */
  predicate Within(x: bv8, y: bv8) { x & y == x }

  /** Outside lo..hi the buffer is as in b, inside it only bits were cleared. */
  ghost predicate Touched(nlri: array<bv8>, b: Bytes, lo: int, hi: int)
    requires |b| == nlri.Length
    reads nlri
  {
    forall i :: 0 <= i < |b| ==> if lo <= i < hi then Within(nlri[i], b[i]) else nlri[i] == b[i]
  }

  /** Before lo the buffer is unchanged, from hi on it is as in b, in between only
      bits of b were cleared. */
  ghost predicate Changed(nlri: array<bv8>, was: Bytes, b: Bytes, lo: nat, hi: nat)
    requires |b| == |was| == nlri.Length
    reads nlri
  {
    && (forall i :: 0 <= i < lo && i < |b| ==> nlri[i] == was[i])
    && (forall i :: lo <= i < hi && i < |b| ==> Within(nlri[i], b[i]))
    && (forall i :: hi <= i < |b| ==> nlri[i] == b[i])
  }

  method MaskOp(op0: bv8, kind: bv8, first: bool) returns (op: bv8)
    ensures op == CleanOp(op0, kind, first) && Within(op, op0)
  {
    op := op0;
    if first { op := op & 0xbf; }
    op := op & 0xf7;
    if kind == TCP_FLAGS || kind == FRAGMENT { op := op & 0xfb; }
  }

  method MaskByte(x0: bv8, kind: bv8, len: nat, v6: bool) returns (x: bv8)
    ensures x == CleanByte(x0, kind, len, v6) && Within(x, x0)
  {
    x := x0;
    if kind == TCP_FLAGS && len == 2 { x := x & 0x0f; }
    if kind == FRAGMENT && len == 1 { x := x & (if v6 then 0x0e else 0x0f); }
  }

  method ClearOp(nlri: array<bv8>, pos: nat, kind: bv8, v6: bool, first: bool)
    requires pos + 1 < nlri.Length
    modifies nlri
    ensures Touched(nlri, old(nlri[..]), pos, pos + 2)
    ensures nlri[pos] == CleanOp(old(nlri[pos]), kind, first)
    ensures nlri[pos + 1] == CleanByte(old(nlri[pos + 1]), kind, ValueLength(old(nlri[pos])), v6)
  {
    var op := MaskOp(nlri[pos], kind, first);
    var x := MaskByte(nlri[pos + 1], kind, ValueLength(nlri[pos]), v6);
    nlri[pos], nlri[pos + 1] := op, x;
  }

  method MaskPadding(x0: bv8, bits: nat) returns (x: bv8)
    ensures x == x0 & !Padding(bits) && Within(x, x0)
  {
    var p := Padding(bits);
    x := x0 & !p;
  }

  method ClearPadding(nlri: array<bv8>, pos: nat, bits: nat)
    requires pos + BytesOf(bits) <= nlri.Length
    modifies nlri
    ensures Touched(nlri, old(nlri[..]), pos, pos + BytesOf(bits))
    ensures nlri[pos..pos + BytesOf(bits)] == CleanPadding(old(nlri[pos..pos + BytesOf(bits)]), bits)
  {
    var next := pos + BytesOf(bits);
    if bits % 8 != 0 {
      ghost var bytes := nlri[pos..next];
      var x := MaskPadding(nlri[next - 1], bits);
      nlri[next - 1] := x;
      assert nlri[pos..next] == bytes[..|bytes| - 1] + [x];
    }
  }

  /** The normal form of the operator at pos. */
  ghost function CleanOpBytes(b: Bytes, pos: nat, kind: bv8, v6: bool, first: bool): Bytes
    requires pos < |b| && NextOp(b, pos) <= |b|
  {
    [CleanOp(b[pos], kind, first), CleanByte(b[pos + 1], kind, ValueLength(b[pos]), v6)] + b[pos + 2..NextOp(b, pos)]
  }

  /** The normal form of the operators from pos on. */
  ghost function CleanOpsBytes(b: Bytes, pos: nat, kind: bv8, v6: bool, first: bool): Bytes
    requires OpsAt(b, pos, kind, v6, first, false).Go?
  {
    EncodeItems(CleanItems(ItemsAt(b, pos, kind, v6, first), kind, v6, first))
  }

  lemma CleanOpsStep(b: Bytes, pos: nat, kind: bv8, v6: bool, first: bool)
    requires OpsAt(b, pos, kind, v6, first, false).Go?
    ensures CleanOpsBytes(b, pos, kind, v6, first) == CleanOpBytes(b, pos, kind, v6, first) +
      if EndBit(b[pos]) then [] else CleanOpsBytes(b, NextOp(b, pos), kind, v6, false)
  {
    var items := ItemsAt(b, pos, kind, v6, first);
    var rest := if EndBit(b[pos]) then [] else ItemsAt(b, NextOp(b, pos), kind, v6, false);
    assert items == [ItemAt(b, pos)] + rest;
    EncodeCleanItems(ItemAt(b, pos), rest, kind, v6, first);
    assert ItemAt(b, pos).value[1..] == b[pos + 2..NextOp(b, pos)];
  }

  lemma EncodeCleanItems(i: Item, rest: seq<Item>, kind: bv8, v6: bool, first: bool)
    requires i.value != []
    ensures EncodeItems(CleanItems([i] + rest, kind, v6, first)) ==
      [CleanOp(i.op, kind, first), CleanByte(i.value[0], kind, |i.value|, v6)] + i.value[1..] +
      EncodeItems(CleanItems(rest, kind, v6, false))
  {
    var head := Item(CleanOp(i.op, kind, first), CleanValue(i.value, kind, v6));
    CleanItemsMore(i, rest, kind, v6, first);
    EncodeItemsMore(head, CleanItems(rest, kind, v6, false));
    assert [head.op] + head.value ==
           [CleanOp(i.op, kind, first), CleanByte(i.value[0], kind, |i.value|, v6)] + i.value[1..];
  }

  lemma CleanItemsMore(i: Item, rest: seq<Item>, kind: bv8, v6: bool, first: bool)
    ensures CleanItems([i] + rest, kind, v6, first) ==
      [Item(CleanOp(i.op, kind, first), CleanValue(i.value, kind, v6))] + CleanItems(rest, kind, v6, false)
  {
    assert ([i] + rest)[1..] == rest;
  }

  lemma EncodeItemsMore(i: Item, rest: seq<Item>)
    ensures EncodeItems([i] + rest) == ([i.op] + i.value) + EncodeItems(rest)
  {
    assert ([i] + rest)[1..] == rest;
  }

  method DecodeOp(nlri: array<bv8>, pos0: nat, pos: nat, kind: bv8, v6: bool, first: bool,
                  ghost was: Bytes, ghost b: Bytes)
    requires |b| == |was| == nlri.Length && pos0 <= pos < |b| && NextOp(b, pos) <= |b|
    requires Changed(nlri, was, b, pos0, pos)
    modifies nlri
    ensures Changed(nlri, was, b, pos0, NextOp(b, pos))
    ensures nlri[pos] == CleanOp(b[pos], kind, first)
    ensures nlri[pos0..NextOp(b, pos)] == old(nlri[pos0..pos]) + CleanOpBytes(b, pos, kind, v6, first)
  {
    ghost var next := NextOp(b, pos);
    ClearOp(nlri, pos, kind, v6, first);
    assert nlri[pos..next] == CleanOpBytes(b, pos, kind, v6, first);
    assert nlri[pos0..next] == nlri[pos0..pos] + nlri[pos..next];
    forall i | pos <= i < next ensures Within(nlri[i], b[i]) {
      WithinSelf(b[i]);
    }
  }

  lemma WithinSelf(x: bv8)
    ensures Within(x, x)
  {
  }

  /** With done written for pos0..pos, what is left to do from pos on. */
  ghost predicate OpsDone(done: Bytes, b: Bytes, pos0: nat, pos: nat, kind: bv8, v6: bool, first: bool, last: bool) {
    && OpsAt(b, pos0, kind, v6, true, false) == (if last then Go(pos) else OpsAt(b, pos, kind, v6, first, false))
    && (OpsAt(b, pos0, kind, v6, true, false).Go? ==>
          done + (if last then [] else CleanOpsBytes(b, pos, kind, v6, first)) ==
            CleanOpsBytes(b, pos0, kind, v6, true))
  }

  lemma OpsDoneStep(done: Bytes, b: Bytes, pos0: nat, pos: nat, kind: bv8, v6: bool, first: bool)
    requires OpsDone(done, b, pos0, pos, kind, v6, first, false)
    requires pos < |b| && NextOp(b, pos) <= |b| && LengthAllowed(kind, ValueLength(b[pos]))
    ensures OpsDone(done + CleanOpBytes(b, pos, kind, v6, first), b, pos0, NextOp(b, pos), kind, v6, false,
                    EndBit(b[pos]))
  {
    if OpsAt(b, pos0, kind, v6, true, false).Go? {
      CleanOpsStep(b, pos, kind, v6, first);
      DoneAssoc(done, CleanOpBytes(b, pos, kind, v6, first),
                if EndBit(b[pos]) then [] else CleanOpsBytes(b, NextOp(b, pos), kind, v6, false));
    }
  }

  lemma DoneAssoc(x: Bytes, y: Bytes, z: Bytes)
    ensures x + (y + z) == (x + y) + z
  {
  }

  /** The complaint about the length of an operator. */
  function LengthFault(b: Bytes, pos: nat, kind: bv8): State {
    if pos + 1 > |b| then NotComplete
    else if !LengthAllowed(kind, ValueLength(b[pos])) then ExceedMaxValueLength
    else if NextOp(b, pos) > |b| then NotComplete
    else Valid
  }

  lemma OpsStopped(done: Bytes, b: Bytes, pos0: nat, pos: nat, kind: bv8, v6: bool, first: bool)
    requires OpsDone(done, b, pos0, pos, kind, v6, first, false) && LengthFault(b, pos, kind) != Valid
    ensures OpsAt(b, pos0, kind, v6, true, false) == Stop(LengthFault(b, pos, kind))
  {
  }

  method CheckLength(nlri: array<bv8>, pos: nat, kind: bv8, ghost b: Bytes) returns (fault: State)
    requires |b| == nlri.Length && forall i :: pos <= i < |b| ==> nlri[i] == b[i]
    ensures fault == LengthFault(b, pos, kind)
  {
    if pos + 1 > nlri.Length { return NotComplete; }
    var len := ValueLength(nlri[pos]);
    if !LengthAllowed(kind, len) { return ExceedMaxValueLength; }
    if pos + 1 + len > nlri.Length { return NotComplete; }
    return Valid;
  }

  lemma ChangedMore(nlri: array<bv8>, was: Bytes, b: Bytes, lo: nat, hi: nat, hi': nat)
    requires |b| == |was| == nlri.Length && lo <= hi && Changed(nlri, was, b, lo, hi)
    requires hi <= hi' || |b| <= hi'
    ensures Changed(nlri, was, b, lo, hi')
  {
    forall i | lo <= i < hi' && i < |b| ensures Within(nlri[i], b[i]) { WithinSelf(b[i]); }
  }

  method DecodeOps(nlri: array<bv8>, pos0: nat, kind: bv8, v6: bool, ghost b: Bytes) returns (step: Step)
    requires |b| == nlri.Length && forall i :: pos0 <= i < |b| ==> nlri[i] == b[i]
    modifies nlri
    ensures step == OpsAt(b, pos0, kind, v6, true, false)
    ensures Changed(nlri, old(nlri[..]), b, pos0, if step.Go? then step.next else |b|)
    ensures step.Go? ==> nlri[pos0..step.next] == CleanOpsBytes(b, pos0, kind, v6, true)
  {
    var pos: nat, first, last := pos0, true, false;
    ghost var done: Bytes := [];
    while !last
      invariant pos0 <= pos && (pos0 < pos ==> pos <= |b|)
      invariant Changed(nlri, old(nlri[..]), b, pos0, pos)
      invariant OpsDone(done, b, pos0, pos, kind, v6, first, last)
      invariant pos <= |b| ==> done == nlri[pos0..pos]
      invariant last ==> pos0 < pos
      decreases |b| - pos, !last
    {
      var fault := CheckLength(nlri, pos, kind, b);
      if fault != Valid {
        OpsStopped(done, b, pos0, pos, kind, v6, first);
        ChangedMore(nlri, old(nlri[..]), b, pos0, pos, |b|);
        return Stop(fault);
      }
      OpsDoneStep(done, b, pos0, pos, kind, v6, first);
      done := done + CleanOpBytes(b, pos, kind, v6, first);
      last, pos := PassOp(nlri, pos0, pos, kind, v6, first, old(nlri[..]), b);
      first := false;
    }
    return Go(pos);
  }

  /** One operator: its bits are cleared, and the loop goes on behind it. */
  method PassOp(nlri: array<bv8>, pos0: nat, pos: nat, kind: bv8, v6: bool, first: bool,
                ghost was: Bytes, ghost b: Bytes)
    returns (last: bool, next: nat)
    requires |b| == |was| == nlri.Length && pos0 <= pos < |b| && NextOp(b, pos) <= |b|
    requires Changed(nlri, was, b, pos0, pos)
    modifies nlri
    ensures last == EndBit(b[pos]) && next == NextOp(b, pos) && Changed(nlri, was, b, pos0, next)
    ensures nlri[pos0..next] == old(nlri[pos0..pos]) + CleanOpBytes(b, pos, kind, v6, first)
  {
    var len := ValueLength(nlri[pos]);
    CleanOpFacts(b[pos], kind, first);
    DecodeOp(nlri, pos0, pos, kind, v6, first, was, b);
    last := EndBit(nlri[pos]);
    next := pos + 1 + len;
  }

  method DecodePrefix(nlri: array<bv8>, pos0: nat, v6: bool, ghost b: Bytes) returns (step: Step)
    requires |b| == nlri.Length && forall i :: pos0 <= i < |b| ==> nlri[i] == b[i]
    modifies nlri
    ensures step == PrefixAt(b, pos0, v6, false)
    ensures Changed(nlri, old(nlri[..]), b, pos0, if step.Go? then step.next else |b|)
    ensures step.Go? ==> var start := pos0 + HeaderLength(v6);
      nlri[pos0..step.next] == b[pos0..start] + CleanPadding(b[start..step.next], BitsAt(b, pos0, v6))
  {
    HeaderSame(nlri[..], b, pos0, v6);
    var fault, pos, bits := ReadHeader(nlri[..], pos0, v6);
    ChangedMore(nlri, old(nlri[..]), b, pos0, pos0, |b|);
    if fault != Valid { return Stop(fault); }
    var start := pos;
    pos := pos + BytesOf(bits);
    if pos > nlri.Length { return Stop(NotComplete); }
    assert nlri[start..pos] == b[start..pos];
    ClearPadding(nlri, start, bits);
    assert Changed(nlri, old(nlri[..]), b, pos0, pos) by {
      forall i | pos0 <= i < pos ensures Within(nlri[i], b[i]) { WithinSelf(b[i]); }
    }
    SliceJoin(nlri, pos0, start, pos);
    assert nlri[pos0..start] == b[pos0..start];
    return Go(pos);
  }

  lemma ChangedBefore(nlri: array<bv8>, was: Bytes, b: Bytes, lo: nat, hi: nat)
    requires |b| == |was| == nlri.Length && lo < hi && lo < |b| && Changed(nlri, was, b, lo + 1, hi)
    requires was[lo] == b[lo]
    ensures Changed(nlri, was, b, lo, hi)
  {
    WithinSelf(b[lo]);
  }

  lemma ChangedJoin(nlri: array<bv8>, was: Bytes, b: Bytes, mid: nat, hi: nat)
    requires |b| == |was| == nlri.Length && mid <= hi && Changed(nlri, was, b, mid, hi)
    requires forall i :: 0 <= i < mid && i < |b| ==> Within(was[i], b[i])
    ensures Changed(nlri, b, b, 0, hi)
  {
  }

  lemma ChangedSlice(nlri: array<bv8>, was: Bytes, b: Bytes, lo: nat, hi: nat)
    requires |b| == |was| == nlri.Length && lo <= hi <= |b| && Changed(nlri, was, b, lo, hi)
    ensures nlri[..hi] == was[..lo] + nlri[lo..hi]
  {
  }

  lemma HeaderSame(a: Bytes, b: Bytes, pos: nat, v6: bool)
    requires |a| == |b| && forall i :: pos <= i < |b| ==> a[i] == b[i]
    ensures PrefixFault(a, pos, v6) == PrefixFault(b, pos, v6)
    ensures PrefixFault(a, pos, v6) == Valid ==> BitsAt(a, pos, v6) == BitsAt(b, pos, v6)
  {
  }

  /** A cleaned prefix component after its header. */
  lemma EncodeCleaned(c: Component, n: nat, head: Bytes, v6: bool)
    requires c.Prefix? && PrefixBits(c) == n && head == [c.kind, c.pxlen] + if v6 then [c.offset] else []
    ensures Encode(Clean(c, v6), v6) == head + CleanPadding(c.bytes, n)
  {
  }

  lemma Prepended(x: bv8, y: Bytes, z: Bytes)
    ensures ([x] + y) + z == [x] + (y + z)
  {
  }

  lemma EncodeCleanPrefix4(b: Bytes, pos: nat, next: nat)
    requires pos < |b| && IsPrefix(b[pos]) && PrefixAt(b, pos + 1, false, false) == Go(next)
    ensures Encode(Clean(PartOf(b, pos, false), false), false) ==
      [b[pos]] + (b[pos + 1..pos + 2] + CleanPadding(b[pos + 2..next], BitsAt(b, pos + 1, false)))
  {
    var c, n := PartOf(b, pos, false), BitsAt(b, pos + 1, false);
    assert c == Prefix(b[pos], b[pos + 1], 0, b[pos + 2..next]);
    assert Num(0) == 0;
    EncodeCleaned(c, n, [b[pos]] + b[pos + 1..pos + 2], false);
    Prepended(b[pos], b[pos + 1..pos + 2], CleanPadding(c.bytes, n));
  }

  lemma EncodeCleanPrefix6(b: Bytes, pos: nat, next: nat)
    requires pos < |b| && IsPrefix(b[pos]) && PrefixAt(b, pos + 1, true, false) == Go(next)
    ensures Encode(Clean(PartOf(b, pos, true), true), true) ==
      [b[pos]] + (b[pos + 1..pos + 3] + CleanPadding(b[pos + 3..next], BitsAt(b, pos + 1, true)))
  {
    var c, n := PartOf(b, pos, true), BitsAt(b, pos + 1, true);
    assert c == Prefix(b[pos], b[pos + 1], b[pos + 2], b[pos + 3..next]);
    EncodeCleaned(c, n, [b[pos]] + b[pos + 1..pos + 3], true);
    Prepended(b[pos], b[pos + 1..pos + 3], CleanPadding(c.bytes, n));
  }

  lemma EncodeCleanPrefix(b: Bytes, pos: nat, v6: bool)
    requires pos < |b| && IsPrefix(b[pos]) && PrefixAt(b, pos + 1, v6, false).Go?
    ensures var start, next := pos + 1 + HeaderLength(v6), PrefixAt(b, pos + 1, v6, false).next;
      Encode(Clean(PartOf(b, pos, v6), v6), v6) ==
        [b[pos]] + (b[pos + 1..start] + CleanPadding(b[start..next], BitsAt(b, pos + 1, v6)))
  {
    if v6 {
      EncodeCleanPrefix6(b, pos, PrefixAt(b, pos + 1, v6, false).next);
    } else {
      EncodeCleanPrefix4(b, pos, PrefixAt(b, pos + 1, v6, false).next);
    }
  }

  lemma EncodeCleanOps(b: Bytes, pos: nat, v6: bool)
    requires pos < |b| && !IsPrefix(b[pos]) && PartAt(b, pos, v6, false).Go?
    ensures Encode(Clean(PartOf(b, pos, v6), v6), v6) == [b[pos]] + CleanOpsBytes(b, pos + 1, b[pos], v6, true)
  {
  }

  lemma SliceHead(a: array<bv8>, lo: nat, hi: nat)
    requires lo < hi <= a.Length
    ensures a[lo..hi] == [a[lo]] + a[lo + 1..hi]
  {
  }

  lemma SliceJoin(a: array<bv8>, lo: nat, mid: nat, hi: nat)
    requires lo <= mid <= hi <= a.Length
    ensures a[lo..hi] == a[lo..mid] + a[mid..hi]
  {
  }

  method DecodePart(nlri: array<bv8>, pos: nat, v6: bool, ghost b: Bytes) returns (step: Step)
    requires |b| == nlri.Length && pos < |b| && forall i :: pos <= i < |b| ==> nlri[i] == b[i]
    modifies nlri
    ensures step == PartAt(b, pos, v6, false)
    ensures Changed(nlri, old(nlri[..]), b, pos, if step.Go? then step.next else |b|)
    ensures step.Go? ==> nlri[pos..step.next] == Encode(Clean(PartOf(b, pos, v6), v6), v6)
  {
    var kind := nlri[pos];
    if IsPrefix(kind) {
      step := DecodePrefixPart(nlri, pos, v6, b);
    } else if IsOps(kind, v6) {
      step := DecodeOpsPart(nlri, pos, v6, b);
    } else {
      step := Stop(UnknownComponent);
      ChangedMore(nlri, nlri[..], b, pos, pos, |b|);
    }
  }

  method DecodePrefixPart(nlri: array<bv8>, pos: nat, v6: bool, ghost b: Bytes) returns (step: Step)
    requires |b| == nlri.Length && pos < |b| && IsPrefix(b[pos]) && forall i :: pos <= i < |b| ==> nlri[i] == b[i]
    modifies nlri
    ensures step == PartAt(b, pos, v6, false)
    ensures Changed(nlri, old(nlri[..]), b, pos, if step.Go? then step.next else |b|)
    ensures step.Go? ==> nlri[pos..step.next] == Encode(Clean(PartOf(b, pos, v6), v6), v6)
  {
    step := DecodePrefix(nlri, pos + 1, v6, b);
    ChangedBefore(nlri, old(nlri[..]), b, pos, if step.Go? then step.next else |b|);
    if step.Go? {
      EncodeCleanPrefix(b, pos, v6);
      SliceHead(nlri, pos, step.next);
    }
  }

  method DecodeOpsPart(nlri: array<bv8>, pos: nat, v6: bool, ghost b: Bytes) returns (step: Step)
    requires |b| == nlri.Length && pos < |b| && forall i :: pos <= i < |b| ==> nlri[i] == b[i]
    requires !IsPrefix(b[pos]) && IsOps(b[pos], v6)
    modifies nlri
    ensures step == PartAt(b, pos, v6, false)
    ensures Changed(nlri, old(nlri[..]), b, pos, if step.Go? then step.next else |b|)
    ensures step.Go? ==> nlri[pos..step.next] == Encode(Clean(PartOf(b, pos, v6), v6), v6)
  {
    step := DecodeOps(nlri, pos + 1, nlri[pos], v6, b);
    ChangedBefore(nlri, old(nlri[..]), b, pos, if step.Go? then step.next else |b|);
    if step.Go? {
      EncodeCleanOps(b, pos, v6);
      SliceHead(nlri, pos, step.next);
    }
  }

  /** With done written for the components before pos, what is left to do. */
  ghost predicate Done(done: Bytes, b: Bytes, pos: nat, above: bv8, v6: bool)
    requires pos <= |b|
  {
    && Scan(b, pos, above, v6, false) == Scan(b, 0, 0, v6, false)
    && (Scan(b, 0, 0, v6, false) == Valid ==>
          done + EncodeAll(CleanAll(Parse(b, pos, above, v6), v6), v6) == Normalised(b, v6))
  }

  lemma DoneStep(done: Bytes, b: Bytes, pos: nat, above: bv8, v6: bool)
    requires pos < |b| && Done(done, b, pos, above, v6) && above < b[pos] && PartAt(b, pos, v6, false).Go?
    ensures Done(done + Encode(Clean(PartOf(b, pos, v6), v6), v6), b, PartAt(b, pos, v6, false).next, b[pos], v6)
  {
    if Scan(b, 0, 0, v6, false) == Valid {
      var c, cs := PartOf(b, pos, v6), Parse(b, PartAt(b, pos, v6, false).next, b[pos], v6);
      assert ([c] + cs)[1..] == cs;
      EncodeMore(Clean(c, v6), CleanAll(cs, v6), v6);
    }
  }

  lemma DoneStop(done: Bytes, b: Bytes, pos: nat, above: bv8, v6: bool)
    requires pos < |b| && Done(done, b, pos, above, v6)
    ensures b[pos] <= above ==> Scan(b, 0, 0, v6, false) == BadTypeOrder
    ensures above < b[pos] && PartAt(b, pos, v6, false).Stop? ==>
      Scan(b, 0, 0, v6, false) == PartAt(b, pos, v6, false).state
  {
  }

  /** b became a by clearing bits. */
  ghost predicate OnlyCleared(a: Bytes, b: Bytes) {
    |a| == |b| && forall i :: 0 <= i < |a| ==> Within(a[i], b[i])
  }

  lemma ChangedCleared(nlri: array<bv8>, b: Bytes, pos: nat)
    requires |b| == nlri.Length && Changed(nlri, b, b, 0, pos)
    ensures OnlyCleared(nlri[..], b)
  {
    if pos < |b| {
      ChangedMore(nlri, b, b, 0, pos, |b|);
    }
  }

  lemma DoneAll(done: Bytes, b: Bytes, above: bv8, v6: bool)
    requires Done(done, b, |b|, above, v6)
    ensures Scan(b, 0, 0, v6, false) == Valid && done == Normalised(b, v6)
  {
    assert done + [] == done;
  }

  /** One round of the decoder's loop, once the order of types is checked. */
  method DecodeNext(nlri: array<bv8>, pos: nat, above: bv8, v6: bool, ghost b: Bytes) returns (step: Step)
    requires |b| == nlri.Length && pos < |b| && above < b[pos]
    requires Changed(nlri, b, b, 0, pos) && Done(nlri[..pos], b, pos, above, v6)
    modifies nlri
    ensures step == PartAt(b, pos, v6, false)
    ensures Changed(nlri, b, b, 0, if step.Go? then step.next else |b|)
    ensures step.Go? ==> Done(nlri[..step.next], b, step.next, b[pos], v6)
  {
    ghost var was := nlri[..];
    assert nlri[..pos] == was[..pos];
    step := DecodePart(nlri, pos, v6, b);
    ghost var end := if step.Go? then step.next else |b|;
    ChangedJoin(nlri, was, b, pos, end);
    ChangedSlice(nlri, was, b, pos, end);
    if step.Go? {
      DoneStep(was[..pos], b, pos, above, v6);
    }
  }

  /** flow_decode: reports the first fault of the bytes received; if there is none,
      they are brought into normal form.  Whatever happens, bits are only cleared. */
  method Decode(nlri: array<bv8>, v6: bool) returns (st: State)
    modifies nlri
    ensures st == Scan(old(nlri[..]), 0, 0, v6, false)
    ensures st == Valid ==> nlri[..] == Normalised(old(nlri[..]), v6)
    ensures OnlyCleared(nlri[..], old(nlri[..]))
    // what that is for rules of one component
    ensures OneOperator(old(nlri[..])) ==> st == OperatorStateOf(old(nlri[..]), v6, false)
    ensures OnePrefix(old(nlri[..]), v6) ==> st == PrefixStateOf(old(nlri[..]), v6, false)
  {
    States(nlri[..], v6, false);
    st := DecodeAll(nlri, v6);
  }

  method DecodeAll(nlri: array<bv8>, v6: bool) returns (st: State)
    modifies nlri
    ensures st == Scan(old(nlri[..]), 0, 0, v6, false)
    ensures st == Valid ==> nlri[..] == Normalised(old(nlri[..]), v6)
    ensures OnlyCleared(nlri[..], old(nlri[..]))
  {
    ghost var b := nlri[..];
    var kind: bv8, pos: nat := 0, 0;
    while pos < nlri.Length
      invariant pos <= nlri.Length
      invariant Changed(nlri, b, b, 0, pos)
      invariant Done(nlri[..pos], b, pos, kind, v6)
    {
      DoneStop(nlri[..pos], b, pos, kind, v6);
      if nlri[pos] <= kind {
        ChangedCleared(nlri, b, pos);
        return BadTypeOrder;
      }
      var next := nlri[pos];
      var step := DecodeNext(nlri, pos, kind, v6, b);
      if step.Stop? {
        ChangedCleared(nlri, b, |b|);
        return step.state;
      }
      kind, pos := next, step.next;
    }
    ChangedCleared(nlri, b, pos);
    DoneAll(nlri[..pos], b, kind, v6);
    assert nlri[..pos] == nlri[..];
    return Valid;
  }
}
