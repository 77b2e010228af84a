/** What lib/flowspec.c reports for rules of one component, told from the values of the bytes
    (sections 4.2.1 and 4.2.2 of RFC 8955, section 3 of RFC 8956) and not from masks.
 */
module FlowStates {
  import opened FlowOps
  import opened FlowFormat
  import opened FlowScan

  // ---- Rules of one operator ----

  /** One component with one operator. */
  predicate OneOperator(b: Bytes) {
    |b| >= 3 && Num(b[0]) != 1 && Num(b[0]) != 2 && Num(b[1]) >= 0x80 && |b| == 2 + [1, 2, 4, 8][Num(b[1]) / 0x10 % 4]
  }

  /** The state for a component of the given type with one operator op, a value of len bytes, and
      the value's first byte. */
  function OperatorState(kind: nat, op: nat, len: nat, first: nat, v6: bool, strict: bool): State {
    if kind == 0 then BadTypeOrder
    else if kind > 13 || (kind == 13 && !v6) then UnknownComponent
    else if (kind == 9 && len > 2) || (kind == 11 && len > 1) || (kind == 12 && len > 1) then ExceedMaxValueLength
    else if !strict then Valid
    else if op / 0x40 % 2 == 1 then FirstAndBitSet
    else if op / 0x08 % 2 == 1 then ZeroBitSet
    else if (kind == 9 || kind == 12) && op / 0x04 % 2 == 1 then ZeroBitSet
    else if kind == 9 && len == 2 && first >= 16 then InvalidTcpFlags
    else if kind == 12 && (first >= 16 || (v6 && first % 2 == 1)) then InvalidFragment
    else Valid
  }

  lemma ZeroBit(op: bv8)
    ensures op & 0x08 != 0 <==> Num(op) / 0x08 % 2 == 1
  {
  }

  lemma MaskZeroBit(op: bv8)
    ensures op & 0x04 != 0 <==> Num(op) / 0x04 % 2 == 1
  {
  }

  lemma HighNibble(x: bv8)
    ensures x & 0xf0 != 0 <==> Num(x) >= 16
  {
  }

  lemma HighNibbleAndLowest(x: bv8)
    ensures x & 0xf1 != 0 <==> Num(x) >= 16 || Num(x) % 2 == 1
  {
  }

  lemma Kinds(kind: bv8)
    ensures kind == 0 <==> Num(kind) == 0
    ensures IsPrefix(kind) <==> Num(kind) == 1 || Num(kind) == 2
    ensures IsOps(kind, true) <==> 3 <= Num(kind) <= 13
    ensures IsOps(kind, false) <==> 3 <= Num(kind) <= 12
    ensures kind == TCP_FLAGS <==> Num(kind) == 9
    ensures kind == DSCP <==> Num(kind) == 11
    ensures kind == FRAGMENT <==> Num(kind) == 12
  {
  }

  /** The complaint of the strict check. */
  lemma FaultIs(kind: bv8, op: bv8, x: bv8, v6: bool)
    requires 3 <= Num(kind) <= 13 && (kind == LABEL ==> v6) && LengthAllowed(kind, ValueLength(op))
    ensures OpFault(op, x, kind, v6, true) == OperatorState(Num(kind), Num(op), ValueLength(op), Num(x), v6, true)
  {
    Kinds(kind);
    AndIs(op);
    ZeroBit(op);
    MaskZeroBit(op);
    HighNibble(x);
    HighNibbleAndLowest(x);
  }

  /** That state, from the bytes. */
  function OperatorStateOf(b: Bytes, v6: bool, strict: bool): State
    requires OneOperator(b)
  {
    OperatorState(Num(b[0]), Num(b[1]), |b| - 2, Num(b[2]), v6, strict)
  }

  /** The state reported for a rule of one operator. */
  lemma OperatorStates(b: Bytes, v6: bool, strict: bool)
    requires OneOperator(b)
    ensures Scan(b, 0, 0, v6, strict) == OperatorStateOf(b, v6, strict)
  {
    Kinds(b[0]);
    EndIs(b[1]);
    LengthIs(b[1]);
    if IsOps(b[0], v6) && LengthAllowed(b[0], ValueLength(b[1])) {
      FaultIs(b[0], b[1], b[2], v6);
    }
  }

  /** The states of all rules of one component. */
  lemma States(b: Bytes, v6: bool, strict: bool)
    ensures OneOperator(b) ==> Scan(b, 0, 0, v6, strict) == OperatorStateOf(b, v6, strict)
    ensures OnePrefix(b, v6) ==> Scan(b, 0, 0, v6, strict) == PrefixStateOf(b, v6, strict)
  {
    if OneOperator(b) {
      OperatorStates(b, v6, strict);
    }
    if OnePrefix(b, v6) {
      PrefixStates(b, v6, strict);
    }
  }

  // ---- Rules of one prefix ----

  /** Last byte of a prefix of n bits: the bits of it beyond the prefix are zero. */
  predicate Padded(x: nat, n: nat) {
    match n % 8
    case 0 => true
    case 1 => x % 128 == 0
    case 2 => x % 64 == 0
    case 3 => x % 32 == 0
    case 4 => x % 16 == 0
    case 5 => x % 8 == 0
    case 6 => x % 4 == 0
    case _ => x % 2 == 0
  }

  lemma Low1(x: bv8) ensures x & 0x01 != 0 <==> Num(x) % 2 != 0 {}
  lemma Low2(x: bv8) ensures x & 0x03 != 0 <==> Num(x) % 4 != 0 {}
  lemma Low3(x: bv8) ensures x & 0x07 != 0 <==> Num(x) % 8 != 0 {}
  lemma Low4(x: bv8) ensures x & 0x0f != 0 <==> Num(x) % 16 != 0 {}
  lemma Low5(x: bv8) ensures x & 0x1f != 0 <==> Num(x) % 32 != 0 {}
  lemma Low6(x: bv8) ensures x & 0x3f != 0 <==> Num(x) % 64 != 0 {}
  lemma Low7(x: bv8) ensures x & 0x7f != 0 <==> Num(x) % 128 != 0 {}

  /** The test with flow_padding. */
  lemma PaddedIff(x: bv8, n: nat)
    ensures x & Padding(n) != 0 <==> !Padded(Num(x), n)
  {
    var k := n % 8;
    if k == 7 { Low1(x); }
    if k == 6 { Low2(x); }
    if k == 5 { Low3(x); }
    if k == 4 { Low4(x); }
    if k == 3 { Low5(x); }
    if k == 2 { Low6(x); }
    if k == 1 { Low7(x); }
  }

  /** The state for a rule of one prefix of pxlen bits behind an offset, with n bytes of which the last is given. */
  function PrefixState(pxlen: nat, offset: nat, n: nat, last: nat, v6: bool, strict: bool): State {
    if pxlen > (if v6 then 128 else 32) then ExceedMaxPrefixLength
    else if offset > pxlen then ExceedMaxPrefixOffset
    else if n < (pxlen - offset + 7) / 8 then NotComplete
    else if strict && !Padded(last, pxlen - offset) then NonzeroPadding
    else Valid
  }

  lemma PayloadStates(b: Bytes, pos: nat, bits: nat, strict: bool)
    requires 0 < pos <= |b| <= pos + BytesOf(bits)
    ensures PayloadAt(b, pos, bits, strict) ==
              if |b| - pos < BytesOf(bits) then Stop(NotComplete)
              else if strict && !Padded(Num(b[|b| - 1]), bits) then Stop(NonzeroPadding)
              else Go(|b|)
  {
    PaddedIff(b[|b| - 1], bits);
  }

  /** The rule ends with the prefix, or before its end. */
  predicate OnePrefix(b: Bytes, v6: bool) {
    && |b| >= (if v6 then 3 else 2) && (Num(b[0]) == 1 || Num(b[0]) == 2)
    && |b| - (if v6 then 3 else 2) <= (Num(b[1]) + 7 - if v6 then Num(b[2]) else 0) / 8
  }

  /** That state, from the bytes. */
  function PrefixStateOf(b: Bytes, v6: bool, strict: bool): State
    requires OnePrefix(b, v6)
  {
    if v6 then PrefixState(Num(b[1]), Num(b[2]), |b| - 3, Num(b[|b| - 1]), v6, strict)
    else PrefixState(Num(b[1]), 0, |b| - 2, Num(b[|b| - 1]), v6, strict)
  }

  lemma PrefixStep(b: Bytes, v6: bool, strict: bool)
    requires OnePrefix(b, v6)
    ensures var state := PrefixStateOf(b, v6, strict);
            PrefixAt(b, 1, v6, strict) == if state == Valid then Go(|b|) else Stop(state)
  {
    if PrefixFault(b, 1, v6) == Valid {
      PayloadStates(b, 1 + HeaderLength(v6), BitsAt(b, 1, v6), strict);
    }
  }

  /** The state reported for a rule of one prefix. */
  lemma PrefixStates(b: Bytes, v6: bool, strict: bool)
    requires OnePrefix(b, v6)
    ensures Scan(b, 0, 0, v6, strict) == PrefixStateOf(b, v6, strict)
  {
    Kinds(b[0]);
    PrefixStep(b, v6, strict);
    OneStep(b, v6, strict);
  }

  lemma OneStep(b: Bytes, v6: bool, strict: bool)
    requires b != [] && b[0] > 0
    requires var step := PartAt(b, 0, v6, strict); step.Go? ==> step.next == |b|
    ensures Scan(b, 0, 0, v6, strict) ==
            match PartAt(b, 0, v6, strict) case Stop(state) => state case Go(next) => Valid
  {
  }
}
