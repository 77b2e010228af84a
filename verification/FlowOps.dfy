/** Operator lists of flowspec components (lib/flowspec.c, section 4.2.1 of
    RFC 8955): bytes, operators and what they accept.
 */
module FlowOps {
  type Bytes = seq<bv8>

  /** Operator bits: end of list, AND, and the comparisons. */
  predicate EndBit(op: bv8) { op & 0x80 == 0x80 }
  predicate AndBit(op: bv8) { op & 0x40 == 0x40 }
  predicate LtBit(op: bv8) { op & 0x04 == 0x04 }
  predicate GtBit(op: bv8) { op & 0x02 == 0x02 }
  predicate EqBit(op: bv8) { op & 0x01 == 0x01 }

  /** num_op(op) == FLOW_OP_NEQ */
  predicate IsNeq(op: bv8) { op & 0x07 == 0x06 }

  /** get_value_length */
  function ValueLength(op: bv8): (r: nat)
    ensures r == 1 || r == 2 || r == 4 || r == 8
  {
    if op & 0x30 == 0x00 then 1
    else if op & 0x30 == 0x10 then 2
    else if op & 0x30 == 0x20 then 4
    else 8
  }

  const MAX_VALUE := 0xffffffff

  function Num(b: bv8): (r: nat)
    ensures r <= 0xff
  {
    b as int
  }

  /** get_value: a big-endian number of 1, 2 or 4 bytes; 8-byte values read as 0. */
  function GetValue(b: Bytes, pos: nat, len: nat): (r: nat)
    requires pos + len <= |b|
    ensures r <= MAX_VALUE
  {
    if len == 1 then Num(b[pos])
    else if len == 2 then Num(b[pos]) * 0x100 + Num(b[pos + 1])
    else if len == 4 then
      Num(b[pos]) * 0x1000000 + Num(b[pos + 1]) * 0x10000 + Num(b[pos + 2]) * 0x100 + Num(b[pos + 3])
    else 0
  }

  /** Bytes read as a number, most significant first. */
  ghost function BigEndian(b: Bytes): nat {
    if b == [] then 0 else BigEndian(b[..|b| - 1]) * 0x100 + Num(b[|b| - 1])
  }

  /** Operands of 1, 2 and 4 bytes are read in network order, longer ones as 0. */
  lemma GetValueIs(b: Bytes, pos: nat, len: nat)
    requires pos + len <= |b| && (len == 1 || len == 2 || len == 4 || len == 8)
    ensures GetValue(b, pos, len) == if len == 8 then 0 else BigEndian(b[pos..pos + len])
  {
    var v := b[pos..pos + len];
    assert v[..len][..len - 1] == v[..len - 1];
    if len == 1 {
      assert v[..0] == [];
    } else if len == 2 {
      assert v[..1][..0] == [];
    } else if len == 4 {
      assert v[..3][..2] == v[..2] && v[..2][..1] == v[..1] && v[..1][..0] == [];
      assert BigEndian(v[..1]) == Num(v[0]);
      assert BigEndian(v[..2]) == BigEndian(v[..1]) * 0x100 + Num(v[1]);
      assert BigEndian(v[..3]) == BigEndian(v[..2]) * 0x100 + Num(v[2]);
      assert v == v[..4];
    }
  }

  /** Position of the next operator. */
  function NextOp(b: Bytes, pos: nat): (r: nat)
    requires pos < |b|
    ensures pos + 2 <= r
  {
    pos + 1 + ValueLength(b[pos])
  }

  /** A complete operator list starts at pos. */
  predicate ListAt(b: Bytes, pos: nat): (r: bool)
    ensures r ==> pos < |b| && NextOp(b, pos) <= |b|
    decreases |b| - pos
  {
    pos < |b| && NextOp(b, pos) <= |b| && (EndBit(b[pos]) || ListAt(b, NextOp(b, pos)))
  }

  /** The value of the operator at pos. */
  function OpValue(b: Bytes, pos: nat): (r: nat)
    requires pos < |b| && NextOp(b, pos) <= |b|
    ensures r <= MAX_VALUE
  {
    GetValue(b, pos + 1, ValueLength(b[pos]))
  }

  /** FLOW_OP_*, section 4.2.1.1 of RFC 8955: what the last three bits of the operator, as a number, demand. */
  predicate Compare(op: bv8, val: nat, v: nat) {
    match Num(op) % 8
    case 0 => false
    case 1 => v == val
    case 2 => v > val
    case 3 => v >= val
    case 4 => v < val
    case 5 => v <= val
    case 6 => v != val
    case _ => true
  }

  // The bits that are tested, as digits of the operator.

  lemma EndIs(op: bv8)
    ensures EndBit(op) <==> Num(op) >= 0x80
  {
  }

  lemma AndIs(op: bv8)
    ensures AndBit(op) <==> Num(op) / 0x40 % 2 == 1
  {
  }

  lemma LengthIs(op: bv8)
    ensures ValueLength(op) == [1, 2, 4, 8][Num(op) / 0x10 % 4]
  {
  }

  lemma LtIs(op: bv8)
    ensures LtBit(op) <==> Num(op) % 8 >= 4
  {
  }

  lemma GtIs(op: bv8)
    ensures GtBit(op) <==> Num(op) % 4 >= 2
  {
  }

  lemma EqIs(op: bv8)
    ensures EqBit(op) <==> Num(op) % 2 == 1
  {
  }

  lemma NeqIs(op: bv8)
    ensures IsNeq(op) <==> Num(op) % 8 == 6
  {
  }

  /** v satisfies the operators from pos to the end of the list, read as an OR of
      AND-sequences; acc tells whether the current sequence holds so far. */
  predicate Sat(b: Bytes, pos: nat, acc: bool, v: nat)
    requires ListAt(b, pos)
    decreases |b| - pos
  {
    var acc' := acc && Compare(b[pos], OpValue(b, pos), v);
    if EndBit(b[pos]) then acc'
    else if AndBit(b[NextOp(b, pos)]) then Sat(b, NextOp(b, pos), acc', v)
    else acc' || Sat(b, NextOp(b, pos), true, v)
  }

  // ---- The list as an OR of AND-sequences ----

  type Op = (bv8, nat)

  /** The AND-sequences of the list; the AND bit of the first operator is ignored. */
  ghost function Sequences(b: Bytes, pos: nat): (r: seq<seq<Op>>)
    requires ListAt(b, pos)
    ensures |r| > 0
    decreases |b| - pos
  {
    var op := (b[pos], OpValue(b, pos));
    if EndBit(b[pos]) then [[op]]
    else
      var rest := Sequences(b, NextOp(b, pos));
      if AndBit(b[NextOp(b, pos)]) then [[op] + rest[0]] + rest[1..] else [[op]] + rest
  }

  ghost predicate AllHold(ops: seq<Op>, v: nat) {
    forall k :: 0 <= k < |ops| ==> Compare(ops[k].0, ops[k].1, v)
  }

  ghost predicate SomeHolds(seqs: seq<seq<Op>>, v: nat) {
    exists i :: 0 <= i < |seqs| && AllHold(seqs[i], v)
  }

  lemma AllHoldMore(op: Op, ops: seq<Op>, v: nat)
    ensures AllHold([op] + ops, v) <==> Compare(op.0, op.1, v) && AllHold(ops, v)
  {
    var all := [op] + ops;
    if AllHold(all, v) {
      assert all[0] == op;
      forall k | 0 <= k < |ops| ensures Compare(ops[k].0, ops[k].1, v) { assert all[k + 1] == ops[k]; }
    }
  }

  lemma SomeHoldsMore(ops: seq<Op>, seqs: seq<seq<Op>>, v: nat)
    ensures SomeHolds([ops] + seqs, v) <==> AllHold(ops, v) || SomeHolds(seqs, v)
  {
    var all := [ops] + seqs;
    if AllHold(ops, v) {
      assert all[0] == ops;
    }
    if i :| 0 <= i < |seqs| && AllHold(seqs[i], v) {
      assert all[i + 1] == seqs[i];
    }
  }

  lemma {:induction false} SatIff(b: Bytes, pos: nat, acc: bool, v: nat)
    requires ListAt(b, pos)
    ensures Sat(b, pos, acc, v) <==>
      (acc && AllHold(Sequences(b, pos)[0], v)) || SomeHolds(Sequences(b, pos)[1..], v)
    decreases |b| - pos
  {
    var op := (b[pos], OpValue(b, pos));
    AllHoldMore(op, [], v);
    assert [op] + [] == [op];
    if !EndBit(b[pos]) {
      var rest := Sequences(b, NextOp(b, pos));
      assert rest == [rest[0]] + rest[1..];
      SomeHoldsMore(rest[0], rest[1..], v);
      if AndBit(b[NextOp(b, pos)]) {
        AllHoldMore(op, rest[0], v);
        SatIff(b, NextOp(b, pos), acc && Compare(op.0, op.1, v), v);
      } else {
        SatIff(b, NextOp(b, pos), true, v);
      }
    }
  }

  /** A list accepts v iff all operators of one of its AND-sequences do. */
  lemma SatIsSomeSequence(b: Bytes, pos: nat, v: nat)
    requires ListAt(b, pos)
    ensures Sat(b, pos, true, v) <==> SomeHolds(Sequences(b, pos), v)
  {
    SatIff(b, pos, true, v);
    var seqs := Sequences(b, pos);
    assert seqs == [seqs[0]] + seqs[1..];
    SomeHoldsMore(seqs[0], seqs[1..], v);
  }
}
