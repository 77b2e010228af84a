/** Flowspec operator lists as interval lists (lib/flowspec.c).

    A list of numeric operators is an OR of AND-sequences.  The code turns each
    sequence into one interval and a list of excluded values, writes the
    intervals left between these, and finally sorts and merges all intervals.
    The excluded values wait in the output buffer itself, behind the intervals
    already written.
 */
module FlowExplicate {
  import opened FlowOps

  /** A buffer record: lower and upper bound, both included. */
  type Record = (nat, nat)

  // ---- Buffer size ----

  /** Records asked for by the operators from pos on. */
  function Records(b: Bytes, pos: nat, first: bool): (r: nat)
    requires ListAt(b, pos)
    decreases |b| - pos
  {
    (if first || !AndBit(b[pos]) then 1 else 0) + (if IsNeq(b[pos]) then 1 else 0) +
    (if EndBit(b[pos]) then 0 else Records(b, NextOp(b, pos), false))
  }

  /** The not-equal operators among ops. */
  ghost function NeqsIn(ops: seq<Op>): nat {
    if ops == [] then 0 else (if Num(ops[0].0) % 8 == 6 then 1 else 0) + NeqsIn(ops[1..])
  }

  ghost function Neqs(seqs: seq<seq<Op>>): nat {
    if seqs == [] then 0 else NeqsIn(seqs[0]) + Neqs(seqs[1..])
  }

  /** One record for each AND-sequence, and one more for each not-equal operator. */
  lemma {:induction false} RecordsAre(b: Bytes, pos: nat, first: bool)
    requires ListAt(b, pos)
    ensures Records(b, pos, first) ==
              |Sequences(b, pos)| + Neqs(Sequences(b, pos)) - if first || !AndBit(b[pos]) then 0 else 1
    decreases |b| - pos
  {
    var op := (b[pos], OpValue(b, pos));
    NeqIs(b[pos]);
    NeqsOne(op);
    if !EndBit(b[pos]) {
      var rest := Sequences(b, NextOp(b, pos));
      RecordsAre(b, NextOp(b, pos), false);
      NeqsMore(op, rest);
    }
  }

  lemma NeqsOne(op: Op)
    ensures Neqs([[op]]) == if Num(op.0) % 8 == 6 then 1 else 0
  {
    var one := [op];
    assert one[1..] == [] && NeqsIn(one) == if Num(op.0) % 8 == 6 then 1 else 0;
    var all := [one];
    assert all[1..] == [] && Neqs(all) == NeqsIn(one) + Neqs([]);
  }

  lemma NeqsMore(op: Op, rest: seq<seq<Op>>)
    requires rest != []
    ensures Neqs([[op] + rest[0]] + rest[1..]) == (if Num(op.0) % 8 == 6 then 1 else 0) + Neqs(rest)
    ensures Neqs([[op]] + rest) == (if Num(op.0) % 8 == 6 then 1 else 0) + Neqs(rest)
  {
    var one, more := [op], [op] + rest[0];
    assert one[1..] == [] && NeqsIn(one) == if Num(op.0) % 8 == 6 then 1 else 0;
    assert more[1..] == rest[0] && NeqsIn(more) == (if Num(op.0) % 8 == 6 then 1 else 0) + NeqsIn(rest[0]);
    var a, b := [more] + rest[1..], [one] + rest;
    assert a[1..] == rest[1..] && Neqs(a) == NeqsIn(more) + Neqs(rest[1..]);
    assert b[1..] == rest && Neqs(b) == NeqsIn(one) + Neqs(rest);
  }

  /** flow_explicate_buffer_size: the number of AND-sequences and of not-equal operators. */
  method BufferSize(part: Bytes) returns (len: nat)
    requires ListAt(part, 1)
    ensures len == Records(part, 1, true) == |Sequences(part, 1)| + Neqs(Sequences(part, 1))
  {
    RecordsAre(part, 1, true);
    var pos, first := 1, true;
    len := 0;
    while true
      invariant ListAt(part, pos)
      invariant len + Records(part, pos, first) == Records(part, 1, true)
      decreases |part| - pos
    {
      if !AndBit(part[pos]) || first { len := len + 1; }
      if IsNeq(part[pos]) { len := len + 1; }
      if EndBit(part[pos]) { break; }
      first := false;
      pos := NextOp(part, pos);
    }
  }

  // ---- Intervals ----

  ghost predicate In(r: Record, v: nat) { r.0 <= v <= r.1 }

  /** v lies in one of the records from..to. */
  ghost predicate Covered(buf: array<Record>, from: nat, to: nat, v: nat)
    requires to <= buf.Length
    reads buf
  {
    exists i :: from <= i < to && In(buf[i], v)
  }

  /** The interval an operator stands for, and the value != takes out of it. */
  function LowEnd(op: bv8, val: nat): (r: nat) {
    if LtBit(op) then 0 else if EqBit(op) then val else val + 1
  }

  function HighEnd(op: bv8, val: nat): int {
    if GtBit(op) then MAX_VALUE else if EqBit(op) then val else val - 1
  }

  lemma CompareIs(op: bv8, val: nat, v: nat)
    requires v <= MAX_VALUE
    ensures Compare(op, val, v) <==> LowEnd(op, val) <= v <= HighEnd(op, val) && !(IsNeq(op) && v == val)
  {
    LtIs(op);
    GtIs(op);
    EqIs(op);
    NeqIs(op);
  }

  ghost predicate Sorted(s: seq<Record>) {
    forall i, j :: 0 <= i < j < |s| ==> s[i].0 <= s[j].0
  }

  method Place(x: Record, s: seq<Record>) returns (r: seq<Record>)
    requires Sorted(s)
    ensures Sorted(r) && multiset(r) == multiset(s) + multiset{x}
  {
    var k := 0;
    while k < |s| && s[k].0 < x.0
      invariant 0 <= k <= |s|
      invariant forall i :: 0 <= i < k ==> s[i].0 < x.0
    {
      k := k + 1;
    }
    r := s[..k] + [x] + s[k..];
    Placed(x, s, k, r);
  }

  lemma Placed(x: Record, s: seq<Record>, k: nat, r: seq<Record>)
    requires Sorted(s) && k <= |s| && r == s[..k] + [x] + s[k..]
    requires (forall i :: 0 <= i < k ==> s[i].0 < x.0) && (k < |s| ==> x.0 <= s[k].0)
    ensures Sorted(r) && multiset(r) == multiset(s) + multiset{x}
  {
    PlacedSorted(x, s, k, r);
    PlacedMembers(x, s[..k], s[k..], s);
  }

  lemma PlacedMembers(x: Record, a: seq<Record>, b: seq<Record>, s: seq<Record>)
    requires s == a + b
    ensures multiset(a + [x] + b) == multiset(s) + multiset{x}
  {
  }

  lemma PlacedSorted(x: Record, s: seq<Record>, k: nat, r: seq<Record>)
    requires Sorted(s) && k <= |s| && r == s[..k] + [x] + s[k..]
    requires (forall i :: 0 <= i < k ==> s[i].0 < x.0) && (k < |s| ==> x.0 <= s[k].0)
    ensures Sorted(r)
  {
    assert forall i :: 0 <= i < k ==> r[i] == s[i] && r[i].0 <= x.0;
    assert r[k] == x;
    assert forall i :: k < i < |r| ==> r[i] == s[i - 1] && x.0 <= r[i].0;
  }

  /** Library sort: ascending in the lower bounds, order of equal ones unspecified. */
  method Sort(s: seq<Record>) returns (r: seq<Record>)
    ensures Sorted(r) && multiset(r) == multiset(s)
  {
    if s == [] {
      r := [];
    } else {
      var t := Sort(s[1..]);
      r := Place(s[0], t);
      assert s == [s[0]] + s[1..];
    }
  }

  lemma SameMembers(s: seq<Record>, t: seq<Record>, i: nat)
    requires multiset(s) == multiset(t) && i < |s|
    ensures exists j :: 0 <= j < |t| && t[j] == s[i]
  {
    assert s[i] in multiset(t);
  }

  method SortRange(buf: array<Record>, from: nat, to: nat)
    requires from <= to <= buf.Length
    modifies buf
    ensures Sorted(buf[from..to]) && multiset(buf[from..to]) == multiset(old(buf[from..to]))
    ensures forall i :: 0 <= i < from || to <= i < buf.Length ==> buf[i] == old(buf[i])
  {
    var s := Sort(buf[from..to]);
    assert |multiset(s)| == to - from;
    forall i | from <= i < to { buf[i] := s[i - from]; }
    assert buf[from..to] == s;
  }

  // ---- One AND-sequence ----

  /** What is left of [lo, hi] once the first n of vals are taken out. */
  ghost predicate Left(vals: seq<nat>, n: nat, lo: int, hi: int, v: nat)
    requires n <= |vals|
  {
    lo <= v <= hi && forall k :: 0 <= k < n ==> vals[k] != v
  }

  lemma LeftMore(vals: seq<nat>, n: nat, lo: int, hi: int, v: nat)
    requires n < |vals|
    ensures Left(vals, n + 1, lo, hi, v) <==> Left(vals, n, lo, hi, v) && v != vals[n]
  {
  }

  ghost predicate Proper(buf: array<Record>, from: nat, to: nat)
    requires to <= buf.Length
    reads buf
  {
    forall k :: from <= k < to ==> buf[k].0 <= buf[k].1 <= MAX_VALUE
  }

  /** Take val out of [lo, hi], writing the part below it. */
  method DumpOne(buf: array<Record>, base: nat, num0: nat, val: nat, lo0: nat, hi0: int)
    returns (num: nat, lo: nat, hi: int)
    requires base <= num0 < buf.Length && hi0 <= MAX_VALUE && Proper(buf, base, num0)
    requires forall k :: base <= k < num0 ==> buf[k].1 + 1 < lo0
    requires base < num0 ==> lo0 <= val + 1
    modifies buf
    ensures num0 <= num <= num0 + 1 && lo0 <= lo && hi <= hi0 && Proper(buf, base, num)
    ensures forall k :: 0 <= k < buf.Length && k != num0 ==> buf[k] == old(buf[k])
    ensures forall k :: base <= k < num ==> buf[k].1 + 1 < lo
    ensures (lo0 < lo ==> lo == val + 1) && (num0 < num ==> lo0 < lo)
    ensures forall v: nat :: Covered(buf, base, num, v) || lo <= v <= hi <==>
      (old(Covered(buf, base, num0, v)) || lo0 <= v <= hi0) && v != val
  {
    num, lo, hi := num0, lo0, hi0;
    if val < lo || val > hi {
    } else if val == lo {
      lo := lo + 1;
    } else if val == hi {
      hi := hi - 1;
    } else {
      buf[num] := (lo, val - 1);
      num := num + 1;
      assert forall v: nat :: Covered(buf, base, num, v) <==> old(Covered(buf, base, num0, v)) || lo <= v < val by {
        assert forall v: nat :: In(buf[num0], v) <==> lo <= v < val;
        assert forall k :: base <= k < num0 ==> buf[k] == old(buf[k]);
      }
      lo := val + 1;
    }
  }

  /** Write the intervals between the sorted values waiting in base..base + neqs;
      [lo, hi] is what remains to be written. */
  method DumpNeqs(buf: array<Record>, base: nat, ghost vals: seq<nat>, neqs: nat, lo0: nat, hi0: int)
    returns (num: nat, lo: nat, hi: int)
    requires base + neqs <= buf.Length && |vals| == neqs && hi0 <= MAX_VALUE
    requires forall k :: 0 <= k < neqs ==> buf[base + k].0 == vals[k]
    requires forall i, j :: 0 <= i < j < neqs ==> vals[i] <= vals[j]
    modifies buf
    ensures base <= num <= base + neqs && hi <= MAX_VALUE
    ensures forall k :: 0 <= k < base ==> buf[k] == old(buf[k])
    ensures Proper(buf, base, num)
    ensures forall v: nat :: Left(vals, neqs, lo0, hi0, v) <==> Covered(buf, base, num, v) || lo <= v <= hi
  {
    num, lo, hi := base, lo0, hi0;
    for i := 0 to neqs
      invariant base <= num <= base + i && lo0 <= lo && hi <= MAX_VALUE
      invariant forall k :: 0 <= k < base ==> buf[k] == old(buf[k])
      invariant forall k :: i <= k < neqs ==> buf[base + k].0 == vals[k]
      invariant Proper(buf, base, num)
      invariant forall k :: base <= k < num ==> buf[k].1 + 1 < lo
      invariant lo0 < lo ==> 0 < i && lo - 1 <= vals[i - 1]
      invariant base < num ==> lo0 < lo
      invariant forall v: nat :: Left(vals, i, lo0, hi0, v) <==> Covered(buf, base, num, v) || lo <= v <= hi
    {
      assert 0 < i ==> vals[i - 1] <= vals[i];
      ghost var num1, lo1, hi1 := num, lo, hi;
      label L:
      num, lo, hi := DumpOne(buf, base, num, buf[base + i].0, lo, hi);
      forall v: nat
        ensures Left(vals, i + 1, lo0, hi0, v) <==> Covered(buf, base, num, v) || lo <= v <= hi
      {
        LeftMore(vals, i, lo0, hi0, v);
        assert Left(vals, i, lo0, hi0, v) <==> old@L(Covered(buf, base, num1, v)) || lo1 <= v <= hi1;
      }
    }
  }

  ghost function Values(s: seq<Record>): seq<nat> {
    seq(|s|, k requires 0 <= k < |s| => s[k].0)
  }

  /** Reordering the waiting values takes out the same values. */
  lemma LeftSorted(s: seq<Record>, t: seq<Record>, lo: int, hi: int, v: nat)
    requires multiset(s) == multiset(t) && |s| == |t|
    ensures Left(Values(s), |s|, lo, hi, v) <==> Left(Values(t), |t|, lo, hi, v)
  {
    if i :| 0 <= i < |s| && Values(s)[i] == v {
      SameMembers(s, t, i);
      var j :| 0 <= j < |t| && t[j] == s[i];
      assert Values(t)[j] == v;
    }
    if j :| 0 <= j < |t| && Values(t)[j] == v {
      SameMembers(t, s, j);
      var i :| 0 <= i < |s| && s[i] == t[j];
      assert Values(s)[i] == v;
    }
  }

  /** Sort and write out the waiting values. */
  method FlushNeqs(buf: array<Record>, base: nat, neqs: nat, lo0: nat, hi0: int)
    returns (num: nat, lo: nat, hi: int)
    requires base + neqs <= buf.Length && hi0 <= MAX_VALUE
    modifies buf
    ensures base <= num <= base + neqs && hi <= MAX_VALUE
    ensures forall k :: 0 <= k < base ==> buf[k] == old(buf[k])
    ensures Proper(buf, base, num)
    ensures forall v: nat :: Left(Values(old(buf[base..base + neqs])), neqs, lo0, hi0, v) <==>
      Covered(buf, base, num, v) || lo <= v <= hi
  {
    ghost var s := buf[base..base + neqs];
    SortRange(buf, base, base + neqs);
    ghost var t := buf[base..base + neqs];
    forall v: nat
      ensures Left(Values(s), neqs, lo0, hi0, v) <==> Left(Values(t), neqs, lo0, hi0, v)
    {
      LeftSorted(s, t, lo0, hi0, v);
    }
    num, lo, hi := DumpNeqs(buf, base, Values(t), neqs, lo0, hi0);
  }

  /** End of an AND-sequence: replace the waiting values by the intervals it accepts. */
  method CloseSequence(buf: array<Record>, base: nat, neqs: nat, lo0: nat, hi0: int) returns (num: nat)
    requires base + neqs < buf.Length && hi0 <= MAX_VALUE
    modifies buf
    ensures base <= num <= base + neqs + 1
    ensures forall k :: 0 <= k < base ==> buf[k] == old(buf[k])
    ensures Proper(buf, base, num)
    ensures forall v: nat ::
      Covered(buf, base, num, v) <==> Left(Values(old(buf[base..base + neqs])), neqs, lo0, hi0, v)
  {
    var lo, hi := lo0, hi0;
    num := base;
    ghost var s := buf[base..base + neqs];
    if neqs > 0 {
      num, lo, hi := FlushNeqs(buf, base, neqs, lo, hi);
    }
    forall v: nat
      ensures Left(Values(s), neqs, lo0, hi0, v) <==> Covered(buf, base, num, v) || lo <= v <= hi
    {
      assert neqs == 0 ==> !Covered(buf, base, num, v);
    }
    if lo <= hi {
      label L:
      ghost var num0 := num;
      buf[num] := (lo, hi);
      num := num + 1;
      assert forall v: nat :: Covered(buf, base, num, v) <==> old@L(Covered(buf, base, num0, v)) || lo <= v <= hi by {
        assert forall v: nat :: In(buf[num0], v) <==> lo <= v <= hi;
        assert forall k :: base <= k < num0 ==> buf[k] == old@L(buf[k]);
      }
    }
  }

  // ---- All sequences ----

  /** v satisfies the operators of the current sequence: it lies in [lo, hi] and
      is not among the values waiting behind the num written records. */
  ghost predicate Accepted(buf: array<Record>, num: nat, neqs: nat, lo: int, hi: int, v: nat)
    requires num + neqs <= buf.Length
    reads buf
  {
    Left(Values(buf[num..num + neqs]), neqs, lo, hi, v)
  }

  /** Restrict the current sequence by one operator. */
  method TakeOp(buf: array<Record>, num: nat, neqs0: nat, lo0: nat, hi0: int, op: bv8, val: nat)
    returns (neqs: nat, lo: nat, hi: int)
    requires num + neqs0 + (if IsNeq(op) then 1 else 0) <= buf.Length && hi0 <= MAX_VALUE
    modifies buf
    ensures neqs == neqs0 + if IsNeq(op) then 1 else 0
    ensures hi <= MAX_VALUE
    ensures forall k :: 0 <= k < num ==> buf[k] == old(buf[k])
    ensures forall v: nat | v <= MAX_VALUE ::
      Accepted(buf, num, neqs, lo, hi, v) <==> old(Accepted(buf, num, neqs0, lo0, hi0, v)) && Compare(op, val, v)
  {
    var nlo, nhi := LowEnd(op, val), HighEnd(op, val);
    lo := if lo0 > nlo then lo0 else nlo;
    hi := if hi0 < nhi then hi0 else nhi;
    ghost var s := Values(buf[num..num + neqs0]);
    neqs := KeepNeq(buf, num, neqs0, op, val);
    LeftTakenAll(s, Values(buf[num..num + neqs]), lo0, hi0, lo, hi, op, val);
  }

  /** The operand of a not-equal operator waits behind those before it. */
  method KeepNeq(buf: array<Record>, num: nat, neqs0: nat, op: bv8, val: nat) returns (neqs: nat)
    requires num + neqs0 + (if IsNeq(op) then 1 else 0) <= buf.Length
    modifies buf
    ensures neqs == neqs0 + if IsNeq(op) then 1 else 0
    ensures forall k :: 0 <= k < num ==> buf[k] == old(buf[k])
    ensures Values(buf[num..num + neqs]) == old(Values(buf[num..num + neqs0])) + if IsNeq(op) then [val] else []
  {
    neqs := neqs0;
    if IsNeq(op) {
      buf[num + neqs] := (val, 0);
      neqs := neqs + 1;
    }
  }

  lemma LeftTakenAll(s: seq<nat>, t: seq<nat>, lo0: int, hi0: int, lo: int, hi: int, op: bv8, val: nat)
    requires t == s + if IsNeq(op) then [val] else []
    requires lo == (if lo0 > LowEnd(op, val) then lo0 else LowEnd(op, val))
    requires hi == (if hi0 < HighEnd(op, val) then hi0 else HighEnd(op, val))
    ensures forall v: nat | v <= MAX_VALUE ::
      Left(t, |t|, lo, hi, v) <==> Left(s, |s|, lo0, hi0, v) && Compare(op, val, v)
  {
    forall v: nat | v <= MAX_VALUE
      ensures Left(t, |t|, lo, hi, v) <==> Left(s, |s|, lo0, hi0, v) && Compare(op, val, v)
    {
      LeftTaken(s, t, lo0, hi0, lo, hi, op, val, v);
    }
  }

  /** One operator more. */
  lemma LeftTaken(s: seq<nat>, t: seq<nat>, lo0: int, hi0: int, lo: int, hi: int, op: bv8, val: nat, v: nat)
    requires v <= MAX_VALUE && t == if IsNeq(op) then s + [val] else s
    requires lo == (if lo0 > LowEnd(op, val) then lo0 else LowEnd(op, val))
    requires hi == (if hi0 < HighEnd(op, val) then hi0 else HighEnd(op, val))
    ensures Left(t, |t|, lo, hi, v) <==> Left(s, |s|, lo0, hi0, v) && Compare(op, val, v)
  {
    CompareIs(op, val, v);
    if IsNeq(op) {
      LeftMore(t, |s|, lo, hi, v);
      assert Left(t, |s|, lo, hi, v) <==> Left(s, |s|, lo, hi, v) by {
        assert forall k :: 0 <= k < |s| ==> t[k] == s[k];
      }
    }
  }

  /** The operator at pos goes on with a sequence begun before it. */
  predicate Inside(part: Bytes, pos: nat)
    requires pos < |part|
  {
    pos != 1 && AndBit(part[pos])
  }

  /** Written records and the rest of the list together accept what the list accepts. */
  ghost predicate Progress(part: Bytes, buf: array<Record>, pos: nat, num: nat, neqs: nat, lo: int, hi: int)
    requires ListAt(part, 1) && ListAt(part, pos) && num + neqs <= buf.Length
    reads buf
  {
    forall v: nat | v <= MAX_VALUE ::
      Sat(part, 1, true, v) <==> Covered(buf, 0, num, v) || Sat(part, pos, Accepted(buf, num, neqs, lo, hi, v), v)
  }

  /** Sat, once the operator at pos has been applied. */
  ghost predicate SatAfter(part: Bytes, pos: nat, acc: bool, v: nat)
    requires ListAt(part, pos)
  {
    if EndBit(part[pos]) then acc
    else if AndBit(part[NextOp(part, pos)]) then Sat(part, NextOp(part, pos), acc, v)
    else acc || Sat(part, NextOp(part, pos), true, v)
  }

  ghost predicate TakenOp(part: Bytes, buf: array<Record>, pos: nat, num: nat, neqs: nat, lo: int, hi: int)
    requires ListAt(part, 1) && ListAt(part, pos) && num + neqs <= buf.Length
    reads buf
  {
    forall v: nat | v <= MAX_VALUE ::
      Sat(part, 1, true, v) <==> Covered(buf, 0, num, v) || SatAfter(part, pos, Accepted(buf, num, neqs, lo, hi, v), v)
  }

  lemma CoveredSplit(buf: array<Record>, mid: nat, to: nat, v: nat)
    requires mid <= to <= buf.Length
    ensures Covered(buf, 0, to, v) <==> Covered(buf, 0, mid, v) || Covered(buf, mid, to, v)
  {
  }

  /** End of a sequence, seen from the whole buffer. */
  method AddSequence(buf: array<Record>, num0: nat, neqs: nat, lo: nat, hi: int) returns (num: nat)
    requires num0 + neqs < buf.Length && hi <= MAX_VALUE && Proper(buf, 0, num0)
    modifies buf
    ensures num0 <= num <= num0 + neqs + 1 && Proper(buf, 0, num)
    ensures forall v: nat ::
      Covered(buf, 0, num, v) <==> old(Covered(buf, 0, num0, v)) || old(Accepted(buf, num0, neqs, lo, hi, v))
  {
    num := CloseSequence(buf, num0, neqs, lo, hi);
    forall v: nat
      ensures Covered(buf, 0, num, v) <==> old(Covered(buf, 0, num0, v)) || old(Accepted(buf, num0, neqs, lo, hi, v))
    {
      CoveredSplit(buf, num0, num, v);
      assert Covered(buf, 0, num0, v) <==> old(Covered(buf, 0, num0, v)) by {
        assert forall k :: 0 <= k < num0 ==> buf[k] == old(buf[k]);
      }
    }
  }

  /** Step 1: every AND-sequence becomes a list of intervals. */
  method Collect(part: Bytes, buf: array<Record>) returns (num: nat)
    requires ListAt(part, 1) && Records(part, 1, true) <= buf.Length
    modifies buf
    ensures num <= buf.Length && Proper(buf, 0, num)
    ensures forall v: nat | v <= MAX_VALUE :: Covered(buf, 0, num, v) <==> Sat(part, 1, true, v)
  {
    var pos: nat, neqs: nat, lo: nat, hi: int := 1, 0, 0, MAX_VALUE;
    num := 0;
    while true
      invariant 1 <= pos && ListAt(part, pos) && hi <= MAX_VALUE
      invariant num + neqs + (if Inside(part, pos) then 1 else 0) + Records(part, pos, pos == 1) <= buf.Length
      invariant Proper(buf, 0, num)
      invariant Progress(part, buf, pos, num, neqs, lo, hi)
      decreases |part| - pos
    {
      label L:
      ghost var num0, neqs0, lo0, hi0 := num, neqs, lo, hi;
      var last, next := EndBit(part[pos]), NextOp(part, pos);
      neqs, lo, hi := TakeOp(buf, num, neqs, lo, hi, part[pos], OpValue(part, pos));
      assert TakenOp(part, buf, pos, num, neqs, lo, hi) by {
        forall v: nat | v <= MAX_VALUE
          ensures Sat(part, 1, true, v) <==>
            Covered(buf, 0, num, v) || SatAfter(part, pos, Accepted(buf, num, neqs, lo, hi, v), v)
        {
          assert Covered(buf, 0, num, v) <==> old@L(Covered(buf, 0, num, v)) by {
            assert forall k :: 0 <= k < num ==> buf[k] == old@L(buf[k]);
          }
          assert old@L(Progress(part, buf, pos, num, neqs0, lo0, hi0));
        }
      }
      if last || !AndBit(part[next]) {
        num := AddSequence(buf, num, neqs, lo, hi);
        neqs, lo, hi := 0, 0, MAX_VALUE;
        if !last {
          assert Progress(part, buf, next, num, neqs, lo, hi);
        }
      }
      if last {
        break;
      }
      pos := next;
    }
  }

  // ---- Sort and merge ----

  ghost predicate CoveredBy(s: seq<Record>, n: nat, v: nat)
    requires n <= |s|
  {
    exists i :: 0 <= i < n && In(s[i], v)
  }

  lemma CoveredSorted(s: seq<Record>, t: seq<Record>, v: nat)
    requires multiset(s) == multiset(t)
    ensures CoveredBy(s, |s|, v) <==> CoveredBy(t, |t|, v)
  {
    if i :| 0 <= i < |s| && In(s[i], v) {
      SameMembers(s, t, i);
    }
    if j :| 0 <= j < |t| && In(t[j], v) {
      SameMembers(t, s, j);
    }
  }

  lemma CoveredMore(s: seq<Record>, n: nat, v: nat)
    requires n < |s|
    ensures CoveredBy(s, n + 1, v) <==> CoveredBy(s, n, v) || In(s[n], v)
  {
  }

  /** Increasing, disjoint and with a gap between neighbours. */
  ghost predicate Separated(buf: array<Record>, n: nat)
    requires n <= buf.Length
    reads buf
  {
    forall i, j :: 0 <= i < j < n ==> buf[i].1 + 1 < buf[j].0
  }

  /** Swallow the records that meet or touch the one at i0. */
  method MergeRun(buf: array<Record>, num: nat, i0: nat, ghost s: seq<Record>) returns (i: nat, hi: nat)
    requires i0 < num <= buf.Length && |s| == num && Sorted(s)
    requires forall k :: i0 <= k < num ==> buf[k] == s[k] && s[k].0 <= s[k].1 <= MAX_VALUE
    ensures i0 < i <= num && s[i0].0 <= hi <= MAX_VALUE
    ensures i < num ==> hi + 1 < s[i].0
    ensures forall v: nat :: CoveredBy(s, i, v) <==> CoveredBy(s, i0, v) || s[i0].0 <= v <= hi
  {
    hi := buf[i0].1;
    i := i0 + 1;
    forall v: nat ensures CoveredBy(s, i, v) <==> CoveredBy(s, i0, v) || In(s[i0], v) { CoveredMore(s, i0, v); }
    while i < num && buf[i].0 <= hi + 1
      invariant i0 < i <= num && s[i0].0 <= hi <= MAX_VALUE
      invariant forall v: nat :: CoveredBy(s, i, v) <==> CoveredBy(s, i0, v) || s[i0].0 <= v <= hi
    {
      forall v: nat ensures CoveredBy(s, i + 1, v) <==> CoveredBy(s, i, v) || In(s[i], v) { CoveredMore(s, i, v); }
      assert s[i0].0 <= s[i].0;
      hi := if buf[i].1 > hi then buf[i].1 else hi;
      i := i + 1;
    }
  }

  /** Append a record. */
  method Put(buf: array<Record>, j: nat, lo: nat, hi: nat)
    requires j < buf.Length && lo <= hi <= MAX_VALUE && Proper(buf, 0, j) && Separated(buf, j)
    requires forall k :: 0 <= k < j ==> buf[k].1 + 1 < lo
    modifies buf
    ensures forall k :: 0 <= k < buf.Length && k != j ==> buf[k] == old(buf[k])
    ensures buf[j] == (lo, hi)
    ensures Proper(buf, 0, j + 1) && Separated(buf, j + 1)
    ensures forall v: nat :: Covered(buf, 0, j + 1, v) <==> old(Covered(buf, 0, j, v)) || lo <= v <= hi
  {
    buf[j] := (lo, hi);
    forall v: nat
      ensures Covered(buf, 0, j + 1, v) <==> old(Covered(buf, 0, j, v)) || lo <= v <= hi
    {
      assert In(buf[j], v) <==> lo <= v <= hi;
      assert forall k :: 0 <= k < j ==> buf[k] == old(buf[k]);
    }
  }

  /** One pass over sorted records, writing each merged interval back in place. */
  method Merge(buf: array<Record>, num: nat, ghost s: seq<Record>) returns (j: nat)
    requires num <= buf.Length && s == buf[..num] && Sorted(s)
    requires forall k :: 0 <= k < num ==> s[k].0 <= s[k].1 <= MAX_VALUE
    modifies buf
    ensures j <= num && Proper(buf, 0, j) && Separated(buf, j)
    ensures forall v: nat :: Covered(buf, 0, j, v) <==> CoveredBy(s, num, v)
  {
    var i := 0;
    j := 0;
    while i < num
      invariant j <= i <= num
      invariant forall k :: i <= k < num ==> buf[k] == s[k]
      invariant Proper(buf, 0, j) && Separated(buf, j)
      invariant i < num ==> forall k :: 0 <= k < j ==> buf[k].1 + 1 < s[i].0
      invariant forall v: nat :: Covered(buf, 0, j, v) <==> CoveredBy(s, i, v)
    {
      var lo := buf[i].0;
      ghost var i0 := i;
      var hi;
      i, hi := MergeRun(buf, num, i, s);
      Put(buf, j, lo, hi);
      j := j + 1;
      assert i < num ==> s[i0].0 <= s[i].0;
    }
  }

  /** flow_explicate_part: the records hold exactly the accepted values, as
      increasing intervals that neither overlap nor touch. */
  method ExplicatePart(part: Bytes, buf: array<Record>) returns (n: nat)
    requires ListAt(part, 1) && Records(part, 1, true) <= buf.Length
    modifies buf
    ensures n <= buf.Length && Proper(buf, 0, n) && Separated(buf, n)
    ensures forall v: nat | v <= MAX_VALUE :: Covered(buf, 0, n, v) <==> SomeHolds(Sequences(part, 1), v)
  {
    forall v: nat ensures Sat(part, 1, true, v) <==> SomeHolds(Sequences(part, 1), v) {
      SatIsSomeSequence(part, 1, v);
    }
    var num := Collect(part, buf);
    if num < 2 {
      return num;
    }
    ghost var s := buf[0..num];
    assert forall v: nat | v <= MAX_VALUE :: CoveredBy(s, num, v) <==> Sat(part, 1, true, v) by {
      assert forall v: nat :: CoveredBy(s, num, v) <==> Covered(buf, 0, num, v);
    }
    SortRange(buf, 0, num);
    ghost var t := buf[..num];
    assert t == buf[0..num];
    forall k | 0 <= k < num ensures t[k].0 <= t[k].1 <= MAX_VALUE {
      SameMembers(t, s, k);
    }
    forall v: nat ensures CoveredBy(s, num, v) <==> CoveredBy(t, num, v) {
      CoveredSorted(s, t, v);
    }
    n := Merge(buf, num, t);
  }

  // ---- The result is determined ----

  /** Proper and separated records. */
  ghost predicate Canonical(s: seq<Record>) {
    && (forall k :: 0 <= k < |s| ==> s[k].0 <= s[k].1 <= MAX_VALUE)
    && (forall i, j :: 0 <= i < j < |s| ==> s[i].1 + 1 < s[j].0)
  }

  ghost predicate Has(s: seq<Record>, v: nat) { exists i :: 0 <= i < |s| && In(s[i], v) }

  /** The first record ends no later in s than in t. */
  lemma FirstEnds(s: seq<Record>, t: seq<Record>)
    requires Canonical(s) && Canonical(t) && s != [] && t != [] && s[0].0 == t[0].0
    requires forall v: nat :: Has(s, v) ==> Has(t, v)
    ensures s[0].1 <= t[0].1
  {
    GapBehind(t);
    InFirst(s, t[0].1 + 1);
  }

  lemma InFirst(s: seq<Record>, v: nat)
    ensures s != [] && In(s[0], v) ==> Has(s, v)
  {
  }

  lemma GapBehind(s: seq<Record>)
    requires Canonical(s) && s != []
    ensures !Has(s, s[0].1 + 1)
  {
    forall i | 0 <= i < |s| ensures !In(s[i], s[0].1 + 1) {
    }
  }

  lemma FirstBegins(s: seq<Record>, t: seq<Record>)
    requires Canonical(s) && Canonical(t) && s != []
    requires forall v: nat :: Has(s, v) ==> Has(t, v)
    ensures t != [] && t[0].0 <= s[0].0
  {
    assert In(s[0], s[0].0);
    assert Has(t, s[0].0);
    var i :| 0 <= i < |t| && In(t[i], s[0].0);
  }

  lemma HasRest(s: seq<Record>, v: nat)
    requires Canonical(s) && s != []
    ensures Has(s[1..], v) <==> Has(s, v) && s[0].1 < v
  {
    if Has(s[1..], v) {
      var i :| 0 <= i < |s| - 1 && In(s[1..][i], v);
      assert In(s[i + 1], v);
    }
    if Has(s, v) && s[0].1 < v {
      var i :| 0 <= i < |s| && In(s[i], v);
      assert In(s[1..][i - 1], v);
    }
  }

  /** There is one canonical list of records for a set of values. */
  lemma {:induction false} OneCanonical(s: seq<Record>, t: seq<Record>)
    requires Canonical(s) && Canonical(t) && forall v: nat :: Has(s, v) <==> Has(t, v)
    ensures s == t
    decreases |s|
  {
    if s != [] {
      FirstBegins(s, t);
      FirstBegins(t, s);
      FirstEnds(s, t);
      FirstEnds(t, s);
      forall v: nat ensures Has(s[1..], v) <==> Has(t[1..], v) {
        HasRest(s, v);
        HasRest(t, v);
      }
      OneCanonical(s[1..], t[1..]);
      assert s == [s[0]] + s[1..] && t == [t[0]] + t[1..];
    } else if t != [] {
      FirstBegins(t, s);
    }
  }

  /** The records for one operator (its last three bits as a number) and its operand. */
  function OneOp(op: nat, val: nat): seq<Record>
    requires op < 8
  {
    match op
    case 0 => []
    case 1 => [(val, val)]
    case 2 => if val < MAX_VALUE then [(val + 1, MAX_VALUE)] else []
    case 3 => [(val, MAX_VALUE)]
    case 4 => if val > 0 then [(0, val - 1)] else []
    case 5 => [(0, val)]
    case 6 => (if val > 0 then [(0, val - 1)] else []) + (if val < MAX_VALUE then [(val + 1, MAX_VALUE)] else [])
    case _ => [(0, MAX_VALUE)]
  }

  lemma OneOpIs(op: bv8, val: nat, v: nat)
    requires val <= MAX_VALUE
    ensures Canonical(OneOp(Num(op) % 8, val))
    ensures Has(OneOp(Num(op) % 8, val), v) <==> v <= MAX_VALUE && Compare(op, val, v)
  {
    var s := OneOp(Num(op) % 8, val);
    if v <= MAX_VALUE && Compare(op, val, v) {
      assert In(s[0], v) || In(s[1], v);
    }
  }

  /** A part with one operator: the records for the comparison it stands for. */
  method ExplicateOne(part: Bytes, buf: array<Record>) returns (n: nat)
    requires |part| >= 3 && Num(part[1]) >= 0x80 && |part| == 2 + [1, 2, 4, 8][Num(part[1]) / 0x10 % 4]
    requires buf.Length >= 2
    modifies buf
    ensures n <= buf.Length
    ensures buf[..n] == OneOp(Num(part[1]) % 8, if |part| < 10 then BigEndian(part[2..]) else 0)
  {
    EndIs(part[1]);
    LengthIs(part[1]);
    var len := ValueLength(part[1]);
    GetValueIs(part, 2, len);
    assert part[2..2 + len] == part[2..];
    n := ExplicatePart(part, buf);
    ghost var s := buf[..n];
    forall v: nat ensures Has(s, v) <==> Has(OneOp(Num(part[1]) % 8, OpValue(part, 1)), v) {
      OneOpIs(part[1], OpValue(part, 1), v);
      OneSequence(part, v);
      assert Has(s, v) <==> Covered(buf, 0, n, v);
    }
    OneOpIs(part[1], OpValue(part, 1), 0);
    OneCanonical(s, OneOp(Num(part[1]) % 8, OpValue(part, 1)));
  }

  lemma OneSequence(part: Bytes, v: nat)
    requires ListAt(part, 1) && EndBit(part[1])
    ensures SomeHolds(Sequences(part, 1), v) <==> Compare(part[1], OpValue(part, 1), v)
  {
    var op := (part[1], OpValue(part, 1));
    assert Sequences(part, 1) == [[op]];
    SatIsSomeSequence(part, 1, v);
  }
}
