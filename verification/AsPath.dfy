/** AS_PATH attributes (nest/a-path.c): segments of AS numbers in wire format,
    and the operations that measure, cut, join, extend and convert them.
 */
module AsPath {
  import opened PathMatch
  import opened PathExpand

  type Byte = n: int | 0 <= n < 256

  type Bytes = seq<Byte>

  const MAX_ASN := 0xffffffff
  const AS_TRANS := 23456

  /** AS_PATH_* */
  const SET: Byte := 1
  const SEQUENCE: Byte := 2
  const CONFED_SEQUENCE: Byte := 3
  const CONFED_SET: Byte := 4

  datatype Segment = Segment(kind: Byte, asns: seq<nat>)

  predicate WfSegment(s: Segment) {
    1 <= s.kind <= 4 && |s.asns| <= 255 && forall k :: 0 <= k < |s.asns| ==> s.asns[k] <= MAX_ASN
  }

  predicate WfPath(p: seq<Segment>) { forall k :: 0 <= k < |p| ==> WfSegment(p[k]) }

  /** A path without segments of length 0, as as_path_valid demands. */
  predicate NoneEmpty(p: seq<Segment>) { forall k :: 0 <= k < |p| ==> p[k].asns != [] }

  // ---- Wire format ----

  function Put16(a: nat): (r: Bytes)
    ensures |r| == 2
  {
    [(a / 0x100) % 0x100, a % 0x100]
  }

  function Put32(a: nat): (r: Bytes)
    ensures |r| == 4
  {
    [(a / 0x1000000) % 0x100, (a / 0x10000) % 0x100, (a / 0x100) % 0x100, a % 0x100]
  }

  function Get16(b: Bytes, pos: nat): nat
    requires pos + 2 <= |b|
  {
    b[pos] as int * 0x100 + b[pos + 1] as int
  }

  function Get32(b: Bytes, pos: nat): nat
    requires pos + 4 <= |b|
  {
    b[pos] as int * 0x1000000 + b[pos + 1] as int * 0x10000 + b[pos + 2] as int * 0x100 + b[pos + 3] as int
  }

  /** Bytes read as a number in network order. */
  ghost function BigEndian(b: Bytes): nat {
    if b == [] then 0 else BigEndian(b[..|b| - 1]) * 0x100 + b[|b| - 1] as int
  }

  lemma Get16Is(b: Bytes, pos: nat)
    requires pos + 2 <= |b|
    ensures Get16(b, pos) == BigEndian(b[pos..pos + 2])
  {
    var v := b[pos..pos + 2];
    assert v[..1][..0] == [] && BigEndian(v[..1]) == v[0];
  }

  lemma Get32Is(b: Bytes, pos: nat)
    requires pos + 4 <= |b|
    ensures Get32(b, pos) == BigEndian(b[pos..pos + 4])
  {
    var v := b[pos..pos + 4];
    assert v[..3][..2] == v[..2] && v[..2][..1] == v[..1] && v[..1][..0] == [];
    assert BigEndian(v[..1]) == v[0];
    assert BigEndian(v[..2]) == BigEndian(v[..1]) * 0x100 + v[1] as int;
    assert BigEndian(v[..3]) == BigEndian(v[..2]) * 0x100 + v[2] as int;
  }

  /** AS numbers are written in network order. */
  lemma NetworkOrder(a: nat, wide: bool)
    requires a <= if wide then MAX_ASN else 0xffff
    ensures BigEndian(PutAsn(a, wide)) == a
  {
    var b := PutAsn(a, wide);
    if wide {
      GetPut32(a);
      Get32Is(b, 0);
      assert b[0..4] == b;
    } else {
      GetPut16(a);
      Get16Is(b, 0);
      assert b[0..2] == b;
    }
  }

  lemma GetPut32(a: nat)
    requires a <= MAX_ASN
    ensures Get32(Put32(a), 0) == a
  {
    var x, y, z := a / 0x100, a / 0x10000, a / 0x1000000;
    assert y == x / 0x100 && z == y / 0x100;
    assert a == x * 0x100 + a % 0x100 && x == y * 0x100 + x % 0x100 && y == z * 0x100 + y % 0x100;
    assert z % 0x100 == z;
  }

  lemma GetPut16(a: nat)
    requires a <= 0xffff
    ensures Get16(Put16(a), 0) == a
  {
  }

  /** AS numbers in 2 or 4 bytes. */
  function PutAsn(a: nat, wide: bool): (r: Bytes)
    ensures |r| == if wide then 4 else 2
  {
    if wide then Put32(a) else Put16(a)
  }

  function EncodeAsns(asns: seq<nat>, wide: bool): Bytes {
    if asns == [] then [] else PutAsn(asns[0], wide) + EncodeAsns(asns[1..], wide)
  }

  function EncodeSegment(s: Segment, wide: bool): Bytes
    requires WfSegment(s)
  {
    [s.kind, |s.asns|] + EncodeAsns(s.asns, wide)
  }

  function Encode(p: seq<Segment>, wide: bool): Bytes
    requires WfPath(p)
  {
    if p == [] then [] else EncodeSegment(p[0], wide) + Encode(p[1..], wide)
  }

  /** Bytes of an AS number. */
  function Width(wide: bool): nat { if wide then 4 else 2 }

  /** Bytes taken by n AS numbers. */
  function Span(wide: bool, n: nat): nat { if wide then 4 * n else 2 * n }

  lemma {:induction false} AsnsLength(asns: seq<nat>, wide: bool)
    ensures |EncodeAsns(asns, wide)| == Span(wide, |asns|)
  {
    if asns != [] {
      AsnsLength(asns[1..], wide);
    }
  }

  // ---- Meaning of the operations ----

  /** What a segment counts in the path metric (section 9.1.2.2 of RFC 4271). */
  function Metric(s: Segment): nat {
    if s.kind == SET then 1 else if s.kind == SEQUENCE then |s.asns| else 0
  }

  function Len(p: seq<Segment>): nat {
    if p == [] then 0 else Metric(p[0]) + Len(p[1..])
  }

  /** All AS numbers in order. */
  function Walked(p: seq<Segment>): seq<nat> {
    if p == [] then [] else p[0].asns + Walked(p[1..])
  }

  /** The segments of one kind. */
  ghost function Only(p: seq<Segment>, kind: Byte): seq<Segment> {
    if p == [] then [] else (if p[0].kind == kind then [p[0]] else []) + Only(p[1..], kind)
  }

  /** A set counts one, a sequence as many as it has AS numbers, confederation segments nothing. */
  lemma {:induction false} LenIs(p: seq<Segment>)
    ensures Len(p) == |Only(p, 1)| + |Walked(Only(p, 2))|
  {
    if p != [] {
      var rest := Only(p[1..], 2);
      LenIs(p[1..]);
      if p[0].kind == 2 {
        assert Only(p, 2)[1..] == rest;
      } else {
        assert Only(p, 2) == rest;
      }
    }
  }

  function CutPath(p: seq<Segment>, num: nat): seq<Segment> {
    if p == [] then []
    else if num < Metric(p[0]) then
      (if num == 0 then [] else [Segment(p[0].kind, p[0].asns[..num])])
    else [p[0]] + CutPath(p[1..], num - Metric(p[0]))
  }

  function PrependPath(p: seq<Segment>, kind: Byte, asn: nat): seq<Segment> {
    if p != [] && p[0].kind == kind && |p[0].asns| < 255 then [Segment(kind, [asn] + p[0].asns)] + p[1..]
    else [Segment(kind, [asn])] + p
  }

  function OldAsns(asns: seq<nat>): (r: seq<nat>)
    ensures |r| == |asns| && forall k :: 0 <= k < |r| ==> r[k] == if asns[k] > 0xffff then AS_TRANS else asns[k]
  {
    seq(|asns|, k requires 0 <= k < |asns| => if asns[k] > 0xffff then AS_TRANS else asns[k])
  }

  function OldPath(p: seq<Segment>): (r: seq<Segment>)
    ensures |r| == |p| && forall k :: 0 <= k < |r| ==> r[k] == Segment(p[k].kind, OldAsns(p[k].asns))
  {
    seq(|p|, k requires 0 <= k < |p| => Segment(p[k].kind, OldAsns(p[k].asns)))
  }

  // ---- Laws ----

  function Min(a: nat, b: nat): nat { if a < b then a else b }

  /** A path cut to num has length num, unless it was shorter. */
  lemma {:induction false} CutLen(p: seq<Segment>, num: nat)
    ensures Len(CutPath(p, num)) == Min(Len(p), num)
    decreases |p|
  {
    if p != [] {
      if num < Metric(p[0]) {
        if num > 0 {
          var s := Segment(p[0].kind, p[0].asns[..num]);
          assert CutPath(p, num) == [s] && [s][1..] == [];
        }
      } else {
        CutLen(p[1..], num - Metric(p[0]));
        assert ([p[0]] + CutPath(p[1..], num - Metric(p[0])))[1..] == CutPath(p[1..], num - Metric(p[0]));
      }
    }
  }

  /** It keeps the first AS numbers. */
  lemma {:induction false} CutWalked(p: seq<Segment>, num: nat)
    ensures Walked(CutPath(p, num)) <= Walked(p)
    decreases |p|
  {
    if p != [] {
      if num < Metric(p[0]) {
        if num > 0 {
          var s := Segment(p[0].kind, p[0].asns[..num]);
          assert CutPath(p, num) == [s] && [s][1..] == [];
          assert Walked([s]) == s.asns;
        }
      } else {
        var rest := CutPath(p[1..], num - Metric(p[0]));
        CutWalked(p[1..], num - Metric(p[0]));
        assert ([p[0]] + rest)[1..] == rest;
        assert Walked(CutPath(p, num)) == p[0].asns + Walked(rest);
      }
    }
  }

  /** Cutting leaves no empty segment behind. */
  lemma {:induction false} CutNoneEmpty(p: seq<Segment>, num: nat)
    requires NoneEmpty(p)
    ensures NoneEmpty(CutPath(p, num))
    decreases |p|
  {
    if p != [] {
      assert p[0].asns != [];
      if num >= Metric(p[0]) {
        CutNoneEmpty(p[1..], num - Metric(p[0]));
      }
    }
  }

  /** Cutting keeps every segment up to the metric, those of confederations on the edge included. */
  lemma {:induction false} CutKeeps(a: seq<Segment>, b: seq<Segment>, num: nat)
    requires Len(a) <= num
    ensures a <= CutPath(a + b, num)
    decreases |a|
  {
    if a != [] {
      CutKeeps(a[1..], b, num - Metric(a[0]));
      assert (a + b)[1..] == a[1..] + b;
      assert a == [a[0]] + a[1..];
    }
  }

  lemma CutWf(p: seq<Segment>, num: nat)
    requires WfPath(p)
    ensures WfPath(CutPath(p, num))
    decreases |p|
  {
    if p != [] && num >= Metric(p[0]) {
      CutWf(p[1..], num - Metric(p[0]));
    }
  }

  /** Joining adds lengths and walks one after the other. */
  lemma {:induction false} MergeLen(p: seq<Segment>, q: seq<Segment>)
    ensures Len(p + q) == Len(p) + Len(q) && Walked(p + q) == Walked(p) + Walked(q)
    decreases |p|
  {
    if p == [] {
      assert p + q == q;
    } else {
      MergeLen(p[1..], q);
      assert (p + q)[1..] == p[1..] + q;
    }
  }

  /** Prepending puts one AS number in front, which counts one in a sequence. */
  lemma PrependLen(p: seq<Segment>, kind: Byte, asn: nat)
    ensures Walked(PrependPath(p, kind, asn)) == [asn] + Walked(p)
    ensures kind == SEQUENCE ==> Len(PrependPath(p, kind, asn)) == Len(p) + 1
    ensures kind == CONFED_SEQUENCE ==> Len(PrependPath(p, kind, asn)) == Len(p)
  {
    var r := PrependPath(p, kind, asn);
    assert r[1..] == if p != [] && p[0].kind == kind && |p[0].asns| < 255 then p[1..] else p;
  }

  // ---- Walking over segments ----

  /** The bytes from pos on encode the segments p. */
  ghost predicate At(data: Bytes, pos: nat, p: seq<Segment>, wide: bool) {
    WfPath(p) && pos <= |data| && data[pos..] == Encode(p, wide)
  }

  /** Bytes at a position of data. */
  ghost predicate Holds(data: Bytes, pos: nat, b: Bytes) {
    pos + |b| <= |data| && data[pos..pos + |b|] == b
  }

  lemma SplitBytes(data: Bytes, pos: nat, a: Bytes, b: Bytes)
    requires pos <= |data| && data[pos..] == a + b
    ensures Holds(data, pos, a) && data[pos + |a|..] == b
  {
    var s := data[pos..];
    assert s[..|a|] == a && s[|a|..] == b;
    assert s[..|a|] == data[pos..pos + |a|] && s[|a|..] == data[pos + |a|..];
  }

  lemma AtSegment(data: Bytes, pos: nat, p: seq<Segment>, wide: bool)
    requires At(data, pos, p, wide)
    ensures pos < |data| <==> p != []
    ensures p != [] ==> var next := pos + 2 + Span(wide, |p[0].asns|);
      pos + 2 <= next <= |data| && data[pos] == p[0].kind && data[pos + 1] == |p[0].asns| &&
      data[pos + 2..next] == EncodeAsns(p[0].asns, wide) && At(data, next, p[1..], wide)
  {
    if p != [] {
      var e := EncodeAsns(p[0].asns, wide);
      AsnsLength(p[0].asns, wide);
      var head: Bytes := [p[0].kind, |p[0].asns|];
      assert Encode(p, wide) == (head + e) + Encode(p[1..], wide);
      SplitBytes(data, pos, head + e, Encode(p[1..], wide));
      var next := pos + 2 + Span(wide, |p[0].asns|);
      assert data[pos..next] == head + e;
      assert data[pos] == (head + e)[0] && data[pos + 1] == (head + e)[1];
      assert data[pos + 2..next] == data[pos..next][2..];
    }
  }

  lemma AtEnd(data: Bytes, pos: nat, q: seq<Segment>)
    requires At(data, pos, q, true)
    ensures pos < |data| <==> q != []
  {
    AtSegment(data, pos, q, true);
  }

  lemma AtNext(data: Bytes, pos: nat, q: seq<Segment>, next: nat)
    requires At(data, pos, q, true) && q != [] && next == pos + 2 + 4 * |q[0].asns|
    ensures pos + 2 <= next <= |data| && data[pos] == q[0].kind && data[pos + 1] == |q[0].asns|
    ensures data[pos..next] == EncodeSegment(q[0], true) && At(data, next, q[1..], true)
  {
    AtSegment(data, pos, q, true);
    assert data[pos..next] == [data[pos], data[pos + 1]] + data[pos + 2..next];
  }

  lemma Regroup(a: Bytes, b: Bytes, c: Bytes)
    ensures a + (b + c) == (a + b) + c
  {
  }

  /** as_path_getlen */
  method GetLen(data: Bytes, ghost p: seq<Segment>) returns (res: nat)
    requires At(data, 0, p, true)
    ensures res == Len(p) == |Only(p, 1)| + |Walked(Only(p, 2))|
  {
    LenIs(p);
    var pos: nat := 0;
    res := 0;
    ghost var q := p;
    AtSegment(data, 0, p, true);
    while pos < |data|
      invariant At(data, pos, q, true) && (pos < |data| <==> q != []) && res + Len(q) == Len(p)
      decreases |q|
    {
      AtSegment(data, pos, q, true);
      var t, l := data[pos], data[pos + 1];
      var n := 0;
      if t == SET {
        n := 1;
      } else if t == SEQUENCE {
        n := l as int;
      }
      res := res + n;
      pos := pos + 2 + 4 * l as int;
      q := q[1..];
      AtSegment(data, pos, q, true);
    }
  }

  lemma {:induction false} AsnsPrefix(asns: seq<nat>, n: nat, wide: bool)
    requires n <= |asns|
    ensures Span(wide, n) <= |EncodeAsns(asns, wide)|
    ensures EncodeAsns(asns[..n], wide) == EncodeAsns(asns, wide)[..Span(wide, n)]
    decreases n
  {
    AsnsLength(asns, wide);
    if n > 0 {
      AsnsPrefix(asns[1..], n - 1, wide);
      assert asns[..n][1..] == asns[1..][..n - 1];
    }
  }

  /** The first num AS numbers of the segment at pos, as the rest of the path. */
  lemma CutSegment(data: Bytes, pos: nat, q: seq<Segment>, num: nat)
    requires At(data, pos, q, true) && q != [] && 0 < num < Metric(q[0])
    ensures pos + 2 + 4 * num <= |data| && num < 256 && WfPath(CutPath(q, num))
    ensures Encode(CutPath(q, num), true) == data[pos..pos + 2 + 4 * num][1 := num]
  {
    AtSegment(data, pos, q, true);
    AsnsPrefix(q[0].asns, num, true);
    var s := Segment(q[0].kind, q[0].asns[..num]);
    var nend, next := pos + 2 + 4 * num, pos + 2 + 4 * |q[0].asns|;
    assert data[pos + 2..nend] == data[pos + 2..next][..4 * num];
    assert CutPath(q, num) == [s];
    OneSegment(s);
    PatchHeader(data, pos, nend, num);
  }

  lemma OneSegment(s: Segment)
    requires WfSegment(s)
    ensures WfPath([s]) && Encode([s], true) == EncodeSegment(s, true)
  {
    assert [s][1..] == [];
    assert Encode([s], true) == EncodeSegment(s, true) + Encode([], true);
  }

  lemma PatchHeader(data: Bytes, pos: nat, end: nat, num: Byte)
    requires pos + 2 <= end <= |data|
    ensures data[pos..end][1 := num] == [data[pos], num] + data[pos + 2..end]
  {
  }

  /** The metric of a segment with the given header. */
  function HeaderMetric(t: Byte, l: Byte): nat {
    if t == SET then 1 else if t == SEQUENCE then l else 0
  }

  /** Before pos the whole path is kept, from there it is cut to num. */
  ghost predicate Cutting(data: Bytes, pos: nat, q: seq<Segment>, num: nat, goal: Bytes) {
    At(data, pos, q, true) && (pos < |data| <==> q != []) && WfPath(CutPath(q, num)) &&
    data[..pos] + Encode(CutPath(q, num), true) == goal
  }

  /** Finish with a part of the segment at pos. */
  method CutPartly(data: Bytes, pos: nat, num: nat, ghost q: seq<Segment>, ghost goal: Bytes) returns (res: Bytes)
    requires Cutting(data, pos, q, num, goal) && q != [] && num < Metric(q[0])
    ensures res == goal
  {
    if num == 0 {
      assert data[..pos] + [] == data[..pos];
      return data[..pos];
    }
    CutSegment(data, pos, q, num);
    var nend := pos + 2 + 4 * num;
    res := data[..nend];
    res := res[pos + 1 := num];
    assert res == data[..pos] + data[pos..nend][1 := num];
  }

  /** as_path_cut */
  method Cut(data: Bytes, num0: nat, ghost p: seq<Segment>) returns (res: Bytes)
    requires At(data, 0, p, true)
    ensures WfPath(CutPath(p, num0)) && res == Encode(CutPath(p, num0), true)
    ensures NoneEmpty(p) ==> NoneEmpty(CutPath(p, num0))
  {
    ghost var goal := CutStart(data, num0, p);
    var pos: nat, num: nat := 0, num0;
    ghost var q := p;
    while pos < |data|
      invariant Cutting(data, pos, q, num, goal)
      decreases |q|
    {
      CutStep(data, pos, q);
      var n := HeaderMetric(data[pos], data[pos + 1]);
      if num < n {
        res := CutPartly(data, pos, num, q, goal);
        return;
      }
      CutWhole(data, pos, q, num, goal);
      num := num - n;
      pos := pos + 2 + 4 * data[pos + 1] as int;
      q := q[1..];
    }
    CutEnd(data, pos, q, num, goal);
    return data;
  }

  lemma CutStart(data: Bytes, num: nat, p: seq<Segment>) returns (goal: Bytes)
    requires At(data, 0, p, true)
    ensures WfPath(CutPath(p, num)) && goal == Encode(CutPath(p, num), true) && Cutting(data, 0, p, num, goal)
    ensures NoneEmpty(p) ==> NoneEmpty(CutPath(p, num))
  {
    if NoneEmpty(p) {
      CutNoneEmpty(p, num);
    }
    CutWf(p, num);
    goal := Encode(CutPath(p, num), true);
    AtEnd(data, 0, p);
    assert data[..0] + goal == goal;
  }

  lemma CutEnd(data: Bytes, pos: nat, q: seq<Segment>, num: nat, goal: Bytes)
    requires Cutting(data, pos, q, num, goal) && pos >= |data|
    ensures data == goal
  {
    assert data[..pos] + [] == data;
  }

  lemma CutStep(data: Bytes, pos: nat, q: seq<Segment>)
    requires At(data, pos, q, true) && q != []
    ensures pos + 1 < |data| && HeaderMetric(data[pos], data[pos + 1]) == Metric(q[0])
    ensures data[pos + 1] == |q[0].asns|
  {
    AtSegment(data, pos, q, true);
  }

  lemma CutWhole(data: Bytes, pos: nat, q: seq<Segment>, num: nat, goal: Bytes)
    requires Cutting(data, pos, q, num, goal) && q != [] && Metric(q[0]) <= num
    ensures Cutting(data, pos + 2 + 4 * |q[0].asns|, q[1..], num - Metric(q[0]), goal)
  {
    var next, rest := pos + 2 + 4 * |q[0].asns|, CutPath(q[1..], num - Metric(q[0]));
    AtNext(data, pos, q, next);
    AtEnd(data, next, q[1..]);
    CutWf(q[1..], num - Metric(q[0]));
    assert ([q[0]] + rest)[1..] == rest;
    assert data[..next] == data[..pos] + data[pos..next];
    Regroup(data[..pos], data[pos..next], Encode(rest, true));
  }

  // ---- Joining and extending ----

  lemma {:induction false} EncodeConcat(p: seq<Segment>, q: seq<Segment>, wide: bool)
    requires WfPath(p) && WfPath(q)
    ensures WfPath(p + q) && Encode(p + q, wide) == Encode(p, wide) + Encode(q, wide)
    decreases |p|
  {
    if p == [] {
      assert p + q == q;
    } else {
      EncodeConcat(p[1..], q, wide);
      assert (p + q)[1..] == p[1..] + q;
    }
  }

  /** as_path_merge */
  method Merge(d1: Bytes, d2: Bytes, ghost p: seq<Segment>, ghost q: seq<Segment>) returns (res: Bytes)
    requires WfPath(p) && WfPath(q) && d1 == Encode(p, true) && d2 == Encode(q, true)
    ensures WfPath(p + q) && res == Encode(p + q, true)
  {
    EncodeConcat(p, q, true);
    if |d1| == 0 {
      return d2;
    }
    if |d2| == 0 {
      return d1;
    }
    return d1 + d2;
  }

  lemma PrependNew(p: seq<Segment>, kind: Byte, asn: nat)
    requires WfPath(p) && 1 <= kind <= 4 && asn <= MAX_ASN
    ensures var r := [Segment(kind, [asn])] + p;
      WfPath(r) && Encode(r, true) == [kind, 1] + PutAsn(asn, true) + Encode(p, true)
  {
    var r := [Segment(kind, [asn])] + p;
    assert r[1..] == p && [asn][1..] == [];
    assert EncodeAsns([asn], true) == PutAsn(asn, true) + EncodeAsns([], true);
  }

  lemma PrependInto(p: seq<Segment>, kind: Byte, asn: nat)
    requires WfPath(p) && p != [] && p[0].kind == kind && |p[0].asns| < 255 && asn <= MAX_ASN
    ensures var r := [Segment(kind, [asn] + p[0].asns)] + p[1..];
      WfPath(r) &&
      Encode(r, true) ==
        [kind, |p[0].asns| + 1] + PutAsn(asn, true) + EncodeAsns(p[0].asns, true) + Encode(p[1..], true)
  {
    var s := Segment(kind, [asn] + p[0].asns);
    assert s.asns[1..] == p[0].asns;
    assert ([s] + p[1..])[1..] == p[1..];
  }

  /** as_path_prepend2 */
  method Prepend(data: Bytes, kind: Byte, asn: nat, ghost p: seq<Segment>) returns (res: Bytes)
    requires At(data, 0, p, true) && 1 <= kind <= 4 && asn <= MAX_ASN
    ensures WfPath(PrependPath(p, kind, asn)) && res == Encode(PrependPath(p, kind, asn), true)
  {
    AtSegment(data, 0, p, true);
    if |data| > 0 && data[0] == kind && data[1] < 255 {
      var l := data[1];
      var dlen := 4 * l as int;
      PrependInto(p, kind, asn);
      res := [kind, l + 1] + PutAsn(asn, true) + data[2..2 + dlen] + data[2 + dlen..];
    } else {
      PrependNew(p, kind, asn);
      assert data[0..] == data;
      res := [kind, 1] + PutAsn(asn, true) + data;
    }
  }

  // ---- 16-bit and 32-bit AS numbers ----

  function GetAsn(b: Bytes, pos: nat, wide: bool): nat
    requires pos + Width(wide) <= |b|
  {
    if wide then Get32(b, pos) else Get16(b, pos)
  }

  /** What can be read back: two bytes hold the low 16 bits only. */
  function Kept(a: nat, wide: bool): nat { if wide then a else a % 0x10000 }

  function KeptAsns(asns: seq<nat>, wide: bool): (r: seq<nat>)
    ensures |r| == |asns| && forall k :: 0 <= k < |r| ==> r[k] == Kept(asns[k], wide)
  {
    seq(|asns|, k requires 0 <= k < |asns| => Kept(asns[k], wide))
  }

  function KeptPath(p: seq<Segment>, wide: bool): (r: seq<Segment>)
    ensures |r| == |p| && forall k :: 0 <= k < |r| ==> r[k] == Segment(p[k].kind, KeptAsns(p[k].asns, wide))
  {
    seq(|p|, k requires 0 <= k < |p| => Segment(p[k].kind, KeptAsns(p[k].asns, wide)))
  }

  lemma GetPutAsn(b: Bytes, pos: nat, a: nat, wide: bool)
    requires a <= MAX_ASN && Holds(b, pos, PutAsn(a, wide))
    ensures GetAsn(b, pos, wide) == Kept(a, wide)
  {
    var s := b[pos..pos + Width(wide)];
    if wide {
      GetPut32(a);
      assert s[0] == b[pos] && s[1] == b[pos + 1] && s[2] == b[pos + 2] && s[3] == b[pos + 3];
    } else {
      PutLow(a);
      GetPut16(a % 0x10000);
      assert s[0] == b[pos] && s[1] == b[pos + 1];
    }
  }

  lemma PutLow(a: nat)
    ensures Put16(a) == Put16(a % 0x10000)
  {
    var q, r := a / 0x10000, a % 0x10000;
    assert a == 0x10000 * q + r;
    assert a / 0x100 == 0x100 * q + r / 0x100;
  }

  /** The AS numbers at pos. */
  ghost predicate AsnsAt(b: Bytes, pos: nat, asns: seq<nat>, wide: bool) {
    (forall k :: 0 <= k < |asns| ==> asns[k] <= MAX_ASN) && Holds(b, pos, EncodeAsns(asns, wide))
  }

  lemma HoldsBoth(b: Bytes, pos: nat, x: Bytes, y: Bytes)
    requires Holds(b, pos, x + y)
    ensures Holds(b, pos, x) && Holds(b, pos + |x|, y)
  {
    var e := b[pos..pos + |x + y|];
    assert b[pos..pos + |x|] == e[..|x|];
    assert b[pos + |x|..pos + |x| + |y|] == e[|x|..];
  }

  lemma AsnsNext(b: Bytes, pos: nat, asns: seq<nat>, wide: bool)
    requires AsnsAt(b, pos, asns, wide) && asns != []
    ensures pos + Width(wide) <= |b| && GetAsn(b, pos, wide) == Kept(asns[0], wide)
    ensures AsnsAt(b, pos + Width(wide), asns[1..], wide)
  {
    var e, x, rest := EncodeAsns(asns, wide), PutAsn(asns[0], wide), EncodeAsns(asns[1..], wide);
    assert e == x + rest;
    HoldsBoth(b, pos, x, rest);
    GetPutAsn(b, pos, asns[0], wide);
  }

  /** The inner loop of as_path_16to32 and as_path_32to16. */
  method ConvertAsns(src: Bytes, pos0: nat, n: nat, wide: bool, ghost asns: seq<nat>) returns (dst: Bytes)
    requires AsnsAt(src, pos0, asns, wide) && n == |asns|
    ensures dst == EncodeAsns(KeptAsns(asns, wide), !wide)
  {
    dst := [];
    var pos: nat := pos0;
    ghost var rest := asns;
    ghost var goal := EncodeAsns(KeptAsns(asns, wide), !wide);
    for i := 0 to n
      invariant AsnsAt(src, pos, rest, wide) && |rest| == n - i
      invariant dst + EncodeAsns(KeptAsns(rest, wide), !wide) == goal
    {
      AsnsNext(src, pos, rest, wide);
      assert KeptAsns(rest, wide)[1..] == KeptAsns(rest[1..], wide);
      dst := dst + PutAsn(GetAsn(src, pos, wide), !wide);
      pos := pos + Width(wide);
      rest := rest[1..];
    }
  }

  lemma KeptWf(p: seq<Segment>, wide: bool)
    requires WfPath(p)
    ensures WfPath(KeptPath(p, wide))
  {
  }

  lemma SegmentAsns(data: Bytes, pos: nat, q: seq<Segment>, wide: bool)
    requires At(data, pos, q, wide) && q != []
    ensures AsnsAt(data, pos + 2, q[0].asns, wide)
  {
    AtSegment(data, pos, q, wide);
    AsnsLength(q[0].asns, wide);
    assert WfSegment(q[0]);
  }

  /** dst is right so far, the segments q from pos on are left to convert. */
  ghost predicate Converting(src: Bytes, pos: nat, q: seq<Segment>, wide: bool, dst: Bytes, goal: Bytes) {
    At(src, pos, q, wide) && (pos < |src| <==> q != []) && WfPath(KeptPath(q, wide)) &&
    dst + Encode(KeptPath(q, wide), !wide) == goal
  }

  lemma ConvertStep(src: Bytes, pos: nat, q: seq<Segment>, wide: bool, dst: Bytes, goal: Bytes)
    requires Converting(src, pos, q, wide, dst, goal) && q != []
    ensures var s := q[0];
      Converting(src, pos + 2 + Span(wide, |s.asns|), q[1..], wide,
                 dst + ([s.kind, |s.asns|] + EncodeAsns(KeptAsns(s.asns, wide), !wide)), goal)
  {
    AtSegment(src, pos, q, wide);
    AtSegment(src, pos + 2 + Span(wide, |q[0].asns|), q[1..], wide);
    KeptWf(q[1..], wide);
    assert KeptPath(q, wide)[1..] == KeptPath(q[1..], wide);
  }

  /** as_path_32to16 (from wide) and as_path_16to32 (to wide). */
  method Convert(src: Bytes, wide: bool, ghost p: seq<Segment>) returns (dst: Bytes)
    requires At(src, 0, p, wide)
    ensures WfPath(KeptPath(p, wide)) && dst == Encode(KeptPath(p, wide), !wide)
  {
    KeptWf(p, wide);
    ghost var goal := Encode(KeptPath(p, wide), !wide);
    dst := [];
    var pos: nat := 0;
    ghost var q := p;
    AtSegment(src, 0, p, wide);
    while pos < |src|
      invariant Converting(src, pos, q, wide, dst, goal)
      decreases |q|
    {
      AtSegment(src, pos, q, wide);
      SegmentAsns(src, pos, q, wide);
      ConvertStep(src, pos, q, wide, dst, goal);
      var n := src[pos + 1];
      var asns := ConvertAsns(src, pos + 2, n as int, wide, q[0].asns);
      dst := dst + ([src[pos], n] + asns);
      pos := pos + 2 + Span(wide, n as int);
      q := q[1..];
    }
    assert dst + [] == dst;
  }

  lemma OldWf(p: seq<Segment>)
    requires WfPath(p)
    ensures WfPath(OldPath(p))
  {
  }

  /** The AS number at pos, replaced if it does not fit 16 bits. */
  method PatchAsn(res0: Bytes, pos: nat, ghost a: nat) returns (res: Bytes)
    requires a <= MAX_ASN && Holds(res0, pos, PutAsn(a, true))
    ensures |res| == |res0| && res[..pos] == res0[..pos] && res[pos + 4..] == res0[pos + 4..]
    ensures res[pos..pos + 4] == PutAsn(if a > 0xffff then AS_TRANS else a, true)
  {
    GetPutAsn(res0, pos, a, true);
    res := res0;
    if GetAsn(res, pos, true) > 0xffff {
      res := res[..pos] + PutAsn(AS_TRANS, true) + res[pos + 4..];
    }
  }

  /** The bytes b with the AS numbers at pos replaced. */
  ghost function Patched(b: Bytes, pos: nat, asns: seq<nat>): Bytes
    requires pos + 4 * |asns| <= |b|
  {
    b[..pos] + (EncodeAsns(OldAsns(asns), true) + b[pos + 4 * |asns|..])
  }

  lemma PatchStep(b: Bytes, c: Bytes, pos: nat, asns: seq<nat>)
    requires asns != [] && pos + 4 * |asns| <= |b| == |c|
    requires c[..pos] == b[..pos] && c[pos + 4..] == b[pos + 4..]
    requires c[pos..pos + 4] == PutAsn(if asns[0] > 0xffff then AS_TRANS else asns[0], true)
    ensures Patched(c, pos + 4, asns[1..]) == Patched(b, pos, asns)
  {
    var o := OldAsns(asns);
    assert o[1..] == OldAsns(asns[1..]);
    var e := EncodeAsns(o[1..], true);
    assert c[..pos + 4] == b[..pos] + PutAsn(o[0], true);
    var end := pos + 4 * |asns|;
    assert c[end..] == c[pos + 4..][end - pos - 4..] && b[end..] == b[pos + 4..][end - pos - 4..];
  }

  method PatchAsns(res0: Bytes, pos0: nat, n: nat, ghost asns: seq<nat>) returns (res: Bytes)
    requires AsnsAt(res0, pos0, asns, true) && n == |asns| && pos0 + 4 * n <= |res0|
    ensures res == Patched(res0, pos0, asns)
  {
    res := res0;
    var pos: nat := pos0;
    ghost var rest := asns;
    for i := 0 to n
      invariant |res| == |res0| && pos + 4 * |rest| <= |res| && |rest| == n - i
      invariant AsnsAt(res, pos, rest, true) && Patched(res, pos, rest) == Patched(res0, pos0, asns)
    {
      AsnsFirst(res, pos, rest);
      ghost var was := res;
      res := PatchAsn(res, pos, rest[0]);
      PatchStep(was, res, pos, rest);
      AsnsRest(was, res, pos, rest);
      pos := pos + 4;
      rest := rest[1..];
    }
  }

  lemma AsnsFirst(b: Bytes, pos: nat, asns: seq<nat>)
    requires AsnsAt(b, pos, asns, true) && asns != []
    ensures Holds(b, pos, PutAsn(asns[0], true))
  {
    var e := EncodeAsns(asns, true);
    assert b[pos..pos + 4] == b[pos..pos + |e|][..4];
  }

  lemma AsnsRest(b: Bytes, c: Bytes, pos: nat, asns: seq<nat>)
    requires AsnsAt(b, pos, asns, true) && asns != [] && |b| == |c| && pos + 4 <= |b| && c[pos + 4..] == b[pos + 4..]
    ensures AsnsAt(c, pos + 4, asns[1..], true)
  {
    AsnsNext(b, pos, asns, true);
    var e := EncodeAsns(asns[1..], true);
    assert c[pos + 4..pos + 4 + |e|] == c[pos + 4..][..|e|];
    assert b[pos + 4..pos + 4 + |e|] == b[pos + 4..][..|e|];
  }

  /** Before pos the AS numbers are replaced, from there on they are not. */
  ghost predicate Aging(res: Bytes, pos: nat, q: seq<Segment>, goal: Bytes) {
    At(res, pos, q, true) && (pos < |res| <==> q != []) && WfPath(OldPath(q)) &&
    res[..pos] + Encode(OldPath(q), true) == goal
  }

  lemma PatchedParts(res: Bytes, pos: nat, s: Segment)
    requires WfSegment(s) && pos + 2 + 4 * |s.asns| <= |res| && res[pos] == s.kind && res[pos + 1] == |s.asns|
    ensures var next, now := pos + 2 + 4 * |s.asns|, Patched(res, pos + 2, s.asns);
      |now| == |res| && now[next..] == res[next..] &&
      now[..next] == res[..pos] + ([s.kind, |s.asns|] + EncodeAsns(OldAsns(s.asns), true))
  {
    AsnsLength(OldAsns(s.asns), true);
    assert res[..pos + 2] == res[..pos] + [s.kind, |s.asns|];
  }

  lemma OldFirst(q: seq<Segment>)
    requires WfPath(q) && q != []
    ensures WfPath(OldPath(q)) && WfPath(OldPath(q[1..]))
    ensures Encode(OldPath(q), true) ==
      ([q[0].kind, |q[0].asns|] + EncodeAsns(OldAsns(q[0].asns), true)) + Encode(OldPath(q[1..]), true)
  {
    OldWf(q);
    OldWf(q[1..]);
    assert OldPath(q)[1..] == OldPath(q[1..]);
  }

  lemma AgingStep(res: Bytes, pos: nat, q: seq<Segment>, goal: Bytes)
    requires Aging(res, pos, q, goal) && q != []
    ensures var next := pos + 2 + 4 * |q[0].asns|;
      next <= |res| && Aging(Patched(res, pos + 2, q[0].asns), next, q[1..], goal)
  {
    var next := pos + 2 + 4 * |q[0].asns|;
    AtNext(res, pos, q, next);
    var now := Patched(res, pos + 2, q[0].asns);
    PatchedParts(res, pos, q[0]);
    OldFirst(q);
    var head: Bytes := [q[0].kind, |q[0].asns|] + EncodeAsns(OldAsns(q[0].asns), true);
    Regroup(res[..pos], head, Encode(OldPath(q[1..]), true));
    assert now[..next] + Encode(OldPath(q[1..]), true) == goal;
    AtEnd(now, next, q[1..]);
  }

  /** The loop body of as_path_to_old: one segment. */
  method Age(res0: Bytes, pos: nat, ghost q: seq<Segment>, ghost goal: Bytes) returns (res: Bytes, next: nat)
    requires Aging(res0, pos, q, goal) && q != []
    ensures Aging(res, next, q[1..], goal)
  {
    AtSegment(res0, pos, q, true);
    SegmentAsns(res0, pos, q, true);
    AgingStep(res0, pos, q, goal);
    var n := res0[pos + 1] as int;
    res := PatchAsns(res0, pos + 2, n, q[0].asns);
    next := pos + 2 + 4 * n;
  }

  /** as_path_to_old: AS_TRANS for every 32-bit AS number. */
  method ToOld(data: Bytes, ghost p: seq<Segment>) returns (res: Bytes)
    requires At(data, 0, p, true)
    ensures WfPath(OldPath(p)) && res == Encode(OldPath(p), true)
  {
    OldWf(p);
    ghost var goal := Encode(OldPath(p), true);
    res := data;
    var pos: nat := 0;
    ghost var q := p;
    AtSegment(data, 0, p, true);
    while pos < |res|
      invariant Aging(res, pos, q, goal)
      decreases |q|
    {
      res, pos := Age(res, pos, q, goal);
      q := q[1..];
    }
    assert res[..pos] + [] == res;
  }

  /** The conversion to 16 bits loses nothing of a path without 32-bit AS numbers. */
  lemma OldKept(p: seq<Segment>)
    requires WfPath(p)
    ensures WfPath(OldPath(p)) && KeptPath(OldPath(p), true) == OldPath(p) && KeptPath(OldPath(p), false) == OldPath(p)
  {
    var o := OldPath(p);
    forall k | 0 <= k < |o| ensures KeptAsns(o[k].asns, false) == o[k].asns == KeptAsns(o[k].asns, true) {
    }
  }

  /** as_path_32to16 and as_path_16to32 after as_path_to_old. */
  method OldRoundTrip(data: Bytes, ghost p: seq<Segment>) returns (old32: Bytes, old16: Bytes, back: Bytes)
    requires At(data, 0, p, true)
    ensures WfPath(OldPath(p)) && old32 == Encode(OldPath(p), true) && old16 == Encode(OldPath(p), false)
    ensures back == old32
  {
    old32 := ToOld(data, p);
    OldKept(p);
    assert old32[0..] == old32;
    old16 := Convert(old32, true, OldPath(p));
    assert old16[0..] == old16;
    back := Convert(old16, false, OldPath(p));
  }

  // ---- Walking and matching ----

  lemma {:induction false} AsnsSplit(b: Bytes, pos: nat, asns: seq<nat>, k: nat)
    requires AsnsAt(b, pos, asns, true) && k < |asns|
    ensures pos + 4 * k + 4 <= |b| && Get32(b, pos + 4 * k) == asns[k]
    decreases k
  {
    AsnsNext(b, pos, asns, true);
    if k > 0 {
      AsnsSplit(b, pos + 4, asns[1..], k - 1);
    }
  }

  /** A segment on the wire: its kind, the number of AS numbers, and these in network order. */
  lemma WireFormat(s: Segment, k: nat)
    requires WfSegment(s) && k < |s.asns|
    ensures var e := EncodeSegment(s, true);
            |e| == 2 + 4 * |s.asns| && e[0] == s.kind && e[1] == |s.asns| &&
            BigEndian(e[2 + 4 * k..6 + 4 * k]) == s.asns[k]
  {
    var e, a := EncodeSegment(s, true), EncodeAsns(s.asns, true);
    AsnsLength(s.asns, true);
    assert e[2..2 + |a|] == a;
    AsnsSplit(e, 2, s.asns, k);
    Get32Is(e, 2 + 4 * k);
  }

  /** as_path_walk: the AS number at a given index of the walk. */
  method Walk(data: Bytes, index: nat, ghost p: seq<Segment>) returns (found: bool, val: nat)
    requires At(data, 0, p, true)
    ensures found <==> index < |Walked(p)|
    ensures found ==> val == Walked(p)[index]
  {
    var pos: nat, x: nat := 0, index;
    ghost var q := p;
    AtEnd(data, 0, p);
    while pos < |data|
      invariant At(data, pos, q, true) && (pos < |data| <==> q != [])
      invariant x < |Walked(q)| <==> index < |Walked(p)|
      invariant x < |Walked(q)| ==> Walked(q)[x] == Walked(p)[index]
      decreases |q|
    {
      WalkStep(data, pos, q);
      var n := data[pos + 1] as int;
      if x < n {
        WalkHit(data, pos, q, x);
        return true, Get32(data, pos + 2 + 4 * x);
      }
      x, pos, q := x - n, pos + 2 + 4 * n, q[1..];
      AtEnd(data, pos, q);
    }
    return false, 0;
  }

  lemma WalkStep(data: Bytes, pos: nat, q: seq<Segment>)
    requires At(data, pos, q, true) && q != []
    ensures pos + 1 < |data| && data[pos + 1] == |q[0].asns|
    ensures At(data, pos + 2 + 4 * |q[0].asns|, q[1..], true) && Walked(q) == q[0].asns + Walked(q[1..])
  {
    AtNext(data, pos, q, pos + 2 + 4 * |q[0].asns|);
  }

  lemma WalkHit(data: Bytes, pos: nat, q: seq<Segment>, x: nat)
    requires At(data, pos, q, true) && q != [] && x < |q[0].asns|
    ensures pos + 2 + 4 * x + 4 <= |data| && Get32(data, pos + 2 + 4 * x) == q[0].asns[x]
  {
    SegmentAsns(data, pos, q, true);
    AsnsSplit(data, pos + 2, q[0].asns, x);
  }

  /** The positions of the matcher. */
  function Singles(asns: seq<nat>): (r: seq<Elem>)
    ensures |r| == |asns| && forall k :: 0 <= k < |r| ==> r[k] == Asn(asns[k])
  {
    seq(|asns|, k requires 0 <= k < |asns| => Asn(asns[k]))
  }

  function Places(s: Segment): seq<Elem> {
    if s.kind == SET || s.kind == CONFED_SET then [Elem.Set(s.asns)] else Singles(s.asns)
  }

  function Positions(p: seq<Segment>): seq<Elem> {
    if p == [] then [] else Places(p[0]) + Positions(p[1..])
  }

  lemma PositionsMore(pp: seq<Elem>, q: seq<Segment>, all: seq<Elem>)
    requires q != [] && pp + Positions(q) == all
    ensures (pp + Places(q[0])) + Positions(q[1..]) == all
  {
  }

  /** One segment, and the position behind it. */
  method ReadSegment(data: Bytes, pos: nat, ghost q: seq<Segment>) returns (pp: seq<Elem>, next: nat)
    requires At(data, pos, q, true) && q != []
    ensures pp == Places(q[0]) && At(data, next, q[1..], true)
  {
    AtSegment(data, pos, q, true);
    SegmentAsns(data, pos, q, true);
    var kind, n := data[pos], data[pos + 1] as int;
    var asns := ReadAsns(data, pos + 2, n, q[0].asns);
    pp := if kind == SET || kind == CONFED_SET then [Elem.Set(asns)] else Singles(asns);
    next := pos + 2 + 4 * n;
  }

  method ReadAsns(data: Bytes, pos0: nat, n: nat, ghost asns: seq<nat>) returns (r: seq<nat>)
    requires AsnsAt(data, pos0, asns, true) && n == |asns|
    ensures r == asns
  {
    r := [];
    for i := 0 to n
      invariant r == asns[..i]
    {
      AsnsSplit(data, pos0, asns, i);
      r := r + [Get32(data, pos0 + 4 * i)];
    }
  }

  /** parse_path */
  method ParsePath(data: Bytes, ghost p: seq<Segment>) returns (pp: seq<Elem>)
    requires At(data, 0, p, true)
    ensures pp == Positions(p) && forall q :: Expands(pp, 0, q) <==> StandsFor(p, false, q)
  {
    PositionsFor(p);
    pp := [];
    var pos: nat := 0;
    ghost var q := p;
    AtEnd(data, 0, p);
    while pos < |data|
      invariant At(data, pos, q, true) && (pos < |data| <==> q != []) && pp + Positions(q) == Positions(p)
      decreases |q|
    {
      var more, next := ReadSegment(data, pos, q);
      PositionsMore(pp, q, Positions(p));
      pp, pos, q := pp + more, next, q[1..];
      AtEnd(data, pos, q);
    }
  }

  // ---- What a path stands for ----

  /** Segments of an ordered kind: AS_PATH_SEQUENCE, AS_PATH_CONFED_SEQUENCE. */
  predicate IsSequence(s: Segment) { s.kind == 2 || s.kind == 3 }

  /** A sequence stands for its AS numbers, a set for any of them in any order and number, but at least one
      if no other set is just before it. */
  ghost predicate SegmentFor(s: Segment, afterSet: bool, t: seq<nat>) {
    if IsSequence(s) then t == s.asns
    else (forall k :: 0 <= k < |t| ==> t[k] in s.asns) && (!afterSet ==> t != [])
  }

  /** The path stands for the AS numbers q. */
  ghost predicate StandsFor(p: seq<Segment>, afterSet: bool, q: seq<nat>)
    decreases |p|
  {
    if p == [] then q == []
    else exists n: nat :: n <= |q| && SegmentFor(p[0], afterSet, q[..n]) &&
                          StandsFor(p[1..], if IsSequence(p[0]) then afterSet && p[0].asns == [] else true, q[n..])
  }

  ghost predicate AfterSet(pre: seq<Elem>) { pre != [] && pre[|pre| - 1].Set? }

  lemma {:induction false} SinglesExpand(pre: seq<Elem>, asns: seq<nat>, rest: seq<Elem>, all: seq<Elem>, q: seq<nat>)
    requires all == pre + (Singles(asns) + rest)
    ensures |pre| + |asns| <= |all|
    ensures Expands(all, |pre|, q) <==> asns <= q && Expands(all, |pre| + |asns|, q[|asns|..])
    decreases |asns|
  {
    if asns == [] {
      assert q[0..] == q;
    } else {
      var here, more := [Asn(asns[0])], asns[1..];
      SinglesMore(pre, asns, rest, all);
      if q != [] {
        SinglesExpand(pre + here, more, rest, all, q[1..]);
        assert |q| >= |asns| ==> q[1..][|more|..] == q[|asns|..];
        OneExpands(all, |pre|, q);
        FirstThen(asns, q);
      } else {
        NothingExpands(all, |pre|);
      }
    }
  }

  lemma SinglesMore(pre: seq<Elem>, asns: seq<nat>, rest: seq<Elem>, all: seq<Elem>)
    requires asns != [] && all == pre + (Singles(asns) + rest)
    ensures |pre| < |all| && all[|pre|] == Asn(asns[0])
    ensures all == (pre + [Asn(asns[0])]) + (Singles(asns[1..]) + rest)
  {
    assert Singles(asns) == [Asn(asns[0])] + Singles(asns[1..]);
  }

  lemma FirstThen(a: seq<nat>, q: seq<nat>)
    requires a != [] && q != []
    ensures a <= q <==> q[0] == a[0] && a[1..] <= q[1..]
  {
    if q[0] == a[0] && a[1..] <= q[1..] {
      assert a == [a[0]] + a[1..] && q == [q[0]] + q[1..];
    }
  }

  lemma OneExpands(all: seq<Elem>, i: nat, q: seq<nat>)
    requires i < |all| && all[i].Asn? && q != []
    ensures Expands(all, i, q) <==> q[0] == all[i].asn && Expands(all, i + 1, q[1..])
  {
    assert q[..1] == [q[0]];
    if Expands(all, i, q) {
      var n: nat :| n <= |q| && Piece(all, i, q[..n]) && Expands(all, i + 1, q[n..]);
      assert |q[..n]| == 1;
    }
  }

  lemma NothingExpands(all: seq<Elem>, i: nat)
    requires i < |all| && all[i].Asn?
    ensures !Expands(all, i, [])
  {
  }

  /** The positions of a path stand for what its segments stand for. */
  lemma {:induction false} StandsIff(p: seq<Segment>, pre: seq<Elem>, all: seq<Elem>, q: seq<nat>)
    requires WfPath(p) && all == pre + Positions(p)
    ensures Expands(all, |pre|, q) <==> StandsFor(p, AfterSet(pre), q)
    decreases |p|
  {
    if p != [] {
      var next := FirstPlaces(p, pre, all);
      if IsSequence(p[0]) {
        var n := |p[0].asns|;
        if p[0].asns <= q {
          StandsIff(p[1..], next, all, q[n..]);
        }
        SequenceStands(p, pre, all, Positions(p[1..]), q);
      } else {
        forall n: nat | n <= |q| ensures Expands(all, |pre| + 1, q[n..]) <==> StandsFor(p[1..], true, q[n..]) {
          StandsIff(p[1..], next, all, q[n..]);
        }
        SetStands(p, pre, all, Positions(p[1..]), q);
      }
    }
  }

  lemma Assoc<T>(x: seq<T>, y: seq<T>, z: seq<T>)
    ensures (x + y) + z == x + (y + z)
  {
  }

  lemma FirstPlaces(p: seq<Segment>, pre: seq<Elem>, all: seq<Elem>) returns (next: seq<Elem>)
    requires p != [] && WfPath(p) && all == pre + Positions(p)
    ensures WfPath(p[1..]) && all == next + Positions(p[1..])
    ensures IsSequence(p[0]) ==> all == pre + (Singles(p[0].asns) + Positions(p[1..])) &&
                                 |next| == |pre| + |p[0].asns| && AfterSet(next) == (AfterSet(pre) && p[0].asns == [])
    ensures !IsSequence(p[0]) ==> all == pre + ([Elem.Set(p[0].asns)] + Positions(p[1..])) &&
                                  |next| == |pre| + 1 && AfterSet(next)
  {
    next := pre + Places(p[0]);
    assert WfSegment(p[0]);
    Assoc(pre, Places(p[0]), Positions(p[1..]));
    AfterSingles(pre, p[0].asns);
  }

  lemma SequenceStands(p: seq<Segment>, pre: seq<Elem>, all: seq<Elem>, rest: seq<Elem>, q: seq<nat>)
    requires p != [] && IsSequence(p[0]) && all == pre + (Singles(p[0].asns) + rest)
    requires var asns, after := p[0].asns, AfterSet(pre) && p[0].asns == [];
             asns <= q ==> (Expands(all, |pre| + |asns|, q[|asns|..]) <==> StandsFor(p[1..], after, q[|asns|..]))
    ensures Expands(all, |pre|, q) <==> StandsFor(p, AfterSet(pre), q)
  {
    SinglesExpand(pre, p[0].asns, rest, all, q);
    SequenceFirst(p, AfterSet(pre), q);
  }

  lemma AfterSingles(pre: seq<Elem>, asns: seq<nat>)
    ensures AfterSet(pre + Singles(asns)) == (AfterSet(pre) && asns == [])
  {
    assert asns == [] ==> pre + Singles(asns) == pre;
  }

  lemma SetStands(p: seq<Segment>, pre: seq<Elem>, all: seq<Elem>, rest: seq<Elem>, q: seq<nat>)
    requires p != [] && !IsSequence(p[0]) && all == pre + ([Elem.Set(p[0].asns)] + rest)
    requires forall n: nat | n <= |q| :: Expands(all, |pre| + 1, q[n..]) <==> StandsFor(p[1..], true, q[n..])
    ensures Expands(all, |pre|, q) <==> StandsFor(p, AfterSet(pre), q)
  {
    var s, i := p[0], |pre|;
    assert all[i] == Elem.Set(s.asns) && (FirstOfRun(all, i) <==> !AfterSet(pre));
    if Expands(all, i, q) {
      var n: nat :| n <= |q| && Piece(all, i, q[..n]) && Expands(all, i + 1, q[n..]);
      assert SegmentFor(s, AfterSet(pre), q[..n]) && StandsFor(p[1..], true, q[n..]);
    }
    if StandsFor(p, AfterSet(pre), q) {
      var n: nat :| n <= |q| && SegmentFor(s, AfterSet(pre), q[..n]) && StandsFor(p[1..], true, q[n..]);
      assert Piece(all, i, q[..n]) && Expands(all, i + 1, q[n..]);
    }
  }

  lemma SequenceFirst(p: seq<Segment>, afterSet: bool, q: seq<nat>)
    requires p != [] && IsSequence(p[0])
    ensures StandsFor(p, afterSet, q) <==>
            p[0].asns <= q && StandsFor(p[1..], afterSet && p[0].asns == [], q[|p[0].asns|..])
  {
    var asns := p[0].asns;
    if asns <= q {
      assert q[..|asns|] == asns;
    }
    if StandsFor(p, afterSet, q) {
      var n: nat :| n <= |q| && q[..n] == asns && StandsFor(p[1..], afterSet && asns == [], q[n..]);
    }
  }

  /** A path of sequences stands for its AS numbers only. */
  lemma {:induction false} SequencesFor(p: seq<Segment>, q: seq<nat>)
    requires forall k :: 0 <= k < |p| ==> IsSequence(p[k])
    ensures StandsFor(p, false, q) <==> q == Walked(p)
    decreases |p|
  {
    if p != [] {
      var asns, rest := p[0].asns, Walked(p[1..]);
      SequenceFirst(p, false, q);
      if asns <= q {
        SequencesFor(p[1..], q[|asns|..]);
        assert q == asns + q[|asns|..];
      }
      assert (asns + rest)[|asns|..] == rest;
    }
  }

  /** Some sequence of AS numbers that the path stands for matches the mask. */
  ghost predicate SomeFits(p: seq<Segment>, mask: seq<MaskItem>) {
    exists q :: StandsFor(p, false, q) && Wildcard(q, mask)
  }

  lemma PositionsFor(p: seq<Segment>)
    requires WfPath(p)
    ensures forall q :: Expands(Positions(p), 0, q) <==> StandsFor(p, false, q)
  {
    var all := Positions(p);
    forall q ensures Expands(all, 0, q) <==> StandsFor(p, false, q) {
      assert all == [] + all;
      StandsIff(p, [], all, q);
    }
  }

  lemma SomeFitsIff(p: seq<Segment>, mask: seq<MaskItem>)
    requires WfPath(p)
    ensures SomeMatches(Positions(p), mask) <==> SomeFits(p, mask)
  {
    PositionsFor(p);
  }

  lemma SequencesFit(p: seq<Segment>, mask: seq<MaskItem>)
    requires forall k :: 0 <= k < |p| ==> IsSequence(p[k])
    ensures SomeFits(p, mask) <==> Wildcard(Walked(p), mask)
  {
    forall q ensures StandsFor(p, false, q) <==> q == Walked(p) {
      SequencesFor(p, q);
    }
  }

  lemma {:induction false} PlainPositions(p: seq<Segment>)
    requires WfPath(p) && forall k :: 0 <= k < |p| ==> IsSequence(p[k])
    ensures Plain(Positions(p))
    decreases |p|
  {
    if p != [] {
      PlainPositions(p[1..]);
    }
  }

  /** One AS number against one item. */
  lemma OneNumber(a: nat, x: MaskItem)
    ensures x.Question? ==> Wildcard([a], [x])
    ensures x.Number? ==> (Wildcard([a], [x]) <==> a == x.asn)
    ensures x.Range? ==> (Wildcard([a], [x]) <==> x.from <= a && a <= x.to)
    ensures x.AsnSet? ==> (Wildcard([a], [x]) <==> a in x.members)
  {
    if IsStep(x) {
      assert [x][1..] == [] && [a][1..] == [];
      assert Wildcard([], []);
    }
  }

  lemma {:induction false} NoEmptySets(p: seq<Segment>, i: nat)
    requires NoneEmpty(p) && i < |Positions(p)|
    ensures !Empty(Positions(p)[i])
    decreases |p|
  {
    var here, rest := Places(p[0]), Positions(p[1..]);
    assert p[0].asns != [];
    if i >= |here| {
      assert Positions(p)[i] == rest[i - |here|];
      NoEmptySets(p[1..], i - |here|);
    }
  }

  /** A valid path has no run of sets that starts with an empty one, and neither has one of sequences. */
  lemma HeadedPositions(p: seq<Segment>)
    requires WfPath(p) && (NoneEmpty(p) || forall k :: 0 <= k < |p| ==> IsSequence(p[k]))
    ensures Headed(Positions(p))
  {
    var pp := Positions(p);
    if NoneEmpty(p) {
      forall i | 0 <= i < |pp| ensures !Empty(pp[i]) {
        NoEmptySets(p, i);
      }
    } else {
      PlainPositions(p);
    }
  }

  /** as_path_match on the wire format: a valid path matches iff one of the sequences it stands for does,
      and a path of sequences iff its AS numbers do. */
  method Match(data: Bytes, mask: seq<MaskItem>, ghost p: seq<Segment>) returns (r: bool)
    requires At(data, 0, p, true)
    ensures r <==> Accepts(Positions(p), mask, 0)
    ensures NoneEmpty(p) ==> (r <==> SomeFits(p, mask))
    ensures (forall k :: 0 <= k < |p| ==> p[k].kind == 2 || p[k].kind == 3) ==> (r <==> Wildcard(Walked(p), mask))
  {
    var pp := ParsePath(data, p);
    r := PathMatches(pp, mask);
    MatchMeans(p, mask);
  }

  lemma MatchMeans(p: seq<Segment>, mask: seq<MaskItem>)
    requires WfPath(p)
    ensures NoneEmpty(p) ==> (Accepts(Positions(p), mask, 0) <==> SomeFits(p, mask))
    ensures (forall k :: 0 <= k < |p| ==> p[k].kind == 2 || p[k].kind == 3) ==>
              (Accepts(Positions(p), mask, 0) <==> Wildcard(Walked(p), mask))
  {
    SomeFitsIff(p, mask);
    if NoneEmpty(p) || forall k :: 0 <= k < |p| ==> IsSequence(p[k]) {
      HeadedPositions(p);
      AcceptsIff(Positions(p), mask);
    }
    if forall k :: 0 <= k < |p| ==> IsSequence(p[k]) {
      SequencesFit(p, mask);
    }
  }

  /** A sequence of one AS number and a mask of one item. */
  method MatchOne(data: Bytes, mask: seq<MaskItem>, ghost a: nat) returns (r: bool)
    requires At(data, 0, [Segment(2, [a])], true) && |mask| == 1
    ensures mask[0].Question? ==> r
    ensures mask[0].Number? ==> (r <==> a == mask[0].asn)
    ensures mask[0].Range? ==> (r <==> mask[0].from <= a && a <= mask[0].to)
    ensures mask[0].AsnSet? ==> (r <==> a in mask[0].members)
  {
    ghost var p := [Segment(2, [a])];
    r := Match(data, mask, p);
    assert Walked(p) == [a] by {
      assert p[1..] == [];
    }
    assert mask == [mask[0]];
    OneNumber(a, mask[0]);
  }
}
