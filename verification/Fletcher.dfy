/** Fletcher-16 checksums (lib/fletcher16.h, section 12.1.7 of RFC 2328). */
module Fletcher {
  type Byte = n: int | 0 <= n < 256

  const MODX := 4096
  const INT_MAX := 0x7fffffff

  // ---- The sums without reduction ----

  function Sum(data: seq<Byte>): nat {
    if data == [] then 0 else data[0] as int + Sum(data[1..])
  }

  /** Every byte counts as often as there are bytes from it on. */
  function Weighted(data: seq<Byte>): nat {
    if data == [] then 0 else |data| * data[0] as int + Weighted(data[1..])
  }

  /** c0 and c1 after the steps c1 += c0 += byte. */
  function Run(c0: int, c1: int, data: seq<Byte>): (int, int)
    decreases |data|
  {
    if data == [] then (c0, c1) else Run(c0 + data[0] as int, c1 + c0 + data[0] as int, data[1..])
  }

  lemma {:induction false} RunIs(c0: int, c1: int, data: seq<Byte>)
    ensures Run(c0, c1, data) == (c0 + Sum(data), c1 + |data| * c0 + Weighted(data))
    decreases |data|
  {
    if data != [] {
      var x, n := data[0] as int, |data|;
      RunIs(c0 + x, c1 + c0 + x, data[1..]);
      assert (n - 1) * (c0 + x) + c0 + x == n * c0 + n * x;
    }
  }

  lemma {:induction false} RunConcat(c0: int, c1: int, a: seq<Byte>, b: seq<Byte>)
    ensures var r := Run(c0, c1, a); Run(c0, c1, a + b) == Run(r.0, r.1, b)
    decreases |a|
  {
    if a == [] {
      assert a + b == b;
    } else {
      RunConcat(c0 + a[0] as int, c1 + c0 + a[0] as int, a[1..], b);
      assert (a + b)[1..] == a[1..] + b;
    }
  }

  // ---- Modulo 255 ----

  ghost predicate Cong(a: int, b: int) { exists m: int :: Apart(a, b, m) }

  ghost predicate Apart(a: int, b: int, m: int) { a == b + 255 * m }

  lemma CongIff(a: int, b: int)
    ensures Cong(a, b) <==> (a - b) % 255 == 0
  {
    if (a - b) % 255 == 0 {
      assert Apart(a, b, (a - b) / 255);
    }
  }

  lemma CongSum(a: int, b: int, c: int, d: int)
    requires Cong(a, b) && Cong(c, d)
    ensures Cong(a + c, b + d)
  {
    var m, n :| Apart(a, b, m) && Apart(c, d, n);
    assert Apart(a + c, b + d, m + n);
  }

  lemma CongSame(a: int)
    ensures Cong(a, a)
  {
    assert Apart(a, a, 0);
  }

  /** Starting from congruent values gives congruent values. */
  lemma {:induction false} RunCong(c0: int, c1: int, d0: int, d1: int, data: seq<Byte>)
    requires Cong(c0, d0) && Cong(c1, d1)
    ensures Cong(Run(c0, c1, data).0, Run(d0, d1, data).0) && Cong(Run(c0, c1, data).1, Run(d0, d1, data).1)
    decreases |data|
  {
    if data != [] {
      var x := data[0] as int;
      CongSame(x);
      CongSum(c0, d0, x, x);
      CongSum(c1, d1, c0 + x, d0 + x);
      RunCong(c0 + x, c1 + c0 + x, d0 + x, d1 + d0 + x, data[1..]);
    }
  }

  lemma RunFromZero(data: seq<Byte>)
    ensures Run(0, 0, data) == (Sum(data), Weighted(data))
  {
    RunIs(0, 0, data);
  }

  /** Reduction keeps congruence, and a reduced value is the remainder. */
  lemma Reduced(a: int, b: int)
    requires Cong(a, b)
    ensures Cong(a % 255, b) && (0 <= a < 255 ==> a == b % 255)
  {
    CongIff(a, b);
    CongIff(a % 255, b);
  }

  lemma StepCong(data: seq<Byte>, c0: int, c1: int, x: int)
    requires Cong(c0, Run(0, 0, data).0) && Cong(c1, Run(0, 0, data).1)
    ensures var r := Run(0, 0, data); Cong(c0 + x, r.0 + x) && Cong(c1 + (c0 + x), r.1 + r.0 + x)
  {
    var r := Run(0, 0, data);
    CongSame(x);
    CongSum(c0, r.0, x, x);
    CongSum(c1, r.1, c0 + x, r.0 + x);
  }

  // ---- Bounds within a block ----

  /** Bounds of c0 and c1 after k steps from reduced values. */
  function Bound0(k: nat): nat { 254 + 255 * k }

  function Bound1(k: nat): nat {
    if k == 0 then 254 else Bound1(k - 1) + Bound0(k)
  }

  lemma {:induction false} Bound1Is(k: nat)
    ensures 2 * Bound1(k) == 508 + 508 * k + 255 * (k * (k + 1))
  {
    if k > 0 {
      Bound1Is(k - 1);
      assert k * (k + 1) == (k - 1) * k + 2 * k;
    }
  }

  lemma {:induction false} Bound1Mono(k: nat, n: nat)
    requires k <= n
    ensures Bound1(k) <= Bound1(n)
    decreases n
  {
    if k < n {
      Bound1Mono(k, n - 1);
    }
  }

  /** 3 + 4096 steps stay within a signed 32-bit integer. */
  lemma BlockFits(k: nat)
    requires k <= MODX + 3
    ensures Bound0(k) <= INT_MAX && Bound1(k) <= INT_MAX
  {
    Bound1Mono(k, MODX + 3);
    Bound1Is(MODX + 3);
  }

  lemma RoomForFour(i: nat, n: nat, round: nat, rounds: nat)
    requires i < n && i == 4 * round && n == 4 * rounds
    ensures round < rounds && i + 4 <= n
  {
  }

  lemma FourMore(a: seq<Byte>, buf: seq<Byte>, pos: nat, i: nat)
    requires pos + i + 4 <= |buf|
    ensures (a + buf[pos..pos + i]) + [buf[pos + i], buf[pos + i + 1], buf[pos + i + 2], buf[pos + i + 3]] ==
            a + buf[pos..pos + i + 4]
  {
  }

  lemma Joined(a: seq<Byte>, buf: seq<Byte>, i: nat, j: nat)
    requires i <= j <= |buf|
    ensures a + buf[..i] + buf[i..j] == a + buf[..j]
  {
  }

  /** n words of four bytes from pos on, the bytes of each word reversed. */
  ghost function Swapped(buf: seq<Byte>, pos: nat, n: nat): seq<Byte>
    requires pos + 4 * n <= |buf|
  {
    if n == 0 then []
    else
      var at := pos + 4 * (n - 1);
      Swapped(buf, pos, n - 1) + [buf[at + 3], buf[at + 2], buf[at + 1], buf[at]]
  }

  lemma SwappedMore(a: seq<Byte>, buf: seq<Byte>, pos: nat, n: nat, at: nat)
    requires at == pos + 4 * n && at + 4 <= |buf|
    ensures (a + Swapped(buf, pos, n)) + [buf[at + 3], buf[at + 2], buf[at + 1], buf[at]] ==
            a + Swapped(buf, pos, n + 1)
  {
  }

  lemma {:induction false} SwappedJoin(a: seq<Byte>, buf: seq<Byte>, pos: nat, m: nat, n: nat)
    requires pos + 4 * m + 4 * n <= |buf|
    ensures (a + Swapped(buf, pos, m)) + Swapped(buf, pos + 4 * m, n) == a + Swapped(buf, pos, m + n)
    decreases n
  {
    if n > 0 {
      SwappedJoin(a, buf, pos, m, n - 1);
      var at := pos + 4 * (m + n - 1);
      var w := [buf[at + 3], buf[at + 2], buf[at + 1], buf[at]];
      var x, y, z := a + Swapped(buf, pos, m), Swapped(buf, pos + 4 * m, n - 1), Swapped(buf, pos, m + n - 1);
      assert Swapped(buf, pos, m + n) == z + w;
      assert Swapped(buf, pos + 4 * m, n) == y + w;
      assert x + (y + w) == (x + y) + w && (a + z) + w == a + (z + w);
    } else {
      assert Swapped(buf, pos + 4 * m, n) == [];
    }
  }

  /** Taken twice it gives the bytes as they were: swapping is an involution. */
  lemma {:induction false} SwappedTwice(buf: seq<Byte>, n: nat)
    requires 4 * n <= |buf|
    ensures |Swapped(buf, 0, n)| == 4 * n && Swapped(Swapped(buf, 0, n), 0, n) == buf[..4 * n]
    decreases n
  {
    if n > 0 {
      SwappedTwice(buf, n - 1);
      var b := Swapped(buf, 0, n);
      SwappedPrefix(b, Swapped(buf, 0, n - 1), n - 1);
    }
  }

  lemma {:induction false} SwappedPrefix(a: seq<Byte>, b: seq<Byte>, n: nat)
    requires 4 * n <= |b| && b <= a
    ensures Swapped(a, 0, n) == Swapped(b, 0, n)
    decreases n
  {
    if n > 0 {
      SwappedPrefix(a, b, n - 1);
    }
  }

  // ---- The context ----

  class Context {
    var c0: int
    var c1: int
    /** All bytes processed so far. */
    ghost var data: seq<Byte>

    /** Congruent to the sums of the data, with at most k steps since the last reduction. */
    ghost predicate Pending(k: nat)
      reads this
    {
      && 0 <= c0 <= Bound0(k) && 0 <= c1 <= Bound1(k)
      && Cong(c0, Run(0, 0, data).0) && Cong(c1, Run(0, 0, data).1)
    }

    ghost predicate Valid()
      reads this
    {
      0 <= c0 < 255 && 0 <= c1 < 255 && Cong(c0, Run(0, 0, data).0) && Cong(c1, Run(0, 0, data).1)
    }

    /** fletcher16_init */
    constructor ()
      ensures Valid() && data == []
    {
      CongSame(0);
      c0, c1, data := 0, 0, [];
    }

    /** One step; no intermediate value overflows an int. */
    method Step(b: Byte, ghost k: nat)
      requires Pending(k) && k < MODX + 3
      modifies this
      ensures Pending(k + 1) && data == old(data) + [b] && c0 <= INT_MAX && c1 <= INT_MAX
    {
      BlockFits(k + 1);
      RunConcat(0, 0, data, [b]);
      var x := b as int;
      StepCong(data, c0, c1, x);
      assert var r := Run(0, 0, data); Run(r.0, r.1, [b]) == (r.0 + x, r.1 + r.0 + x);
      c0 := c0 + x;
      c1 := c1 + c0;
      data := data + [b];
    }

    method Reduce(ghost k: nat)
      requires Pending(k)
      modifies this`c0, this`c1
      ensures Valid()
    {
      Reduced(c0, Run(0, 0, data).0);
      Reduced(c1, Run(0, 0, data).1);
      c0 := c0 % 255;
      c1 := c1 % 255;
    }

    method Four(a: Byte, b: Byte, c: Byte, d: Byte, ghost k: nat)
      requires Pending(k) && k + 3 < MODX + 3
      modifies this
      ensures Pending(k + 4) && data == old(data) + [a, b, c, d]
    {
      Step(a, k);
      Step(b, k + 1);
      Step(c, k + 2);
      Step(d, k + 3);
    }

    /** One block of steps without reduction, four at a time. */
    method Block(buf: seq<Byte>, pos: nat, blen: nat, ghost rounds: nat, ghost k0: nat)
      requires Pending(k0) && k0 <= 3 && blen <= MODX && blen == 4 * rounds && pos + blen <= |buf|
      modifies this
      ensures Pending(k0 + blen) && data == old(data) + buf[pos..pos + blen]
    {
      var i: nat := 0;
      ghost var round: nat, k: nat, was := 0, k0, data;
      assert was + buf[pos..pos] == was;
      while i < blen
        invariant round <= rounds && i == 4 * round && k == k0 + i
        invariant Pending(k) && data == was + buf[pos..pos + i]
      {
        RoomForFour(i, blen, round, rounds);
        FourMore(was, buf, pos, i);
        Four(buf[pos + i], buf[pos + i + 1], buf[pos + i + 2], buf[pos + i + 3], k);
        i, round, k := i + 4, round + 1, k + 4;
      }
    }

    /** A block and its reduction. */
    method BlockReduced(buf: seq<Byte>, pos: nat, blen: nat, ghost rounds: nat, ghost k: nat)
      requires Pending(k) && k <= 3 && blen <= MODX && blen == 4 * rounds && pos + blen <= |buf|
      modifies this
      ensures Pending(0) && data == old(data) + buf[pos..pos + blen]
    {
      Block(buf, pos, blen, rounds, k);
      Reduce(k + blen);
    }

    /** The bytes that make the rest a multiple of four long. */
    method Head(buf: seq<Byte>, blen: nat)
      requires Valid() && blen <= 3 && blen <= |buf|
      modifies this
      ensures Pending(blen) && data == old(data) + buf[..blen]
    {
      for i := 0 to blen
        invariant Pending(i) && data == old(data) + buf[..i]
      {
        Step(buf[i], i);
        assert buf[..i] + [buf[i]] == buf[..i + 1];
      }
    }

    /** fletcher16_update */
    method Update(buf: seq<Byte>)
      requires Valid()
      modifies this
      ensures Valid() && data == old(data) + buf
    {
      var blen := |buf| % 4;
      var len := |buf| - blen;
      ghost var rounds: nat := |buf| / 4;
      Head(buf, blen);
      var pos := blen;
      ghost var k: nat := blen;
      while true
        invariant Pending(k) && k <= 3 && len == 4 * rounds && 0 <= pos && pos + len == |buf|
        invariant data == old(data) + buf[..pos]
        decreases len
      {
        ghost var r: nat := if rounds < 1024 then rounds else 1024;
        blen := if len < MODX then len else MODX;
        BlockReduced(buf, pos, blen, r, k);
        Joined(old(data), buf, pos, pos + blen);
        len, pos, k, rounds := len - blen, pos + blen, 0, rounds - r;
        if len == 0 {
          break;
        }
      }
      assert buf[..pos] == buf;
    }

    /** Four steps backwards. */
    method RoundN32(buf: seq<Byte>, ghost pos: nat, at: nat, ghost k: nat, ghost round: nat, ghost was: seq<Byte>)
      requires Pending(k) && k + 3 < MODX + 3 && at == pos + 4 * round && at + 4 <= |buf|
      requires data == was + Swapped(buf, pos, round)
      modifies this
      ensures Pending(k + 4) && data == was + Swapped(buf, pos, round + 1)
    {
      SwappedMore(was, buf, pos, round, at);
      Four(buf[at + 3], buf[at + 2], buf[at + 1], buf[at], k);
    }

    /** One block of steps, four at a time and backwards within each four. */
    method BlockN32(buf: seq<Byte>, pos: nat, blen: nat, ghost rounds: nat)
      requires Pending(0) && blen <= MODX && blen == 4 * rounds && pos + blen <= |buf|
      modifies this
      ensures Pending(blen) && data == old(data) + Swapped(buf, pos, rounds)
    {
      var i: nat, at := 0, pos;
      ghost var round: nat, was := 0, data;
      assert was + Swapped(buf, pos, 0) == was;
      while i < blen
        invariant round <= rounds && i == 4 * round && at == pos + i
        invariant Pending(i) && data == was + Swapped(buf, pos, round)
      {
        RoomForFour(i, blen, round, rounds);
        RoundN32(buf, pos, at, i, round, was);
        i, at, round := i + 4, at + 4, round + 1;
      }
    }

    /** A block and its reduction, after other blocks. */
    method ReducedN32(buf: seq<Byte>, pos: nat, blen: nat, ghost rounds: nat, ghost done: nat, ghost was: seq<Byte>)
      requires Pending(0) && blen <= MODX && blen == 4 * rounds && pos + blen <= |buf|
      requires pos == 4 * done && data == was + Swapped(buf, 0, done)
      modifies this
      ensures Pending(0) && data == was + Swapped(buf, 0, done + rounds)
    {
      BlockN32(buf, pos, blen, rounds);
      SwappedJoin(was, buf, 0, done, rounds);
      Reduce(blen);
    }

    /** fletcher16_update_n32 on a little-endian host; data come in whole words. */
    method UpdateN32(buf: seq<Byte>, ghost words: nat)
      requires Valid() && |buf| == 4 * words
      modifies this
      ensures Valid() && data == old(data) + Swapped(buf, 0, words)
    {
      var len, pos: nat := |buf|, 0;
      ghost var rounds: nat, done: nat := words, 0;
      while true
        invariant Pending(0) && len == 4 * rounds && pos + len == |buf| && done + rounds == words && pos == 4 * done
        invariant data == old(data) + Swapped(buf, 0, done)
        decreases len
      {
        ghost var r: nat := if rounds < 1024 then rounds else 1024;
        var blen := if len < MODX then len else MODX;
        ReducedN32(buf, pos, blen, r, done, old(data));
        len, pos, rounds, done := len - blen, pos + blen, rounds - r, done + r;
        if len == 0 {
          break;
        }
      }
    }

    /** fletcher16_compute */
    method Compute() returns (r: nat)
      requires Valid()
      ensures r == Sum(data) % 255 * 256 + Weighted(data) % 255
      ensures r == 0 <==> Sum(data) % 255 == 0 && Weighted(data) % 255 == 0
    {
      OnlyData();
      r := c0 * 256 + c1;
    }

    /** fletcher16_final: the bytes to be stored at pos and pos + 1, never zero. */
    method Final(len: nat, pos: nat) returns (x: nat, y: nat)
      requires Valid() && pos + 1 < len <= INT_MAX
      ensures 1 <= x <= 255 && 1 <= y <= 255
      ensures Cong(x, Wrap32((len - pos - 1) * c0 - c1)) && Cong(x + y + c0, 0)
    {
      var d := Wrap32(Wrap32((len - pos - 1) * c0) - c1);
      WrapTwice((len - pos - 1) * c0, c1);
      x, y := CheckBytes(d, c0);
    }

    /** The sums depend on the data only, not on how it was divided among updates. */
    lemma OnlyData()
      requires Valid()
      ensures c0 == Sum(data) % 255 && c1 == Weighted(data) % 255
    {
      RunFromZero(data);
      Reduced(c0, Sum(data));
      Reduced(c1, Weighted(data));
    }
  }

  /** The remainder as C computes it. */
  function TruncMod(a: int): (r: int)
    ensures -255 < r < 255 && Cong(r, a) && (a >= 0 ==> r >= 0) && (a <= 0 ==> r <= 0)
  {
    CongIff(if a >= 0 then a % 255 else -((-a) % 255), a);
    if a >= 0 then a % 255 else -((-a) % 255)
  }

  method CheckBytes(d: int, c0: int) returns (x: nat, y: nat)
    requires 0 <= c0 < 255
    ensures 1 <= x <= 255 && 1 <= y <= 255 && Cong(x, d) && Cong(x + y + c0, 0)
  {
    var z := TruncMod(d);
    ghost var m :| Apart(z, d, m);
    if z <= 0 {
      assert Apart(z + 255, d, m + 1);
      z := z + 255;
    }
    x := z;
    var w := 510 - c0 - x;
    assert Apart(x + w + c0, 0, 2);
    if w > 255 {
      assert Apart(x + (w - 255) + c0, 0, 1);
      w := w - 255;
    }
    y := w;
  }

  // ---- Arithmetic of int ----

  const WORD := 0x100000000

  /** A value as an int holds it; overflow wraps around (configure.ac:167). */
  function Wrap32(x: int): (r: int)
    ensures -INT_MAX - 1 <= r <= INT_MAX
  {
    (x + INT_MAX + 1) % WORD - INT_MAX - 1
  }

  lemma WrapTwice(a: int, b: int)
    ensures Wrap32(Wrap32(a) - b) == Wrap32(a - b)
  {
  }

  /** What fletcher16_final computes first is not above INT_MAX. */
  predicate FitsInt(n: nat, c0: int, c1: int) { n * c0 - c1 <= INT_MAX }

  /** It is so for every context iff the checksum is less than 8454661 bytes before the last byte. */
  lemma FinalFits(n: nat)
    ensures n <= 8454660 <==>
      forall c0: int, c1: int :: 0 <= c0 < 255 && 0 <= c1 < 255 ==> FitsInt(n, c0, c1)
  {
    if n <= 8454660 {
      forall c0: int, c1: int | 0 <= c0 < 255 && 0 <= c1 < 255 ensures FitsInt(n, c0, c1) {
        assert n * c0 <= n * 254 by { assert n * (254 - c0) >= 0; }
      }
    } else {
      assert !FitsInt(n, 254, 0);
    }
  }

  /** Each wrapping takes 1 off modulo 255, and there are less than 255. */
  lemma Wrapped(x: int) returns (m: int)
    requires -255 < x <= 254 * INT_MAX
    ensures Cong(Wrap32(x), x - m) && 0 <= m < 255 && (m == 0 <==> x <= INT_MAX)
  {
    m := (x + INT_MAX + 1) / WORD;
    assert Wrap32(x) == x - m * WORD;
    assert m * WORD == m + 255 * (m * 16843009);
    assert Apart(Wrap32(x), x - m, -(m * 16843009));
  }

  // ---- Storing the checksum ----

  lemma {:induction false} SumWrite(d: seq<Byte>, i: nat, v: Byte)
    requires i < |d|
    ensures Sum(d[i := v]) == Sum(d) - d[i] as int + v as int
    ensures Weighted(d[i := v]) == Weighted(d) + (|d| - i) * (v as int - d[i] as int)
    decreases |d|
  {
    var e := d[i := v];
    if i == 0 {
      assert e[1..] == d[1..];
      assert |d| * v as int == |d| * d[0] as int + |d| * (v as int - d[0] as int);
    } else {
      SumWrite(d[1..], i - 1, v);
      assert e[1..] == d[1..][i - 1 := v];
    }
  }

  lemma CongTimes(k: int, a: int)
    requires Cong(a, 0)
    ensures Cong(k * a, 0)
  {
    var m :| Apart(a, 0, m);
    assert k * a == 255 * (k * m);
    assert Apart(k * a, 0, k * m);
  }

  lemma StoredSums(d: seq<Byte>, pos: nat, x: Byte, y: Byte)
    requires pos + 1 < |d| && d[pos] == 0 && d[pos + 1] == 0
    ensures var e, k := d[pos := x][pos + 1 := y], |d| - pos - 1;
      Sum(e) == Sum(d) + x as int + y as int && Weighted(e) == Weighted(d) + (k + 1) * x as int + k * y as int
  {
    SumWrite(d, pos, x);
    SumWrite(d[pos := x], pos + 1, y);
  }

  /** Once a and b are stored, the sum s vanishes and w comes out as -m; kc and t are products. */
  lemma Closing(s: int, w: int, c0: int, c1: int, a: int, b: int, kc: int, t: int, m: int)
    requires Cong(c0, s) && Cong(a + b + c0, 0)
    requires Cong(c1, w) && Cong(a, kc - c1 - m) && Cong(t, 0)
    ensures (s + a + b) % 255 == 0 && Cong(w + t + a - kc, -m)
  {
    var i, j :| Apart(c0, s, i) && Apart(a + b + c0, 0, j);
    assert s + a + b == 255 * (j - i);
    var k, l, n :| Apart(c1, w, k) && Apart(a, kc - c1 - m, l) && Apart(t, 0, n);
    assert Apart(w + t + a - kc, -m, n + l - k);
  }

  lemma Products(k: int, a: int, b: int, c0: int, kc: int, t: int)
    requires kc == k * c0 && t == k * (a + b + c0)
    ensures (k + 1) * a + k * b == t + a - kc
  {
    assert k * (a + b + c0) == k * a + k * b + k * c0;
  }

  /** Data with the checksum stored in two bytes that were zero: its sum is zero, and its weighted sum is
      what the first of the bytes lacks. */
  lemma Checksum(d: seq<Byte>, pos: nat, c0: int, c1: int, x: Byte, y: Byte, m: int)
    requires pos + 1 < |d| && d[pos] == 0 && d[pos + 1] == 0
    requires Cong(c0, Sum(d)) && Cong(c1, Weighted(d))
    requires Cong(x as int, (|d| - pos - 1) * c0 - c1 - m) && Cong(x as int + y as int + c0, 0)
    ensures var e := d[pos := x][pos + 1 := y]; Sum(e) % 255 == 0 && Cong(Weighted(e), -m)
  {
    var k, a, b := |d| - pos - 1, x as int, y as int;
    var kc, t := k * c0, k * (a + b + c0);
    CongTimes(k, a + b + c0);
    Products(k, a, b, c0, kc, t);
    StoredSums(d, pos, x, y);
    Closing(Sum(d), Weighted(d), c0, c1, a, b, kc, t, m);
  }

  /** The checksum with int arithmetic makes both sums vanish iff its computation does not overflow. */
  lemma ChecksumIff(d: seq<Byte>, pos: nat, c0: int, c1: int, x: Byte, y: Byte)
    requires pos + 1 < |d| <= INT_MAX && d[pos] == 0 && d[pos + 1] == 0
    requires 0 <= c0 < 255 && 0 <= c1 < 255 && Cong(c0, Sum(d)) && Cong(c1, Weighted(d))
    requires Cong(x as int, Wrap32((|d| - pos - 1) * c0 - c1)) && Cong(x as int + y as int + c0, 0)
    ensures var e := d[pos := x][pos + 1 := y];
            Sum(e) % 255 == 0 && (Weighted(e) % 255 == 0 <==> FitsInt(|d| - pos - 1, c0, c1))
  {
    var m := Lacks(|d| - pos - 1, c0, c1, x);
    Checksum(d, pos, c0, c1, x, y, m);
    VanishesIff(Weighted(d[pos := x][pos + 1 := y]), m);
  }

  lemma Lacks(k: nat, c0: int, c1: int, x: int) returns (m: int)
    requires k <= INT_MAX && 0 <= c0 < 255 && 0 <= c1 < 255 && Cong(x, Wrap32(k * c0 - c1))
    ensures 0 <= m < 255 && (m == 0 <==> FitsInt(k, c0, c1)) && Cong(x, k * c0 - c1 - m)
  {
    var d := k * c0 - c1;
    ProductBound(k, c0);
    m := Wrapped(d);
    CongTrans(x, Wrap32(d), d - m);
  }

  lemma VanishesIff(w: int, m: int)
    requires Cong(w, -m) && 0 <= m < 255
    ensures w % 255 == 0 <==> m == 0
  {
    CongIff(w, -m);
  }

  lemma ProductBound(k: nat, c: nat)
    requires k <= INT_MAX && c < 255
    ensures 0 <= k * c <= 254 * INT_MAX
  {
    assert k * c <= k * 254 by { assert k * (254 - c) >= 0; }
  }

  lemma CongTrans(a: int, b: int, c: int)
    requires Cong(a, b) && Cong(b, c)
    ensures Cong(a, c)
  {
    var m, n :| Apart(a, b, m) && Apart(b, c, n);
    assert Apart(a, c, m + n);
  }

  /** Process data in any pieces. */
  method Process(d: seq<Byte>, cuts: seq<nat>) returns (c: Context)
    ensures fresh(c) && c.Valid() && c.data == d
  {
    c := new Context();
    var pos: nat := 0;
    for i := 0 to |cuts|
      invariant fresh(c) && c.Valid() && pos <= |d| && c.data == d[..pos]
    {
      var next := if cuts[i] <= |d| - pos then pos + cuts[i] else |d|;
      c.Update(d[pos..next]);
      assert d[..pos] + d[pos..next] == d[..next];
      pos := next;
    }
    c.Update(d[pos..]);
    assert d[..pos] + d[pos..] == d;
  }

  /** Sign zeroed data and check it, in any pieces each time: it passes iff signing does not overflow. */
  method SignAndCheck(d: seq<Byte>, pos: nat, cuts: seq<nat>, cuts': seq<nat>) returns (e: seq<Byte>, r: nat)
    requires pos + 1 < |d| <= INT_MAX && d[pos] == 0 && d[pos + 1] == 0
    ensures |e| == |d| && forall i :: 0 <= i < |d| && i != pos && i != pos + 1 ==> e[i] == d[i]
    ensures r == 0 <==> FitsInt(|d| - pos - 1, Sum(d) % 255, Weighted(d) % 255)
  {
    var c := Process(d, cuts);
    c.OnlyData();
    RunFromZero(d);
    var x, y := c.Final(|d|, pos);
    ChecksumIff(d, pos, c.c0, c.c1, x, y);
    e := d[pos := x][pos + 1 := y];
    var v := Process(e, cuts');
    r := v.Compute();
  }

  lemma {:induction false} ZeroSums(d: seq<Byte>)
    requires forall i :: 0 <= i < |d| ==> d[i] == 0
    ensures Sum(d) == 0 && Weighted(d) == 0
    decreases |d|
  {
    if d != [] {
      ZeroSums(d[1..]);
    }
  }

  /** Data for which signing overflows: one byte of 254 in front of 8454663 zeros, signed behind it. */
  lemma OverflowExample(zeros: seq<Byte>)
    requires |zeros| == 8454663 && forall i :: 0 <= i < |zeros| ==> zeros[i] == 0
    ensures var d := [254] + zeros; !FitsInt(|d| - 1 - 1, Sum(d) % 255, Weighted(d) % 255)
  {
    var d: seq<Byte> := [254] + zeros;
    assert d[1..] == zeros;
    ZeroSums(zeros);
  }
}
