/** Slab allocator (lib/slab.c): pages of equal slots, with a header that holds
    a bitfield of used slots, kept in lists of empty, partial and full pages.

    A page is represented by its address and the record at its beginning.
 */
module Slab {
  import opened Words

  datatype State = SlabEmpty | SlabPartial | SlabFull

  /** struct sl_head */
  datatype Head = Head(state: State, numFull: nat, used: Bits)

  // ---- Page layout ----

  /** n * s and a / b, by repeated addition and subtraction. */
  function Times(n: nat, s: nat): nat {
    if n == 0 then 0 else s + Times(n - 1, s)
  }

  function Div(a: nat, b: nat): (r: nat)
    requires b > 0
    ensures Times(r, b) <= a < Times(r, b) + b
  {
    if a < b then 0 else 1 + Div(a - b, b)
  }

  lemma {:induction false} TimesIs(n: nat, s: nat)
    ensures Times(n, s) == n * s
  {
    if n > 0 {
      TimesIs(n - 1, s);
      assert n * s == s + (n - 1) * s;
    }
  }

  lemma {:induction false} TimesAtLeast(n: nat, s: nat)
    requires s > 0
    ensures n <= Times(n, s) && (n >= 2 ==> 2 * s + (n - 2) <= Times(n, s))
  {
    if n > 0 {
      TimesAtLeast(n - 1, s);
    }
  }

  function AlignUp(n: nat, align: nat): (r: nat)
    requires align > 0
    ensures n <= r < n + align && (n > 0 ==> align <= r)
  {
    Times(Div(n + align - 1, align), align)
  }

  lemma {:induction false} DivMono(a: nat, b: nat, s: nat)
    requires s > 0 && a <= b
    ensures Div(a, s) <= Div(b, s)
    decreases a
  {
    if a >= s {
      DivMono(a - s, b - s, s);
    }
  }

  lemma {:induction false} TimesMono(m: nat, n: nat, s: nat)
    requires m <= n
    ensures Times(m, s) <= Times(n, s)
    decreases n
  {
    if m < n {
      TimesMono(m, n - 1, s);
    }
  }

  lemma AlignMono(m: nat, n: nat, align: nat)
    requires align > 0 && m <= n
    ensures AlignUp(m, align) <= AlignUp(n, align)
  {
    DivMono(m + align - 1, n + align - 1, align);
    TimesMono(Div(m + align - 1, align), Div(n + align - 1, align), align);
  }

  /** If the first guess of more than one word of bitfield was too much, one object still fits. */
  lemma OneFits(page: nat, header: nat, align: nat, objSize: nat, objs: nat, headSize: nat)
    requires 0 < align <= objSize && 32 < objs && Times(objs, objSize) + header <= page
    requires headSize < header + 4 * FieldLen(objs) + align
    ensures objSize + headSize <= page
  {
    TimesAtLeast(objs, objSize);
  }

  /** Words of bitfield for objs objects. */
  function FieldLen(objs: nat): (r: nat)
    ensures objs <= 32 * r < objs + 32
  {
    (objs + 31) / 32
  }

  /** The header with such a bitfield. */
  function HeadSize(header: nat, align: nat, objs: nat): (r: nat)
    requires align > 0
    ensures header + 4 * FieldLen(objs) <= r < header + 4 * FieldLen(objs) + align
  {
    AlignUp(header + 4 * FieldLen(objs), align)
  }

  /** The second guess fits. */
  lemma SecondFits(page: nat, header: nat, align: nat, objSize: nat, headSize: nat)
    requires 0 < align && 0 < objSize && header <= headSize <= page
    requires headSize == HeadSize(header, align, Div(page - header, objSize))
    ensures var objs := Div(page - headSize, objSize); Times(objs, objSize) + HeadSize(header, align, objs) <= page
  {
    var objs, most := Div(page - headSize, objSize), Div(page - header, objSize);
    DivMono(page - headSize, page - header, objSize);
    AlignMono(header + 4 * FieldLen(objs), header + 4 * FieldLen(most), align);
  }

  /** The first guess leaves room for its header. */
  lemma FirstFits(page: nat, header: nat, align: nat, objSize: nat)
    requires 0 < align <= objSize && header + 2 * align + 8 <= page
    ensures HeadSize(header, align, Div(page - header, objSize)) <= page
    ensures objSize + HeadSize(header, align, 1) <= page ==>
      objSize + HeadSize(header, align, Div(page - header, objSize)) <= page
  {
    var objs := Div(page - header, objSize);
    TimesAtLeast(objs, objSize);
    if objs > 32 {
      OneFits(page, header, align, objSize, objs, HeadSize(header, align, objs));
    } else {
      AlignMono(header + 4 * FieldLen(objs), header + 4, align);
    }
  }

  /** sl_new: header, bitfield and objects fit in one page.  No objects per page
      means that the object is too large. */
  method Layout(page: nat, header: nat, align: nat, dataSize: nat)
    returns (objSize: nat, objs: nat, bitfieldLen: nat, headSize: nat)
    requires 0 < align && 0 < dataSize && header + 2 * align + 8 <= page
    ensures dataSize <= objSize < dataSize + align
    ensures objs <= 32 * bitfieldLen && header + 4 * bitfieldLen <= headSize
    ensures Times(objs, objSize) + headSize <= page
    // an object that fits beside a header with one word of bitfield is not too large
    ensures objSize + HeadSize(header, align, 1) <= page ==> objs > 0
  {
    objSize := AlignUp(dataSize, align);
    headSize := header;
    FirstFits(page, header, align, objSize);
    ghost var first := true;
    while true
      invariant header <= headSize <= page
      invariant headSize == if first then header else HeadSize(header, align, Div(page - header, objSize))
      decreases first
    {
      objs := Div(page - headSize, objSize);
      if !first {
        SecondFits(page, header, align, objSize, headSize);
      }
      bitfieldLen := FieldLen(objs);
      headSize := HeadSize(header, align, objs);
      if Times(objs, objSize) + headSize <= page {
        break;
      }
      first := false;
    }
  }

  // ---- Addresses ----

  /** What sl_new settled on. */
  datatype Geometry = Geometry(page: nat, headSize: nat, objSize: nat, objs: nat, words: nat)

  predicate Fits(g: Geometry) {
    && 0 < g.objSize && 0 < g.objs <= 32 * g.words && 0 < g.headSize
    && Times(g.objs, g.objSize) + g.headSize <= g.page
  }

  /** The page of an address (SL_GET_HEAD). */
  function PageOf(g: Geometry, a: nat): nat
    requires g.page > 0
  {
    Times(Div(a, g.page), g.page)
  }

  predicate IsPage(g: Geometry, b: nat)
    requires g.page > 0
  {
    PageOf(g, b) == b
  }

  /** Slot k of the page at b. */
  function SlotAt(g: Geometry, b: nat, k: nat): nat { b + g.headSize + Times(k, g.objSize) }

  lemma {:induction false} DivOfSum(q: nat, s: nat, off: nat)
    requires off < s
    ensures Div(Times(q, s) + off, s) == q
  {
    if q > 0 {
      DivOfSum(q - 1, s, off);
    }
  }

  lemma {:induction false} DivOfTimes(q: nat, s: nat)
    requires s > 0
    ensures Div(Times(q, s), s) == q
  {
    if q > 0 {
      DivOfTimes(q - 1, s);
    }
  }

  lemma SlotInPage(g: Geometry, b: nat, k: nat)
    requires Fits(g) && k < g.objs
    ensures b + g.headSize <= SlotAt(g, b, k) && SlotAt(g, b, k) + g.objSize <= b + g.page
  {
    TimesMono(k + 1, g.objs, g.objSize);
  }

  lemma PageBack(g: Geometry, b: nat, off: nat)
    requires off < g.page && IsPage(g, b)
    ensures PageOf(g, b + off) == b
  {
    var q := Div(b, g.page);
    assert Times(q, g.page) == b;
    DivOfSum(q, g.page, off);
  }

  /** Page and slot are recovered from the address. */
  lemma SlotPage(g: Geometry, b: nat, k: nat)
    requires Fits(g) && k < g.objs && IsPage(g, b)
    ensures PageOf(g, SlotAt(g, b, k)) == b
  {
    var off := SlotAt(g, b, k) - b;
    assert off < g.page by { SlotInPage(g, b, k); }
    PageBack(g, b, off);
  }

  lemma SlotIndex(g: Geometry, b: nat, k: nat)
    requires g.objSize > 0
    ensures Div(SlotAt(g, b, k) - b - g.headSize, g.objSize) == k
  {
    DivOfTimes(k, g.objSize);
    assert SlotAt(g, b, k) - b - g.headSize == Times(k, g.objSize);
  }

  /** Different slots do not overlap. */
  lemma SlotsApart(g: Geometry, b: nat, k: nat, c: nat, l: nat)
    requires Fits(g) && k < g.objs && l < g.objs && IsPage(g, b) && IsPage(g, c)
    requires SlotAt(g, b, k) <= SlotAt(g, c, l) && (b != c || k != l)
    ensures SlotAt(g, b, k) + g.objSize <= SlotAt(g, c, l)
  {
    SlotInPage(g, b, k);
    SlotInPage(g, c, l);
    if b == c {
      if l < k {
        TimesMono(l + 1, k, g.objSize);
      } else {
        TimesMono(k + 1, l, g.objSize);
      }
    } else {
      PagesApart(g, b, c);
    }
  }

  lemma PagesApart(g: Geometry, b: nat, c: nat)
    requires g.page > 0 && IsPage(g, b) && IsPage(g, c) && b != c
    ensures b + g.page <= c || c + g.page <= b
  {
    var p, q := Div(b, g.page), Div(c, g.page);
    if p < q {
      TimesMono(p + 1, q, g.page);
    } else {
      TimesMono(q + 1, p, g.page);
    }
  }

  // ---- Bitfields ----

  /** Number of ones among the first n bits. */
  ghost function Count(s: Bits, n: nat): nat
    requires n <= |s|
  {
    if n == 0 then 0 else Count(s, n - 1) + if s[n - 1] then 1 else 0
  }

  lemma {:induction false} CountWrite(s: Bits, k: nat, v: bool, n: nat)
    requires k < |s| && n <= |s|
    ensures Count(s[k := v], n) == Count(s, n) + if k < n && v != s[k] then (if v then 1 else -1) else 0
    decreases n
  {
    if n > 0 {
      CountWrite(s, k, v, n - 1);
    }
  }

  lemma {:induction false} CountNone(s: Bits, n: nat)
    requires n <= |s|
    ensures Count(s, n) == 0 <==> NoneSet(s, 0, n)
    decreases n
  {
    if n > 0 {
      CountNone(s, n - 1);
      assert NoneSet(s, 0, n) <==> NoneSet(s, 0, n - 1) && !s[n - 1];
    }
  }

  lemma {:induction false} CountAll(s: Bits, m: nat, n: nat)
    requires m <= n <= |s| && AllSet(s, 0, m) && NoneSet(s, m, |s|)
    ensures Count(s, n) == m
    decreases n
  {
    if m < n {
      CountAll(s, m, n - 1);
    } else if n > 0 {
      assert s[n - 1];
      CountPrefix(s, n - 1);
    }
  }

  lemma {:induction false} CountPrefix(s: Bits, n: nat)
    requires n <= |s| && AllSet(s, 0, n)
    ensures Count(s, n) == n
    decreases n
  {
    if n > 0 {
      assert s[n - 1];
      CountPrefix(s, n - 1);
    }
  }

  // ---- Heads and lists ----

  ghost predicate HeadOk(g: Geometry, h: Head) {
    && |h.used| == 32 * g.words && g.objs <= |h.used| && NoneSet(h.used, g.objs, |h.used|)
    && h.numFull == Count(h.used, |h.used|)
    && (h.state == SlabFull ==> AllSet(h.used, 0, g.objs))
    && (h.state == SlabEmpty ==> NoneSet(h.used, 0, g.objs))
  }

  ghost predicate NoDup(s: seq<nat>) { forall i, j :: 0 <= i < j < |s| ==> s[i] != s[j] }

  /** The list holds the pages in the given state, each once. */
  ghost predicate Listed(heads: map<nat, Head>, list: seq<nat>, state: State) {
    NoDup(list) && forall b :: b in list <==> b in heads && heads[b].state == state
  }

  /** sl_head_rem_node */
  function Without(s: seq<nat>, b: nat): (r: seq<nat>)
    ensures b in s ==> |r| == |s| - 1
  {
    if s == [] then []
    else if s[0] == b then s[1..]
    else [s[0]] + Without(s[1..], b)
  }

  lemma {:induction false} WithoutIs(s: seq<nat>, b: nat)
    requires NoDup(s)
    ensures NoDup(Without(s, b)) && forall x :: x in Without(s, b) <==> x in s && x != b
    decreases |s|
  {
    if s != [] {
      var t := s[1..];
      assert s == [s[0]] + t && s[0] !in t;
      if s[0] != b {
        assert NoDup(t);
        WithoutIs(t, b);
      }
    }
  }

  ghost predicate AllListed(heads: map<nat, Head>, empty: seq<nat>, partial: seq<nat>, full: seq<nat>) {
    Listed(heads, empty, SlabEmpty) && Listed(heads, partial, SlabPartial) && Listed(heads, full, SlabFull)
  }

  /** SL_HEAD_CHANGE_STATE, seen from the lists left, entered and not concerned. */
  lemma Moved(heads: map<nat, Head>, b: nat, from: seq<nat>, to: seq<nat>, other: seq<nat>,
              s: State, t: State, u: State)
    requires Listed(heads, from, s) && Listed(heads, to, t) && Listed(heads, other, u) && b in from
    requires s != t && t != u && u != s
    ensures var now := heads[b := heads[b].(state := t)];
            Listed(now, Without(from, b), s) && Listed(now, [b] + to, t) && Listed(now, other, u)
  {
    WithoutIs(from, b);
  }

  lemma Rewritten(heads: map<nat, Head>, b: nat, h: Head, empty: seq<nat>, partial: seq<nat>, full: seq<nat>)
    requires AllListed(heads, empty, partial, full) && b in heads && h.state == heads[b].state
    ensures AllListed(heads[b := h], empty, partial, full)
  {
  }

  /** The slots in use are the live ones. */
  ghost predicate LiveIs(g: Geometry, heads: map<nat, Head>, live: set<(nat, nat)>) {
    forall p: (nat, nat) :: p in live <==> InUse(g, heads, p.0, p.1)
  }

  ghost predicate InUse(g: Geometry, heads: map<nat, Head>, b: nat, k: nat) {
    b in heads && k < g.objs && k < |heads[b].used| && heads[b].used[k]
  }

  lemma LiveWrite(g: Geometry, heads: map<nat, Head>, live: set<(nat, nat)>, b: nat, k: nat, h: Head, v: bool)
    requires LiveIs(g, heads, live) && b in heads && k < g.objs && k < |heads[b].used|
    requires h.used == heads[b].used[k := v]
    ensures LiveIs(g, heads[b := h], if v then live + {(b, k)} else live - {(b, k)})
  {
    var now, l := heads[b := h], if v then live + {(b, k)} else live - {(b, k)};
    forall p: (nat, nat) ensures p in l <==> InUse(g, now, p.0, p.1) {
      assert p in live <==> InUse(g, heads, p.0, p.1);
      assert p == (b, k) <==> p.0 == b && p.1 == k;
    }
  }

  lemma LiveSame(g: Geometry, heads: map<nat, Head>, live: set<(nat, nat)>, b: nat, h: Head)
    requires LiveIs(g, heads, live)
    requires if b in heads then h.used == heads[b].used else NoneSet(h.used, 0, g.objs)
    ensures LiveIs(g, heads[b := h], live)
  {
    forall p: (nat, nat) ensures p in live <==> InUse(g, heads[b := h], p.0, p.1) {
      assert p in live <==> InUse(g, heads, p.0, p.1);
    }
  }

  lemma LiveDrop(g: Geometry, heads: map<nat, Head>, live: set<(nat, nat)>, b: nat)
    requires LiveIs(g, heads, live) && b in heads && NoneSet(heads[b].used, 0, g.objs)
    ensures LiveIs(g, heads - {b}, live)
  {
    forall p: (nat, nat) ensures p in live <==> InUse(g, heads - {b}, p.0, p.1) {
      assert p in live <==> InUse(g, heads, p.0, p.1);
    }
  }

  /** MAX_EMPTY_HEADS */
  const MAX_EMPTY := 1

  class SlabAllocator {
    const g: Geometry
    var heads: map<nat, Head>
    var empty: seq<nat>
    var partial: seq<nat>
    var full: seq<nat>
    var numEmpty: nat
    /** Page and number of each slot handed out. */
    ghost var live: set<(nat, nat)>

    ghost predicate Valid()
      reads this
    {
      && Fits(g)
      && (forall b :: b in heads ==> IsPage(g, b) && HeadOk(g, heads[b]))
      && AllListed(heads, empty, partial, full)
      && numEmpty == |empty| <= MAX_EMPTY
      && LiveIs(g, heads, live)
    }

    constructor (g: Geometry)
      requires Fits(g)
      ensures Valid() && live == {} && this.g == g
    {
      this.g := g;
      heads, empty, partial, full, numEmpty, live := map[], [], [], [], 0, {};
    }

    /** No slot in sight: reuse the empty page, or take a new one. */
    method Provide(newPage: nat)
      requires Valid() && partial == [] && IsPage(g, newPage) && newPage !in heads
      modifies this
      ensures Valid() && live == old(live) && |partial| == 1
      ensures NoneSet(heads[partial[0]].used, 0, g.objs)
    {
      if |empty| > 0 {
        var b := empty[0];
        Moved(heads, b, empty, partial, full, SlabEmpty, SlabPartial, SlabFull);
        LiveSame(g, heads, live, b, heads[b].(state := SlabPartial));
        heads, empty, partial, numEmpty :=
          heads[b := heads[b].(state := SlabPartial)], Without(empty, b), [b] + partial, numEmpty - 1;
      } else {
        var h := Head(SlabPartial, 0, Blank(g));
        CountNone(h.used, |h.used|);
        LiveSame(g, heads, live, newPage, h);
        heads, partial := heads[newPage := h], [newPage] + partial;
      }
    }

    /** Mark slot k of the page used. */
    method Mark(b: nat, k: nat)
      requires Valid() && b in heads && heads[b].state == SlabPartial && k < g.objs && !heads[b].used[k]
      modifies this
      ensures Valid() && live == old(live) + {(b, k)}
    {
      ghost var s := heads[b].used;
      CountWrite(s, k, true, |s|);
      var h := heads[b].(used := heads[b].used[k := true], numFull := heads[b].numFull + 1);
      Rewritten(heads, b, h, empty, partial, full);
      LiveWrite(g, heads, live, b, k, h, true);
      heads, live := heads[b := h], live + {(b, k)};
    }

    /** The page has no free slot left. */
    method Fill(b: nat)
      requires Valid() && b in partial && AllSet(heads[b].used, 0, g.objs)
      modifies this
      ensures Valid() && live == old(live) && |partial| == |old(partial)| - 1 && heads.Keys == old(heads.Keys)
    {
      Moved(heads, b, partial, full, empty, SlabPartial, SlabFull, SlabEmpty);
      LiveSame(g, heads, live, b, heads[b].(state := SlabFull));
      heads, partial, full := heads[b := heads[b].(state := SlabFull)], Without(partial, b), [b] + full;
    }

    /** sl_alloc: newPage is the address that the page allocator would deliver. */
    method Alloc(newPage: nat) returns (a: nat, ghost b: nat, ghost k: nat)
      requires Valid() && IsPage(g, newPage) && newPage !in heads
      modifies this
      ensures Valid() && k < g.objs && IsPage(g, b) && a == SlotAt(g, b, k)
      ensures (b, k) !in old(live) && live == old(live) + {(b, k)}
    {
      while true
        invariant Valid() && newPage !in heads && live == old(live)
        decreases |partial|
      {
        if |partial| == 0 {
          Provide(newPage);
        }
        var h := partial[0];
        var pos := FirstZero(heads[h].used, g.words);
        assert pos > 0 ==> heads[h].used[0];
        if pos < g.objs {
          assert !InUse(g, heads, h, pos);
          b, k := h, pos;
          a := SlotAt(g, h, pos);
          Mark(h, pos);
          return;
        }
        Fill(h);
      }
    }

    /** sl_free */
    method Free(a: nat, ghost b0: nat, ghost k0: nat)
      requires Valid() && (b0, k0) in live && a == SlotAt(g, b0, k0)
      modifies this
      ensures Valid() && live == old(live) - {(b0, k0)}
    {
      assert InUse(g, heads, b0, k0);
      SlotPage(g, b0, k0);
      SlotIndex(g, b0, k0);
      var b := PageOf(g, a);
      var pos := Div(a - b - g.headSize, g.objSize);
      // neither ASSERT_DIE fires
      assert Times(pos, g.objSize) == a - b - g.headSize && pos < g.objs;
      Unmark(b, pos);
    }

    /** Slot k of the page is free again. */
    method Unmark(b: nat, k: nat)
      requires Valid() && (b, k) in live
      modifies this
      ensures Valid() && live == old(live) - {(b, k)}
    {
      assert InUse(g, heads, b, k);
      ghost var s := heads[b].used;
      CountWrite(s, k, false, |s|);
      CountNone(s, |s|);
      CountNone(s[k := false], |s|);
      var h := heads[b].(used := heads[b].used[k := false], numFull := heads[b].numFull - 1);
      if heads[b].numFull == g.objs && heads[b].state == SlabFull {
        Reopen(b, k, h);
      } else {
        if h.state == SlabFull {
          CountAll(s, g.objs, |s|);
          assert false;
        }
        if h.numFull == 0 {
          Release(b, k, h);
        } else {
          Rewritten(heads, b, h, empty, partial, full);
          LiveWrite(g, heads, live, b, k, h, false);
          heads, live := heads[b := h], live - {(b, k)};
        }
      }
    }

    /** A full page gets a free slot. */
    method Reopen(b: nat, k: nat, h: Head)
      requires Valid() && b in full && k < g.objs && k < |heads[b].used|
      requires h.used == heads[b].used[k := false] && h.numFull == Count(h.used, |h.used|) && h.state == SlabFull
      modifies this
      ensures Valid() && live == old(live) - {(b, k)}
    {
      Moved(heads, b, full, partial, empty, SlabFull, SlabPartial, SlabEmpty);
      var now := h.(state := SlabPartial);
      ghost var moved := heads[b := heads[b].(state := SlabPartial)];
      Rewritten(moved, b, now, empty, [b] + partial, Without(full, b));
      assert moved[b := now] == heads[b := now];
      LiveWrite(g, heads, live, b, k, now, false);
      heads, full, partial, live := heads[b := now], Without(full, b), [b] + partial, live - {(b, k)};
    }

    /** A page has no used slot left: keep it as the empty page, or give it back. */
    method Release(b: nat, k: nat, h: Head)
      requires Valid() && b in partial && k < g.objs && k < |heads[b].used|
      requires h.used == heads[b].used[k := false] && h.numFull == 0 && NoneSet(h.used, 0, |h.used|)
      requires Count(h.used, |h.used|) == 0
      modifies this
      ensures Valid() && live == old(live) - {(b, k)}
    {
      LiveWrite(g, heads, live, b, k, h, false);
      WithoutIs(partial, b);
      if numEmpty >= MAX_EMPTY {
        LiveDrop(g, heads[b := h], live - {(b, k)}, b);
        assert heads[b := h] - {b} == heads - {b};
        heads, partial, live := heads - {b}, Without(partial, b), live - {(b, k)};
      } else {
        var now := h.(state := SlabEmpty);
        Moved(heads, b, partial, empty, full, SlabPartial, SlabEmpty, SlabFull);
        ghost var moved := heads[b := heads[b].(state := SlabEmpty)];
        Rewritten(moved, b, now, [b] + empty, Without(partial, b), full);
        assert moved[b := now] == heads[b := now];
        LiveWrite(g, heads, live, b, k, now, false);
        heads, partial, empty, numEmpty, live :=
          heads[b := now], Without(partial, b), [b] + empty, numEmpty + 1, live - {(b, k)};
      }
    }
  }

  function Blank(g: Geometry): (r: Bits)
    ensures |r| == 32 * g.words && NoneSet(r, 0, |r|)
  {
    seq(32 * g.words, _ => false)
  }
}
