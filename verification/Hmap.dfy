/** Hierarchical bitmap (lib/bitmap.c): three summary levels over a growing
    bitmap, a summary bit telling that a 256-bit block one level below is full.
 */
module Hmap {
  import opened Words

  /** Numbers and sizes are u32; below this size (in bytes) hmap_max fits 32 bits. */
  const NUMBERS := 0x100000000
  const MAX_SIZE := 0x20000000

  /** The greatest size whose upper levels can be computed without wrapping. */
  const TOP_SIZE := NUMBERS - 8192

  /** B256_SIZE: whole 256-bit blocks. */
  function BlockAlign(b: nat): (r: nat)
    requires b < NUMBERS
    ensures r % 32 == 0 && r < NUMBERS && if b <= NUMBERS - 32 then b <= r < b + 32 else r == 0
  {
    (b + 31) % NUMBERS / 32 * 32
  }

  /** B256_STEP: size of the next level, one bit for each 256-bit block. */
  function StepSize(b: nat): (r: nat)
    requires b < NUMBERS
    ensures r % 32 == 0 && r < NUMBERS && if b <= TOP_SIZE then b <= 256 * r < b + 8192 else r == 0
  {
    (b + 8191) % NUMBERS / 8192 * 32
  }

  /** Block j of a level is full. */
  ghost predicate BlockFull(level: Bits, j: nat) {
    256 * j + 256 <= |level| && AllSet(level, 256 * j, 256 * j + 256)
  }

  /** upper[j] tells whether block j of lower is full; bits without a block are 0. */
  ghost predicate Summary(lower: Bits, upper: Bits) {
    forall j :: 0 <= j < |upper| ==> (upper[j] <==> BlockFull(lower, j))
  }

  ghost predicate SummaryBut(lower: Bits, upper: Bits, n: nat) {
    forall j :: 0 <= j < |upper| && j != n ==> (upper[j] <==> BlockFull(lower, j))
  }

  predicate SizesOk(size: seq<nat>) {
    && |size| == 4
    && size[0] % 32 == 0 && size[0] <= TOP_SIZE
    && size[1] == StepSize(size[0]) && size[2] == StepSize(size[1]) && size[3] == 32
  }

  // ---- Steps ----

  lemma OtherBlock(level: Bits, n: nat, v: bool, j: nat)
    requires n < |level| && j != n / 256
    ensures BlockFull(level[n := v], j) <==> BlockFull(level, j)
  {
    if 256 * j + 256 <= |level| {
      assert forall k :: 256 * j <= k < 256 * j + 256 ==> level[n := v][k] == level[k];
    }
  }

  lemma BitSet(lower: Bits, upper: Bits, n: nat)
    requires n < |lower| && Summary(lower, upper)
    ensures SummaryBut(lower[n := true], upper, n / 256)
    ensures !BlockFull(lower[n := true], n / 256) ==> Summary(lower[n := true], upper)
  {
    var now := lower[n := true];
    forall j | 0 <= j < |upper| && j != n / 256 ensures BlockFull(now, j) <==> BlockFull(lower, j) {
      OtherBlock(lower, n, true, j);
    }
  }

  lemma SummarySet(lower: Bits, upper: Bits, n: nat)
    requires n < |upper| && SummaryBut(lower, upper, n) && BlockFull(lower, n)
    ensures Summary(lower, upper[n := true])
  {
  }

  lemma BitClear(lower: Bits, upper: Bits, n: nat)
    requires n < |lower| && n / 256 < |upper| && Summary(lower, upper)
    ensures Summary(lower[n := false], upper[n / 256 := false])
  {
    var now := lower[n := false];
    assert !now[n];
    forall j | 0 <= j < |upper| && j != n / 256 ensures BlockFull(now, j) <==> BlockFull(lower, j) {
      OtherBlock(lower, n, false, j);
    }
  }

  /** Growing both levels by zeros. */
  lemma Grown(lower: Bits, upper: Bits, lower': Bits, upper': Bits)
    requires Summary(lower, upper) && |lower| % 256 == 0
    requires lower <= lower' && NoneSet(lower', |lower|, |lower'|)
    requires upper <= upper' && NoneSet(upper', |upper|, |upper'|)
    requires |lower| <= 256 * |upper| || |upper'| == |upper|
    ensures Summary(lower', upper')
  {
    forall j | 0 <= j < |upper'| ensures upper'[j] <==> BlockFull(lower', j) {
      if 256 * j + 256 <= |lower| {
        assert upper'[j] == upper[j];
        assert forall k :: 256 * j <= k < 256 * j + 256 ==> lower'[k] == lower[k];
      } else if 256 * j + 256 <= |lower'| {
        assert !lower'[256 * j];
      }
    }
  }

  function Zeros(n: nat): (r: Bits)
    ensures |r| == n && NoneSet(r, 0, n)
  {
    seq(n, _ => false)
  }

  // ---- Growing ----

  /** The size hmap_grow settles on, as long as it does not wrap. */
  function GrowTo(size: nat, need: nat): (r: nat)
    requires 0 < size
    ensures size <= r && need <= r && (r == size || r < 2 * need)
    decreases need - size
  {
    if size < need then GrowTo(2 * size, need) else size
  }

  /** hmap_max stays below 2^32 for all numbers below 2^31. */
  lemma GrowFits(size: nat, n: nat)
    requires 0 < size && 8 * size <= n < NUMBERS / 2
    ensures GrowTo(2 * size, n / 8 + 1) < MAX_SIZE
  {
  }

  /** After growing for n, the 32-bit hmap_max is above n iff it has not wrapped. */
  lemma SeenIffFits(size: nat, n: nat)
    requires 0 < size < MAX_SIZE && 8 * size <= n < NUMBERS
    ensures n < (8 * GrowTo(2 * size, n / 8 + 1)) % NUMBERS <==> GrowTo(2 * size, n / 8 + 1) < MAX_SIZE
  {
    var s := GrowTo(2 * size, n / 8 + 1);
    assert s < 2 * MAX_SIZE;
    if s >= MAX_SIZE {
      assert (8 * s) % NUMBERS == 8 * s - NUMBERS;
    }
  }

  /** From a power of two, growing for any number from 2^31 on wraps. */
  lemma GrowWraps(n: nat)
    requires NUMBERS / 2 <= n < NUMBERS
    ensures GrowTo(2 * 0x10000000, n / 8 + 1) == MAX_SIZE
  {
  }

  /** Doubling a u32 */
  function Twice(s: nat): (r: nat)
    requires s < NUMBERS
    ensures r < NUMBERS && r == if s < NUMBERS / 2 then 2 * s else 2 * s - NUMBERS
  {
    2 * s % NUMBERS
  }

  /** The value of size in hmap_grow after k rounds of its loop. */
  function Doubled(size: nat, k: nat): (r: nat)
    requires size < NUMBERS
    ensures r < NUMBERS
  {
    if k == 0 then Twice(size) else Twice(Doubled(size, k - 1))
  }

  /** The sizes from which the doubling never ends. */
  predicate Stuck(size: nat) { size == 0 || size == NUMBERS / 2 }

  /** The loop of hmap_grow ends iff the size is neither 0 nor 2^31. */
  lemma GrowEnds(size: nat, need: nat)
    requires size < NUMBERS && 0 < need <= MAX_SIZE
    ensures (exists k: nat :: Doubled(size, k) >= need) <==> !Stuck(size)
  {
    if Stuck(size) {
      forall k: nat ensures Doubled(size, k) == 0 {
        DoubledZero(size, k);
      }
    } else {
      DoublingEnds(size, need, 0);
    }
  }

  lemma {:induction false} DoublingEnds(size: nat, need: nat, k: nat)
    requires size < NUMBERS && 0 < need <= MAX_SIZE && 0 < Doubled(size, k)
    ensures exists j: nat :: Doubled(size, j) >= need
    decreases need - Doubled(size, k)
  {
    if Doubled(size, k) < need {
      DoublingEnds(size, need, k + 1);
    }
  }

  lemma {:induction false} DoubledZero(size: nat, k: nat)
    requires size < NUMBERS && Stuck(size)
    ensures Doubled(size, k) == 0
  {
    if k > 0 {
      DoubledZero(size, k - 1);
    }
  }

  /** How hmap_grow ends: the assertion about sizes fails iff a size has wrapped. */
  datatype Outcome = Done | Endless | AssertionFails

  function GrowOutcome(size: nat): Outcome {
    if Stuck(size) then Endless else if 2 * size <= TOP_SIZE then Done else AssertionFails
  }

  /** Sizes of the levels over a bottom level of size s. */
  function Sizes(s: nat, i: nat): (r: nat)
    requires s < NUMBERS
    ensures r < NUMBERS && (s <= TOP_SIZE ==> r <= TOP_SIZE)
  {
    if i == 0 then s else StepSize(Sizes(s, i - 1))
  }

  lemma StepGrows(b: nat, c: nat)
    requires b <= c <= TOP_SIZE
    ensures StepSize(b) <= StepSize(c)
  {
    assert (b + 8191) / 8192 <= (c + 8191) / 8192;
  }

  lemma {:induction false} SizesGrow(s: nat, t: nat, i: nat)
    requires s <= t <= TOP_SIZE
    ensures Sizes(s, i) <= Sizes(t, i)
  {
    if i > 0 {
      SizesGrow(s, t, i - 1);
      StepGrows(Sizes(s, i - 1), Sizes(t, i - 1));
    }
  }

  /** level became level' of n bits by appending zeros. */
  ghost predicate Extended(level: Bits, level': Bits, n: nat) {
    level <= level' && |level'| == n && NoneSet(level', |level|, n)
  }

  class HierMap {
    var size: seq<nat>
    var data: seq<Bits>
    /** The numbers in the map. */
    ghost var numbers: set<nat>

    ghost predicate Shape()
      reads this
    {
      && SizesOk(size) && |data| == 4
      && (forall i :: 0 <= i < 4 ==> |data[i]| == 8 * size[i])
      && (forall n: nat :: n in numbers <==> n < |data[0]| && data[0][n])
    }

    /** Every summary bit is right. */
    ghost predicate Sound()
      reads this
    {
      Shape() && forall i :: 0 <= i < 3 ==> Summary(data[i], data[i + 1])
    }

    /** Moreover hmap_max has not wrapped. */
    ghost predicate Valid()
      reads this
    {
      Sound() && size[0] < MAX_SIZE
    }

    /** hmap_max, a 32-bit number */
    function Max(): (r: nat)
      requires SizesOk(size)
      reads this
      ensures r < NUMBERS && r <= 8 * size[0]
    {
      (8 * size[0]) % NUMBERS
    }

    /** hmap_init.  A size in the last 8 KiB has no upper levels, one in the last 32 bytes wraps to 0. */
    constructor (bytes: nat)
      requires bytes < NUMBERS
      ensures numbers == {} && |size| == 4 && size[0] == BlockAlign(bytes)
      ensures Sound() <==> BlockAlign(bytes) <= TOP_SIZE
      ensures Valid() <==> BlockAlign(bytes) < MAX_SIZE
    {
      var s0 := BlockAlign(bytes);
      var s1 := StepSize(s0);
      var s2 := StepSize(s1);
      size := [s0, s1, s2, 32];
      data := [Zeros(8 * s0), Zeros(8 * s1), Zeros(8 * s2), Zeros(256)];
      numbers := {};
      new;
      forall i | 0 <= i < 3 ensures Summary(data[i], data[i + 1]) {
        forall j: nat ensures !BlockFull(data[i], j) {
          if 256 * j + 256 <= |data[i]| {
            assert !data[i][256 * j];
          }
        }
      }
    }

    /** hmap_test */
    method Test(n: nat) returns (r: bool)
      requires Sound()
      ensures r <==> n in numbers && n < Max()
      ensures Valid() ==> (r <==> n in numbers)
    {
      r := n < Max() && data[0][n];
    }

    /** hmap_grow */
    method Grow(need: nat) returns (o: Outcome)
      requires Sound() && 0 < need <= MAX_SIZE
      modifies this`size, this`data
      ensures o == GrowOutcome(old(size[0]))
      ensures o.Done? ==> Sound() && 0 < old(size[0]) && size[0] == GrowTo(2 * old(size[0]), need)
      ensures o.Endless? ==> size == old(size) && data == old(data)
    {
      var ended, s := GrownSize(size[0], need);
      if !ended {
        return Endless;
      }
      ghost var was, wasSize := data, size;
      var ok;
      ok, size, data := ExtendLevels(size, data, s);
      if !ok {
        return AssertionFails;
      }
      NewSizes(size, s);
      StillSummaries(was, wasSize, data, size);
      return Done;
    }

    /** The size in which n is stored. */
    function SizeFor(n: nat): (r: nat)
      requires SizesOk(size)
      reads this
    {
      if n < Max() || size[0] == 0 then size[0] else GrowTo(2 * size[0], n / 8 + 1)
    }

    /** n is below the 32-bit hmap_max of that size. */
    predicate Fits(n: nat)
      requires SizesOk(size)
      reads this
    {
      n < (8 * SizeFor(n)) % NUMBERS
    }

    /** Storing n ends well, or growing for it does not. */
    function SetOutcome(n: nat): Outcome
      requires SizesOk(size)
      reads this
    {
      if n < Max() then Done else GrowOutcome(size[0])
    }

    /** hmap_set: unless growing goes wrong, the number is stored; it can be seen again iff it fits. */
    method Set(n: nat) returns (o: Outcome)
      requires Sound() && n < NUMBERS
      modifies this
      ensures o == old(SetOutcome(n))
      ensures o.Done? ==> Sound() && numbers == old(numbers) + {n} && size[0] == old(SizeFor(n))
      ensures o.Done? ==> (n < Max() <==> old(Fits(n)))
      ensures o.Done? && old(Valid()) ==> (Valid() <==> old(Fits(n)))
      ensures o.Endless? ==> Sound() && size == old(size) && numbers == old(numbers)
    {
      o := Done;
      if n >= Max() {
        if 0 < size[0] < MAX_SIZE {
          SeenIffFits(size[0], n);
        }
        o := Grow(n / 8 + 1);
      }
      if o.Done? {
        SetBit(n);
      }
    }

    method SetBit(n: nat)
      requires Sound() && n < 8 * size[0] && n < NUMBERS
      modifies this`data, this`numbers
      ensures Sound() && numbers == old(numbers) + {n} && size == old(size)
    {
      InLevels(size, data, n);
      Aligned(size, data);
      numbers := numbers + {n};
      data := SetLevels(data, n);
    }

    /** hmap_clear */
    method Clear(n: nat)
      requires Sound()
      modifies this
      ensures Sound() && size == old(size) && numbers == if n < Max() then old(numbers) - {n} else old(numbers)
      ensures old(Valid()) ==> Valid() && numbers == old(numbers) - {n}
    {
      if n >= Max() {
        return;
      }
      InLevels(size, data, n);
      numbers := numbers - {n};
      data := ClearLevels(data, n);
    }

    /** Setting and testing a number: it is seen iff it fits. */
    method SetAndTest(n: nat) returns (o: Outcome, r: bool)
      requires Sound() && n < NUMBERS
      modifies this
      ensures o == old(SetOutcome(n)) && (o.Done? ==> (r <==> old(Fits(n))))
    {
      o := Set(n);
      r := false;
      if o.Done? {
        r := Test(n);
      }
    }

    /** hmap_first_zero: right iff some 32-bit number is absent. */
    method FirstAbsent() returns (r: nat)
      requires Sound()
      ensures r < NUMBERS
      ensures r !in numbers && (forall k: nat :: k < r ==> k in numbers) <==> !Full(numbers)
      ensures Valid() ==> r <= Max() && !Full(numbers)
    {
      r := FirstInMap(size, data, Max());
      RightUnlessFull(data[0], numbers, size[0] < MAX_SIZE, if size[0] < MAX_SIZE then |data[0]| else NUMBERS, r);
    }
  }

  /** All 32-bit numbers */
  ghost predicate Full(numbers: set<nat>) { forall k: nat :: k < NUMBERS ==> k in numbers }

  /** A map whose hmap_max has wrapped to 0 doubles its size for every number set, until that never ends. */
  method SetWrapped(m: HierMap, n: nat) returns (o: Outcome)
    requires m.Sound() && m.size[0] in {MAX_SIZE, 2 * MAX_SIZE, 4 * MAX_SIZE} && n < NUMBERS
    modifies m
    ensures m.Sound()
    ensures if old(m.size[0]) == 4 * MAX_SIZE then o == Endless else o == Done && m.size[0] == 2 * old(m.size[0])
  {
    assert m.Max() == 0;
    o := m.Set(n);
  }

  /** Four numbers set from 2^28 bytes on, the first of them at least 2^31: the last call never ends. */
  method WrapAndHang(m: HierMap, a: nat, b: nat, c: nat, d: nat) returns (o: Outcome)
    requires m.Sound() && m.size[0] == 0x10000000
    requires NUMBERS / 2 <= a < NUMBERS && b < NUMBERS && c < NUMBERS && d < NUMBERS
    modifies m
    ensures o == Endless
  {
    GrowWraps(a);
    o := m.Set(a);
    o := SetWrapped(m, b);
    o := SetWrapped(m, c);
    o := SetWrapped(m, d);
  }

  // ---- The first absent number ----

  /** Bits of level i that stand for 32-bit numbers. */
  function Cap(i: nat): nat {
    if i == 0 then NUMBERS else if i == 1 then 0x1000000 else if i == 2 then 0x10000 else 256
  }

  ghost function Caps(data: seq<Bits>): (r: seq<nat>)
    ensures |r| == |data| && forall i :: 0 <= i < |data| ==> r[i] == if |data[i]| <= Cap(i) then |data[i]| else Cap(i)
  {
    seq(|data|, i requires 0 <= i < |data| => if |data[i]| <= Cap(i) then |data[i]| else Cap(i))
  }

  /** Below the caps each level has a summary bit for every block, either of all levels or of the caps. */
  ghost predicate Capped(data: seq<Bits>, cap: seq<nat>, small: bool) {
    && |data| == |cap| == 4 && |data[3]| == 256 == cap[3]
    && (forall i :: 0 <= i < 4 ==> 0 <= cap[i] <= |data[i]| && cap[i] <= Cap(i))
    && (forall i :: 0 <= i < 3 ==>
          if small then cap[i] == |data[i]| <= 256 * cap[i + 1] else cap[i] == 256 * cap[i + 1])
  }

  lemma CapsOk(size: seq<nat>, data: seq<Bits>)
    requires SizesOk(size) && |data| == 4 && forall i :: 0 <= i < 4 ==> |data[i]| == 8 * size[i]
    ensures Capped(data, Caps(data), size[0] < MAX_SIZE)
    ensures size[0] >= MAX_SIZE ==> Caps(data)[0] == NUMBERS
  {
  }

  /** r is the first clear bit of a level, below the cap. */
  ghost predicate FirstClear(level: Bits, cap: nat, r: nat) {
    r < cap <= |level| && AllSet(level, 0, r) && !level[r]
  }

  /** The search has come down to level i, to the first clear bit there unless all numbers are present. */
  ghost predicate Searching(data: seq<Bits>, cap: seq<nat>, small: bool, i: nat, r: nat)
    requires |data| == |cap| == 4
  {
    if i >= 4 then r == 0
    else FirstClear(data[i], cap[i], r) || (AllSet(data[0], 0, cap[0]) && (small ==> i == 3 && r == 256))
  }

  /** The search of hmap_first_zero, from the root down. */
  method FirstInLevels(size: seq<nat>, data: seq<Bits>, max: nat, ghost cap: seq<nat>, ghost small: bool)
    returns (r: nat)
    requires |size| == |data| == 4 && max < NUMBERS
    requires forall i :: 0 <= i < 4 ==> |data[i]| == 8 * size[i] && |data[i]| % 256 == 0
    requires forall i :: 0 <= i < 3 ==> Summary(data[i], data[i + 1])
    requires Capped(data, cap, small)
    ensures r < NUMBERS
    ensures FirstClear(data[0], cap[0], r) || AllSet(data[0], 0, cap[0])
    ensures small && !FirstClear(data[0], cap[0], r) ==> r == max
  {
    r := 0;
    for i := 4 downto 0
      invariant r < NUMBERS && Searching(data, cap, small, i, r)
    {
      if 32 * r >= size[i] {
        SearchEnds(data, cap, small, i, r);
        return max;
      }
      var z := FirstZero(data[i][256 * r..256 * r + 256], 8);
      FirstInBlock(data[i], r, z);
      SearchStep(data, cap, small, i, r, z);
      r := (256 * r + z) % NUMBERS;
    }
  }

  method FirstInMap(size: seq<nat>, data: seq<Bits>, max: nat) returns (r: nat)
    requires SizesOk(size) && |data| == 4 && forall i :: 0 <= i < 4 ==> |data[i]| == 8 * size[i]
    requires max < NUMBERS && forall i :: 0 <= i < 3 ==> Summary(data[i], data[i + 1])
    ensures r < NUMBERS
    ensures var small := size[0] < MAX_SIZE;
            var cap := if small then |data[0]| else NUMBERS;
            FirstClear(data[0], cap, r) || (AllSet(data[0], 0, cap) && (small ==> r == max))
  {
    CapsOk(size, data);
    Aligned(size, data);
    r := FirstInLevels(size, data, max, Caps(data), size[0] < MAX_SIZE);
  }

  /** What the search delivers is the first absent number unless all are present. */
  lemma RightUnlessFull(level: Bits, numbers: set<nat>, small: bool, cap: nat, r: nat)
    requires forall n: nat :: n in numbers <==> n < |level| && level[n]
    requires cap <= |level| && r < NUMBERS && if small then cap == |level| < NUMBERS else cap == NUMBERS
    requires FirstClear(level, cap, r) || (AllSet(level, 0, cap) && (small ==> r == cap))
    ensures r !in numbers && (forall k: nat :: k < r ==> k in numbers) <==> !Full(numbers)
    ensures small ==> r <= cap && !Full(numbers)
  {
    if FirstClear(level, cap, r) || small {
      assert r !in numbers;
    } else {
      forall k: nat | k < NUMBERS ensures k in numbers {
        assert level[k];
      }
    }
  }

  lemma SearchStep(data: seq<Bits>, cap: seq<nat>, small: bool, i: nat, r: nat, z: nat)
    requires Capped(data, cap, small) && forall k :: 0 <= k < 3 ==> Summary(data[k], data[k + 1])
    requires i < 4 && Searching(data, cap, small, i + 1, r) && 256 * r + 256 <= |data[i]| && z <= 256
    requires AllSet(data[i], 256 * r, 256 * r + z)
    requires if z < 256 then !data[i][256 * r + z] else BlockFull(data[i], r)
    ensures Searching(data, cap, small, i, (256 * r + z) % NUMBERS)
  {
    if i == 3 {
      if z == 256 {
        AllPresent(data, cap, 3);
      }
    } else if FirstClear(data[i + 1], cap[i + 1], r) {
      SetBelow(data[i], data[i + 1], r);
    }
  }

  lemma SearchEnds(data: seq<Bits>, cap: seq<nat>, small: bool, i: nat, r: nat)
    requires Capped(data, cap, small) && forall k :: 0 <= k < 3 ==> Summary(data[k], data[k + 1])
    requires i < 4 && Searching(data, cap, small, i + 1, r) && 256 * r >= |data[i]|
    ensures AllSet(data[0], 0, cap[0])
  {
    if i < 3 && FirstClear(data[i + 1], cap[i + 1], r) {
      SetBelow(data[i], data[i + 1], r);
      AllPresent(data, cap, i);
    }
  }

  /** Position of n at level i. */
  function Nth(n: nat, i: nat): nat {
    if i == 0 then n else Nth(n, i - 1) / 256
  }

  ghost predicate Reaches(data: seq<Bits>, n: nat) {
    |data| == 4 && forall i :: 0 <= i < 4 ==> Nth(n, i) < |data[i]|
  }

  lemma InLevels(size: seq<nat>, data: seq<Bits>, n: nat)
    requires SizesOk(size) && |data| == 4 && forall i :: 0 <= i < 4 ==> |data[i]| == 8 * size[i]
    requires n < NUMBERS && n < 8 * size[0]
    ensures Reaches(data, n)
  {
    var a, b, c := n / 256, n / 256 / 256, n / 256 / 256 / 256;
    assert Nth(n, 0) == n;
    assert Nth(n, 1) == a;
    assert Nth(n, 2) == b;
    assert Nth(n, 3) == c;
    assert a < 8 * size[1] && b < 8 * size[2] && c < 256;
  }

  lemma Aligned(size: seq<nat>, data: seq<Bits>)
    requires SizesOk(size) && |data| == 4 && forall i :: 0 <= i < 4 ==> |data[i]| == 8 * size[i]
    ensures forall i :: 0 <= i < 4 ==> |data[i]| % 256 == 0
  {
    forall i | 0 <= i < 4 ensures |data[i]| % 256 == 0 {
      assert size[i] % 32 == 0;
      TimesEight(size[i]);
    }
  }

  lemma TimesEight(s: nat)
    requires s % 32 == 0
    ensures (8 * s) % 256 == 0
  {
    assert 8 * s == 256 * (s / 32);
  }

  /** If all summary bits below r are set, so are all bits of their blocks. */
  lemma SetBelow(lower: Bits, upper: Bits, r: nat)
    requires Summary(lower, upper) && r <= |upper| && AllSet(upper, 0, r)
    ensures AllSet(lower, 0, 256 * r)
    ensures r < |upper| && !upper[r] ==> !BlockFull(lower, r)
  {
    forall k | 0 <= k < 256 * r && k < |lower| ensures lower[k] {
      assert upper[k / 256];
    }
  }

  /** A level that is all set has only full levels below it. */
  lemma {:induction false} AllPresent(data: seq<Bits>, cap: seq<nat>, i: nat)
    requires i < |data| == |cap| && AllSet(data[i], 0, cap[i])
    requires forall k :: 0 <= k <= i ==> cap[k] <= |data[k]|
    requires forall k :: 0 <= k < i ==> Summary(data[k], data[k + 1]) && cap[k] <= 256 * cap[k + 1]
    ensures AllSet(data[0], 0, cap[0])
  {
    if i > 0 {
      SetBelow(data[i - 1], data[i], cap[i]);
      AllPresent(data, cap, i - 1);
    }
  }

  /** The first zero z of a block (256 if there is none), in its level. */
  lemma FirstInBlock(level: Bits, r: nat, z: nat)
    requires 256 * r + 256 <= |level| && z <= 256
    requires var b := level[256 * r..256 * r + 256]; AllSet(b, 0, z) && (z < 256 ==> !b[z])
    ensures AllSet(level, 256 * r, 256 * r + z)
    ensures if z < 256 then !level[256 * r + z] else BlockFull(level, r)
  {
    var b := level[256 * r..256 * r + 256];
    forall k | 256 * r <= k < 256 * r + z ensures level[k] { assert level[k] == b[k - 256 * r]; }
  }

  /** Setting a bit at level i makes the summary above the level below right, and leaves one summary bit to do. */
  lemma LevelSet(was: seq<Bits>, i: nat, n: nat)
    requires |was| == 4 && i < 4 && n < |was[i]|
    requires forall k :: 0 <= k < 3 && k + 1 != i ==> Summary(was[k], was[k + 1])
    requires 0 < i ==> SummaryBut(was[i - 1], was[i], n) && BlockFull(was[i - 1], n)
    ensures var now := was[i := was[i][n := true]];
            && (forall k :: 0 <= k < 3 && k != i ==> Summary(now[k], now[k + 1]))
            && (i < 3 ==> SummaryBut(now[i], now[i + 1], n / 256))
            && (i < 3 && !BlockFull(now[i], n / 256) ==> Summary(now[i], now[i + 1]))
  {
    if i > 0 {
      SummarySet(was[i - 1], was[i], n);
    }
    if i < 3 {
      BitSet(was[i], was[i + 1], n);
    }
  }

  /** Levels with n set: set the bit, and go on while its block is full. */
  method SetLevels(was: seq<Bits>, n0: nat) returns (data: seq<Bits>)
    requires Reaches(was, n0) && |was[3]| == 256
    requires forall i :: 0 <= i < 3 ==> Summary(was[i], was[i + 1])
    requires forall i :: 0 <= i < 4 ==> |was[i]| % 256 == 0
    ensures |data| == 4 && data[0] == was[0][n0 := true]
    ensures forall i :: 0 <= i < 4 ==> |data[i]| == |was[i]|
    ensures forall i :: 0 <= i < 3 ==> Summary(data[i], data[i + 1])
  {
    var n: nat := n0;
    data := was;
    for i := 0 to 4
      invariant |data| == 4 && n == Nth(n0, i) && (i < 4 ==> n < |data[i]|)
      invariant i == 0 ==> n == n0 && data[0] == was[0]
      invariant i > 0 ==> data[0] == was[0][n0 := true]
      invariant forall k :: 0 <= k < 4 ==> |data[k]| == |was[k]|
      invariant forall k :: 0 <= k < 3 && k + 1 != i ==> Summary(data[k], data[k + 1])
      invariant 0 < i < 4 ==> SummaryBut(data[i - 1], data[i], n) && BlockFull(data[i - 1], n)
    {
      LevelSet(data, i, n);
      data := data[i := data[i][n := true]];
      n := n / 256;
      var full := TestBlock(data[i], n);
      if !full {
        break;
      }
    }
  }

  method TestBlock(level: Bits, j: nat) returns (full: bool)
    requires 256 * j + 256 <= |level|
    ensures full <==> BlockFull(level, j)
  {
    full := AndAll(level[256 * j..256 * j + 256], 8);
    BlockIs(level, j);
  }

  lemma BlockIs(level: Bits, j: nat)
    requires 256 * j + 256 <= |level|
    ensures BlockFull(level, j) <==> AllSet(level[256 * j..256 * j + 256], 0, 256)
  {
    var b := level[256 * j..256 * j + 256];
    if BlockFull(level, j) {
      assert forall k :: 0 <= k < 256 ==> b[k] == level[256 * j + k];
    }
    if AllSet(b, 0, 256) {
      forall k | 256 * j <= k < 256 * j + 256 ensures level[k] { assert level[k] == b[k - 256 * j]; }
    }
  }

  /** Levels with n cleared, at every level. */
  method ClearLevels(was: seq<Bits>, n0: nat) returns (data: seq<Bits>)
    requires Reaches(was, n0)
    requires forall i :: 0 <= i < 3 ==> Summary(was[i], was[i + 1])
    ensures |data| == 4 && data[0] == was[0][n0 := false]
    ensures forall i :: 0 <= i < 4 ==> |data[i]| == |was[i]|
    ensures forall i :: 0 <= i < 3 ==> Summary(data[i], data[i + 1])
  {
    var n: nat := n0;
    data := was;
    for i := 0 to 4
      invariant |data| == 4 && n == Nth(n0, i) && (i < 4 ==> n < |data[i]|)
      invariant i == 0 ==> n == n0
      invariant forall k :: i <= k < 4 ==> data[k] == was[k]
      invariant i > 0 ==> data[0] == was[0][n0 := false]
      invariant forall k :: 0 <= k < i ==> |data[k]| == |was[k]|
      invariant forall k :: 0 <= k < 3 && k + 1 < i ==> Summary(data[k], data[k + 1])
      invariant 0 < i < 4 ==> Summary(data[i - 1], was[i][n := false])
    {
      if i < 3 {
        BitClear(data[i], data[i + 1], n);
      }
      data := data[i := data[i][n := false]];
      n := n / 256;
    }
  }

  lemma TwiceAligned(s: nat)
    requires s < NUMBERS && s % 32 == 0
    ensures Twice(s) % 32 == 0
  {
    assert s * 2 == 32 * (s / 32 * 2);
    assert s * 2 - NUMBERS == 32 * (s / 32 * 2 - NUMBERS / 32);
  }

  /** Double the size, and go on until it suffices; doubling 0 goes on forever. */
  method GrownSize(size: nat, need: nat) returns (ended: bool, s: nat)
    requires size < NUMBERS && size % 32 == 0 && 0 < need <= MAX_SIZE
    ensures ended <==> !Stuck(size)
    ensures ended ==> s < NUMBERS && s % 32 == 0 && (exists k: nat :: s == Doubled(size, k) >= need)
    ensures ended && size < NUMBERS / 2 ==> s == GrowTo(2 * size, need)
    ensures ended && size >= NUMBERS / 2 ==> s < size
  {
    TwiceAligned(size);
    s := Twice(size);
    ghost var k: nat := 0;
    while s < need
      invariant s < NUMBERS && s % 32 == 0 && s == Doubled(size, k) && (s == 0 <==> Stuck(size))
      invariant 0 < size < NUMBERS / 2 ==> 0 < s && GrowTo(s, need) == GrowTo(2 * size, need)
      invariant size > NUMBERS / 2 ==> s < size
      decreases need - s
    {
      if s == 0 {
        return false, 0;
      }
      TwiceAligned(s);
      s, k := Twice(s), k + 1;
    }
    return true, s;
  }

  lemma NewSizes(size: seq<nat>, s: nat)
    requires |size| == 4 && size[3] == 32 && s % 32 == 0 && s <= TOP_SIZE
    requires forall k :: 0 <= k < 3 ==> size[k] == Sizes(s, k)
    ensures SizesOk(size)
  {
    assert Sizes(s, 1) == StepSize(Sizes(s, 0));
    assert Sizes(s, 2) == StepSize(Sizes(s, 1));
  }

  /** Give each level its new size, filling up with zeros; fail if a level would shrink. */
  method ExtendLevels(size: seq<nat>, data: seq<Bits>, s0: nat) returns (ok: bool, size': seq<nat>, data': seq<Bits>)
    requires SizesOk(size) && |data| == 4 && 0 < size[0] && s0 < NUMBERS
    requires forall i :: 0 <= i < 4 ==> |data[i]| == 8 * size[i]
    ensures ok <==> size[0] <= s0 <= TOP_SIZE
    ensures ok ==> |size'| == |data'| == 4 && size'[3] == size[3] && data'[3] == data[3]
    ensures ok ==> forall k :: 0 <= k < 3 ==> size'[k] == Sizes(s0, k) && Extended(data[k], data'[k], 8 * size'[k])
  {
    var s := s0;
    size', data' := size, data;
    SizesAre(size);
    for i := 0 to 3
      invariant |size'| == |data'| == 4
      invariant forall k :: 0 <= k < i ==> size'[k] == Sizes(s0, k) && Extended(data[k], data'[k], 8 * size'[k])
      invariant forall k :: i <= k < 4 ==> size'[k] == size[k] && data'[k] == data[k]
      invariant s == Sizes(s0, i) && (i > 0 ==> size[0] <= s0) && (i > 1 ==> s0 <= TOP_SIZE)
    {
      LevelGrows(size, s0, i);
      if s < size'[i] {
        return false, size', data';
      }
      data' := data'[i := data'[i] + Zeros(8 * (s - size'[i]))];
      size' := size'[i := s];
      s := StepSize(s);
    }
    return true, size', data';
  }

  /** The assertion about level i. */
  lemma LevelGrows(size: seq<nat>, s: nat, i: nat)
    requires SizesOk(size) && 0 < size[0] && s < NUMBERS && i < 3
    ensures size[0] <= s <= TOP_SIZE ==> size[i] <= Sizes(s, i)
    ensures i == 0 && size[0] <= Sizes(s, i) ==> size[0] <= s
    ensures i == 1 && size[1] <= Sizes(s, i) ==> s <= TOP_SIZE
  {
    SizesAre(size);
    if size[0] <= s <= TOP_SIZE {
      SizesGrow(size[0], s, i);
    }
    assert Sizes(s, 1) == StepSize(Sizes(s, 0));
  }

  lemma SizesAre(size: seq<nat>)
    requires SizesOk(size)
    ensures forall i :: 0 <= i < 3 ==> size[i] == Sizes(size[0], i)
  {
    assert Sizes(size[0], 1) == StepSize(Sizes(size[0], 0));
    assert Sizes(size[0], 2) == StepSize(Sizes(size[0], 1));
  }

  lemma StillSummaries(was: seq<Bits>, wasSize: seq<nat>, data: seq<Bits>, size: seq<nat>)
    requires |was| == |data| == 4 && SizesOk(wasSize) && SizesOk(size)
    requires forall i :: 0 <= i < 3 ==> |was[i]| == 8 * wasSize[i] && Extended(was[i], data[i], 8 * size[i])
    requires |data[3]| == 256 && was[3] == data[3]
    requires forall i :: 0 <= i < 3 ==> Summary(was[i], was[i + 1])
    ensures forall i :: 0 <= i < 3 ==> Summary(data[i], data[i + 1])
  {
    Aligned(wasSize, was);
    Grown(was[0], was[1], data[0], data[1]);
    Grown(was[1], was[2], data[1], data[2]);
    Grown(was[2], was[3], data[2], data[3]);
  }
}
