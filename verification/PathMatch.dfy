/** AS path matching (as_path_match in nest/a-path.c).

    A parsed path is a sequence of positions, each a single AS number or an
    unordered set of them.  Positions are the states of a nondeterministic
    automaton, with one final state after the last position, and the items of a
    path mask are its input.  The matcher keeps a mark for every state and
    updates the marks in place.
 */
module PathMatch {
  datatype Elem = Asn(asn: nat) | Set(asns: seq<nat>)

  datatype MaskItem =
    | Asterisk                        // *
    | Loop                            // +, as prefix operator
    | Question                        // ?
    | Number(asn: nat)
    | Range(from: nat, to: nat)
    | AsnSet(members: set<nat>)

  predicate IsStep(x: MaskItem) { !x.Asterisk? && !x.Loop? }

  // ---- One step of the automaton ----

  /** Does an AS number satisfy the item? */
  predicate Satisfies(x: MaskItem, asn: nat)
    requires IsStep(x)
  {
    match x
    case Question => true
    case Number(n) => asn == n
    case Range(from, to) => from <= asn <= to
    case AsnSet(s) => asn in s
  }

  /** pm_match: a set is matched by any of its members, and ? by everything. */
  predicate Matches(e: Elem, x: MaskItem)
    requires IsStep(x)
  {
    x.Question? ||
    match e
    case Asn(n) => Satisfies(x, n)
    case Set(ns) => exists n :: n in ns && Satisfies(x, n)
  }

  /** First position after the run of sets that starts at i. */
  function RunEnd(p: seq<Elem>, i: nat): (r: nat)
    requires i < |p|
    ensures i < r <= |p|
    ensures forall k :: i < k < r ==> p[k].Set?
    ensures r < |p| && p[i].Set? ==> !p[r].Set?
    ensures !p[i].Set? ==> r == i + 1
    decreases |p| - i
  {
    if p[i].Set? && i + 1 < |p| && p[i + 1].Set? then RunEnd(p, i + 1) else i + 1
  }

  /** pm_mark: after a match at i, a set may be stayed in or the rest of its run
      skipped, a plain AS number is passed. */
  predicate Next(p: seq<Elem>, i: nat, k: nat)
    requires i < |p|
  {
    if p[i].Set? then i <= k <= RunEnd(p, i) else k == i + 1
  }

  /** One step from state i to state k on a matching item. */
  predicate Step(p: seq<Elem>, x: MaskItem, i: nat, k: nat)
    requires IsStep(x)
  {
    i < |p| && Matches(p[i], x) && Next(p, i, k)
  }

  /** n steps on the same item. */
  ghost predicate Steps(p: seq<Elem>, x: MaskItem, n: nat, i: nat, k: nat)
    requires IsStep(x)
  {
    if n == 0 then i == k else exists j: nat :: Step(p, x, i, j) && Steps(p, x, n - 1, j, k)
  }

  /** One or more steps. */
  ghost predicate Plus(p: seq<Elem>, x: MaskItem, i: nat, k: nat)
    requires IsStep(x)
  {
    exists n: nat :: n >= 1 && Steps(p, x, n, i, k)
  }

  /** Any number of steps on anything. */
  ghost predicate Many(p: seq<Elem>, i: nat, k: nat) {
    exists n: nat :: Steps(p, Question, n, i, k)
  }

  // ---- The meaning of a mask ----

  /** Some walk from state i consumes the whole mask and ends in the final state.
      A loop operator binds the item after it; on an asterisk or another loop
      operator it changes nothing. */
  ghost predicate Accepts(p: seq<Elem>, mask: seq<MaskItem>, i: nat)
    decreases |mask|
  {
    if mask == [] then i == |p|
    else if mask[0].Asterisk? then exists k: nat :: Many(p, i, k) && Accepts(p, mask[1..], k)
    else if mask[0].Loop? then
      |mask| > 1 &&
      if IsStep(mask[1]) then exists k: nat :: Plus(p, mask[1], i, k) && Accepts(p, mask[2..], k)
      else Accepts(p, mask[1..], i)
    else exists k: nat :: Step(p, mask[0], i, k) && Accepts(p, mask[1..], k)
  }

  // ---- Closures of the step relation ----

  lemma {:induction false} StepsBounds(p: seq<Elem>, x: MaskItem, n: nat, i: nat, k: nat)
    requires IsStep(x) && i <= |p| && Steps(p, x, n, i, k)
    ensures i <= k <= |p|
  {
    if n > 0 {
      var j: nat :| Step(p, x, i, j) && Steps(p, x, n - 1, j, k);
      StepsBounds(p, x, n - 1, j, k);
    }
  }

  lemma {:induction false} StepsForward(p: seq<Elem>, i: nat, k: nat)
    requires i <= k <= |p|
    ensures Steps(p, Question, k - i, i, k)
    decreases k - i
  {
    if i < k {
      StepsForward(p, i + 1, k);
      assert Step(p, Question, i, i + 1);
    }
  }

  /** An asterisk reaches every state from i on. */
  lemma ManyIff(p: seq<Elem>, i: nat, k: nat)
    requires i <= |p|
    ensures Many(p, i, k) <==> i <= k <= |p|
  {
    if n: nat :| Steps(p, Question, n, i, k) {
      StepsBounds(p, Question, n, i, k);
    }
    if i <= k <= |p| {
      StepsForward(p, i, k);
    }
  }

  lemma RunEndSame(p: seq<Elem>, i: nat, j: nat)
    requires i <= j < |p| && p[i].Set? && j < RunEnd(p, i)
    ensures RunEnd(p, j) == RunEnd(p, i) && p[j].Set?
  {}

  lemma {:induction false} PlusFirst(p: seq<Elem>, x: MaskItem, n: nat, i: nat, k: nat)
    requires IsStep(x) && n >= 1 && Steps(p, x, n, i, k)
    ensures i < |p| && Matches(p[i], x) && (Next(p, i, k) || Plus(p, x, RunEnd(p, i), k))
  {
    var j: nat :| Step(p, x, i, j) && Steps(p, x, n - 1, j, k);
    if n > 1 {
      PlusFirst(p, x, n - 1, j, k);
      if p[i].Set? && j < RunEnd(p, i) {
        RunEndSame(p, i, j);
      } else {
        assert j == RunEnd(p, i);
      }
    }
  }

  lemma StepsCons(p: seq<Elem>, x: MaskItem, n: nat, i: nat, j: nat, k: nat)
    requires IsStep(x) && Step(p, x, i, j) && Steps(p, x, n, j, k)
    ensures Steps(p, x, n + 1, i, k)
  {}

  /** States inside a run of sets need not be stepped from again: further steps
      start at the end of the run. */
  lemma PlusIff(p: seq<Elem>, x: MaskItem, i: nat, k: nat)
    requires IsStep(x)
    ensures Plus(p, x, i, k) <==>
            i < |p| && Matches(p[i], x) && (Next(p, i, k) || Plus(p, x, RunEnd(p, i), k))
  {
    if n: nat :| n >= 1 && Steps(p, x, n, i, k) {
      PlusFirst(p, x, n, i, k);
    }
    if i < |p| && Matches(p[i], x) {
      if Next(p, i, k) {
        StepsCons(p, x, 0, i, k, k);
      }
      if n: nat :| n >= 1 && Steps(p, x, n, RunEnd(p, i), k) {
        StepsCons(p, x, n, i, RunEnd(p, i), k);
      }
    }
  }

  lemma {:induction false} PlusLast(p: seq<Elem>, x: MaskItem, n: nat, i: nat, k: nat) returns (j: nat)
    requires IsStep(x) && i <= |p| && n >= 1 && Steps(p, x, n, i, k)
    ensures i <= j <= |p| && Step(p, x, j, k)
  {
    var i': nat :| Step(p, x, i, i') && Steps(p, x, n - 1, i', k);
    if n == 1 {
      j := i;
    } else {
      j := PlusLast(p, x, n - 1, i', k);
    }
  }

  /** After an asterisk one step reaches as much as many steps do. */
  lemma ManyThenPlus(p: seq<Elem>, x: MaskItem, i: nat, k: nat)
    requires IsStep(x) && i <= |p| && Plus(p, x, i, k)
    ensures exists j: nat :: i <= j <= |p| && Step(p, x, j, k)
  {
    var n: nat :| n >= 1 && Steps(p, x, n, i, k);
    var j := PlusLast(p, x, n, i, k);
  }

  // ---- The mask as the matcher reads it ----

  /** The steps taken on an item, with or without a pending loop operator. */
  ghost predicate To(p: seq<Elem>, x: MaskItem, loop: bool, i: nat, k: nat)
    requires IsStep(x)
  {
    if loop then Plus(p, x, i, k) else Step(p, x, i, k)
  }

  /** The matcher's reading: a loop operator is remembered until the next step. */
  ghost predicate Ends(p: seq<Elem>, mask: seq<MaskItem>, loop: bool, i: nat)
    decreases |mask|
  {
    if mask == [] then i == |p|
    else if mask[0].Asterisk? then exists k: nat :: i <= k <= |p| && Ends(p, mask[1..], loop, k)
    else if mask[0].Loop? then |mask| > 1 && Ends(p, mask[1..], true, i)
    else exists k: nat :: To(p, mask[0], loop, i, k) && Ends(p, mask[1..], false, k)
  }

  ghost predicate EndsLater(p: seq<Elem>, mask: seq<MaskItem>, loop: bool, i: nat) {
    exists k: nat :: i <= k <= |p| && Ends(p, mask, loop, k)
  }

  lemma EndsAsterisk(p: seq<Elem>, mask: seq<MaskItem>, loop: bool, i: nat)
    requires mask != [] && mask[0].Asterisk?
    ensures Ends(p, mask, loop, i) <==> EndsLater(p, mask[1..], loop, i)
  {}

  lemma ToBounds(p: seq<Elem>, x: MaskItem, loop: bool, i: nat, k: nat)
    requires IsStep(x) && i <= |p| && To(p, x, loop, i, k)
    ensures i <= k <= |p| && i < |p|
  {
    if loop {
      var n: nat :| n >= 1 && Steps(p, x, n, i, k);
      StepsBounds(p, x, n, i, k);
    }
  }

  /** A loop operator remembered across an asterisk has no effect. */
  lemma {:induction false} LoopAfterMany(p: seq<Elem>, mask: seq<MaskItem>, i: nat)
    requires i <= |p|
    ensures EndsLater(p, mask, true, i) <==> EndsLater(p, mask, false, i)
    decreases |mask|
  {
    if mask == [] {
      assert Ends(p, mask, true, |p|) && Ends(p, mask, false, |p|);
    } else if mask[0].Asterisk? {
      forall k: nat | i <= k <= |p|
        ensures Ends(p, mask, true, k) <==> Ends(p, mask, false, k)
      {
        LoopAfterMany(p, mask[1..], k);
        EndsAsterisk(p, mask, true, k);
        EndsAsterisk(p, mask, false, k);
      }
    } else if mask[0].Loop? {
      forall k: nat ensures Ends(p, mask, true, k) <==> Ends(p, mask, false, k) {}
    } else {
      var x := mask[0];
      if EndsLater(p, mask, true, i) {
        var k: nat :| i <= k <= |p| && Ends(p, mask, true, k);
        var j: nat :| To(p, x, true, k, j) && Ends(p, mask[1..], false, j);
        ManyThenPlus(p, x, k, j);
        var k': nat :| k <= k' <= |p| && Step(p, x, k', j);
        assert To(p, x, false, k', j);
        assert Ends(p, mask, false, k');
      }
      if EndsLater(p, mask, false, i) {
        var k: nat :| i <= k <= |p| && Ends(p, mask, false, k);
        var j: nat :| To(p, x, false, k, j) && Ends(p, mask[1..], false, j);
        PlusIff(p, x, k, j);
        assert To(p, x, true, k, j);
        assert Ends(p, mask, true, k);
      }
    }
  }

  lemma ManyEnds(p: seq<Elem>, mask: seq<MaskItem>, i: nat)
    requires i <= |p| && forall k: nat :: i <= k <= |p| ==> (Ends(p, mask, false, k) <==> Accepts(p, mask, k))
    ensures EndsLater(p, mask, false, i) <==> exists k: nat :: Many(p, i, k) && Accepts(p, mask, k)
  {
    if EndsLater(p, mask, false, i) {
      var k: nat :| i <= k <= |p| && Ends(p, mask, false, k);
      ManyIff(p, i, k);
      assert Many(p, i, k) && Accepts(p, mask, k);
    }
    if exists k: nat :: Many(p, i, k) && Accepts(p, mask, k) {
      var k: nat :| Many(p, i, k) && Accepts(p, mask, k);
      ManyIff(p, i, k);
      assert Ends(p, mask, false, k);
    }
  }

  /** The matcher's reading of a mask is its meaning. */
  lemma {:induction false} EndsIff(p: seq<Elem>, mask: seq<MaskItem>, i: nat)
    requires i <= |p|
    ensures Ends(p, mask, false, i) <==> Accepts(p, mask, i)
    ensures mask != [] ==> (Ends(p, mask, true, i) <==> Accepts(p, [Loop] + mask, i))
    decreases |mask|
  {
    if mask != [] {
      var x, rest := mask[0], mask[1..];
      var looped := [Loop] + mask;
      assert looped[1..] == mask && looped[2..] == rest && looped[1] == x;
      if x.Asterisk? {
        forall k: nat | i <= k <= |p| ensures Ends(p, rest, false, k) <==> Accepts(p, rest, k) {
          EndsIff(p, rest, k);
        }
        EndsAsterisk(p, mask, true, i);
        EndsAsterisk(p, mask, false, i);
        ManyEnds(p, rest, i);
        LoopAfterMany(p, rest, i);
        assert Accepts(p, looped, i) == Accepts(p, mask, i);
      } else if x.Loop? {
        EndsIff(p, rest, i);
        assert mask == [Loop] + rest;
        assert Accepts(p, looped, i) == Accepts(p, mask, i);
      } else {
        forall k: nat, loop | To(p, x, loop, i, k) ensures Ends(p, rest, false, k) <==> Accepts(p, rest, k) {
          ToBounds(p, x, loop, i, k);
          EndsIff(p, rest, k);
        }
        StepEnds(p, x, rest, i);
        assert Accepts(p, looped, i) <==> exists k: nat :: Plus(p, x, i, k) && Accepts(p, rest, k);
      }
    }
  }

  lemma StepEnds(p: seq<Elem>, x: MaskItem, rest: seq<MaskItem>, i: nat)
    requires IsStep(x)
    requires forall k: nat, loop :: To(p, x, loop, i, k) ==> (Ends(p, rest, false, k) <==> Accepts(p, rest, k))
    ensures (exists k: nat :: To(p, x, false, i, k) && Ends(p, rest, false, k)) <==>
            (exists k: nat :: Step(p, x, i, k) && Accepts(p, rest, k))
    ensures (exists k: nat :: To(p, x, true, i, k) && Ends(p, rest, false, k)) <==>
            (exists k: nat :: Plus(p, x, i, k) && Accepts(p, rest, k))
  {
    forall k: nat ensures To(p, x, false, i, k) == Step(p, x, i, k) && To(p, x, true, i, k) == Plus(p, x, i, k) {}
  }

  // ---- Marks ----

  /** Within a run of sets, the states after a marked one that is not the first
      of the run are marked as well. */
  ghost predicate Closed(p: seq<Elem>, m: seq<bool>)
    requires |m| == |p| + 1
  {
    forall k :: 0 < k && k + 1 < |p| && m[k] && p[k].Set? && p[k - 1].Set? ==> m[k + 1]
  }

  lemma {:induction false} ClosedRun(p: seq<Elem>, m: seq<bool>, a: nat, b: nat)
    requires |m| == |p| + 1 && Closed(p, m) && 0 < a <= b < |p| && m[a]
    requires forall k :: a - 1 <= k < b ==> p[k].Set?
    ensures m[b]
    decreases b - a
  {
    if a < b {
      ClosedRun(p, m, a + 1, b);
    }
  }

  /** State k is reached by the item from a state marked in m, from lo on. */
  ghost predicate Reached(p: seq<Elem>, x: MaskItem, loop: bool, m: seq<bool>, lo: nat, k: nat)
    requires IsStep(x) && |m| == |p| + 1
  {
    exists q: nat :: lo <= q < |p| && m[q] && To(p, x, loop, q, k)
  }

  /** Stopping at or past the last state already done loses nothing: the state the
      loop has come to was marked itself. */
  lemma CutOff(p: seq<Elem>, m: seq<bool>, j: nat, last: nat)
    requires |m| == |p| + 1 && Closed(p, m) && j < last <= |p| && (last < |p| ==> m[last])
    requires j < |p| && last <= RunEnd(p, j)
    ensures RunEnd(p, j) == |p| || m[RunEnd(p, j)]
  {
    var e := RunEnd(p, j);
    if last < e < |p| {
      ClosedRun(p, m, last, e);
    }
  }

  /** pm_mark: mark what a match at i reaches, return the last of it, and widen
      the bounds of the marked interval. */
  method Mark(p: seq<Elem>, marks: array<bool>, i: nat, nl0: int, nh0: int) returns (j: nat, nl: int, nh: int)
    requires i < |p| && marks.Length == |p| + 1
    modifies marks
    ensures j == RunEnd(p, i)
    ensures forall k :: 0 <= k <= |p| ==> (marks[k] <==> old(marks[k]) || Next(p, i, k))
    ensures var l := if p[i].Set? then i else j;
            nl == (if nl0 < 0 || l < nl0 then l else nl0) && nh == (if nh0 < j then j else nh0)
  {
    j := i;
    if p[i].Set? {
      marks[j] := true;
      j := j + 1;
      while j < |p| && p[j].Set?
        invariant i < j <= RunEnd(p, i)
        invariant forall k :: 0 <= k <= |p| ==> (marks[k] <==> old(marks[k]) || i <= k < j)
      {
        marks[j] := true;
        j := j + 1;
      }
    } else {
      j := j + 1;
    }
    marks[j] := true;
    var l := if p[i].Set? then i else j;
    nl := if nl0 < 0 || l < nl0 then l else nl0;
    nh := if nh0 < j then j else nh0;
  }

  /** Bounds of the new marks from lo on. */
  ghost predicate Bounds(marks: array<bool>, lo: nat, nl: int, nh: int)
    reads marks
  {
    && (nh < 0 ==> nl < 0 && forall k :: lo <= k < marks.Length ==> !marks[k])
    && (nh >= 0 ==> lo <= nl <= nh < marks.Length && marks[nl])
    && (nh >= 0 ==> forall k :: lo <= k < marks.Length && marks[k] ==> nl <= k <= nh)
  }

  lemma BoundsDown(marks: array<bool>, i: nat, nl: int, nh: int)
    requires i < marks.Length && !marks[i] && Bounds(marks, i + 1, nl, nh)
    ensures Bounds(marks, i, nl, nh)
  {
    forall k | i <= k < marks.Length && marks[k] ensures i + 1 <= k {}
  }

  lemma ReachedSplit(p: seq<Elem>, x: MaskItem, loop: bool, m: seq<bool>, i: nat, k: nat)
    requires IsStep(x) && |m| == |p| + 1 && i < |p|
    ensures Reached(p, x, loop, m, i, k) <==> (m[i] && To(p, x, loop, i, k)) || Reached(p, x, loop, m, i + 1, k)
  {}

  lemma ReachedUp(p: seq<Elem>, x: MaskItem, loop: bool, m: seq<bool>, lo: nat, k: nat)
    requires IsStep(x) && |m| == |p| + 1 && Reached(p, x, loop, m, lo, k)
    ensures lo <= k <= |p|
  {
    var q: nat :| lo <= q < |p| && m[q] && To(p, x, loop, q, k);
    ToBounds(p, x, loop, q, k);
  }

  lemma ToIff(p: seq<Elem>, x: MaskItem, loop: bool, j: nat, k: nat)
    requires IsStep(x) && j < |p|
    ensures To(p, x, loop, j, k) <==>
            Matches(p[j], x) && (Next(p, j, k) || (loop && To(p, x, loop, RunEnd(p, j), k)))
  {
    PlusIff(p, x, j, k);
  }

  /** How far the steps from i have been marked: d are the states marked so far, and
      all that is missing are the steps from j. */
  ghost predicate Partly(p: seq<Elem>, x: MaskItem, loop: bool, i: nat, d: seq<bool>, j: nat)
    requires IsStep(x) && |d| == |p| + 1
  {
    forall k: nat :: k <= |p| ==> (To(p, x, loop, i, k) <==> d[k] || To(p, x, loop, j, k))
  }

  /** Marking is complete up to what the states above i reach. */
  ghost predicate Fully(p: seq<Elem>, x: MaskItem, loop: bool, m: seq<bool>, i: nat, d: seq<bool>)
    requires IsStep(x) && |d| == |m| == |p| + 1
  {
    && (forall k: nat :: k <= |p| && d[k] ==> To(p, x, loop, i, k))
    && (forall k: nat :: k <= |p| && To(p, x, loop, i, k) ==> d[k] || Reached(p, x, loop, m, i + 1, k))
  }

  /** One more match, at j. */
  lemma OneMatch(p: seq<Elem>, x: MaskItem, loop: bool, m: seq<bool>, i: nat, d: seq<bool>, d': seq<bool>, j: nat,
                 last: nat)
    requires IsStep(x) && |d| == |d'| == |m| == |p| + 1 && Closed(p, m)
    requires i <= j < last <= |p| && (last < |p| ==> m[last])
    requires Partly(p, x, loop, i, d, j) && Matches(p[j], x)
    requires forall k: nat :: k <= |p| ==> (d'[k] <==> d[k] || Next(p, j, k))
    ensures loop && RunEnd(p, j) < last ==> Partly(p, x, loop, i, d', RunEnd(p, j))
    ensures !(loop && RunEnd(p, j) < last) ==> Fully(p, x, loop, m, i, d')
  {
    var e := RunEnd(p, j);
    forall k: nat | k <= |p|
      ensures To(p, x, loop, i, k) <==> d'[k] || (loop && To(p, x, loop, e, k))
    {
      ToIff(p, x, loop, j, k);
    }
    if loop && e >= last {
      CutOff(p, m, j, last);
      forall k: nat | To(p, x, loop, e, k) ensures Reached(p, x, loop, m, i + 1, k) {
        ToBounds(p, x, loop, e, k);
      }
    }
  }

  /** The states from lo on have been done, those below not yet. */
  ghost predicate Swept(p: seq<Elem>, x: MaskItem, loop: bool, m: seq<bool>, cur: seq<bool>, lo: nat)
    requires IsStep(x) && |cur| == |m| == |p| + 1
  {
    && (forall k :: 0 <= k < lo && k <= |p| ==> cur[k] == m[k])
    && (forall k :: lo <= k <= |p| ==> (cur[k] <==> Reached(p, x, loop, m, lo, k)))
  }

  lemma NoMoreMatch(p: seq<Elem>, x: MaskItem, loop: bool, m: seq<bool>, i: nat, d: seq<bool>, j: nat)
    requires IsStep(x) && |d| == |m| == |p| + 1 && Partly(p, x, loop, i, d, j) && j < |p| && !Matches(p[j], x)
    ensures Fully(p, x, loop, m, i, d)
  {
    forall k: nat | k <= |p| ensures To(p, x, loop, i, k) <==> d[k] {
      ToIff(p, x, loop, j, k);
    }
  }

  /** With all steps from i marked, the states from i on have been done. */
  lemma SweptMore(p: seq<Elem>, x: MaskItem, loop: bool, m: seq<bool>, i: nat, was: seq<bool>, d: seq<bool>,
                  cur: seq<bool>)
    requires IsStep(x) && |cur| == |was| == |d| == |m| == |p| + 1 && i < |p| && m[i]
    requires Swept(p, x, loop, m, was, i + 1) && Fully(p, x, loop, m, i, d)
    requires forall k :: 0 <= k <= |p| ==> (cur[k] <==> (k != i && was[k]) || d[k])
    requires forall k :: 0 <= k < i ==> !d[k]
    ensures Swept(p, x, loop, m, cur, i)
  {
    forall k | i <= k <= |p| ensures cur[k] <==> Reached(p, x, loop, m, i, k) {
      ReachedSplit(p, x, loop, m, i, k);
      if Reached(p, x, loop, m, i + 1, k) { ReachedUp(p, x, loop, m, i + 1, k); }
    }
  }

  /** All steps of the item from the marked state i, in place; the states above i
      have been done, last is the lowest of them. */
  method MarkFrom(p: seq<Elem>, x: MaskItem, loop: bool, marks: array<bool>, ghost m: seq<bool>,
                  i: nat, last: nat, nl0: int, nh0: int) returns (nl: int, nh: int)
    requires IsStep(x) && marks.Length == |m| == |p| + 1 && Closed(p, m)
    requires i < last <= |p| && m[i] && (last < |p| ==> m[last])
    requires Swept(p, x, loop, m, marks[..], i + 1) && Bounds(marks, i + 1, nl0, nh0)
    modifies marks
    ensures Swept(p, x, loop, m, marks[..], i) && Bounds(marks, i, nl, nh)
  {
    ghost var was := marks[..];
    marks[i] := false;
    nl, nh := nl0, nh0;
    var j := i;
    var go := true;
    ghost var m1 := marks[..];
    ghost var d := seq(|p| + 1, k => false);
    while go && Matches(p[j], x)
      invariant i <= j <= |p| && (go ==> j < last) && |d| == |p| + 1
      invariant forall k :: 0 <= k <= |p| ==> (marks[k] <==> m1[k] || d[k])
      invariant forall k :: 0 <= k < i ==> !d[k]
      invariant if go then Partly(p, x, loop, i, d, j) else Fully(p, x, loop, m, i, d)
      invariant Bounds(marks, i, nl, nh)
      decreases go, |p| - j
    {
      ghost var j0, d0 := j, d;
      j, nl, nh := Mark(p, marks, j, nl, nh);
      d := seq(|p| + 1, k requires 0 <= k <= |p| => d0[k] || Next(p, j0, k));
      OneMatch(p, x, loop, m, i, d0, d, j0, last);
      go := loop && j < last;
    }
    if go {
      NoMoreMatch(p, x, loop, m, i, d, j);
    }
    SweptMore(p, x, loop, m, i, was, d, marks[..]);
  }

  lemma SkipUnmarked(p: seq<Elem>, x: MaskItem, loop: bool, m: seq<bool>, cur: seq<bool>, i: nat)
    requires IsStep(x) && |cur| == |m| == |p| + 1 && i <= |p| && !m[i] && Swept(p, x, loop, m, cur, i + 1)
    ensures Swept(p, x, loop, m, cur, i)
  {
    forall k | i <= k <= |p| ensures cur[k] <==> Reached(p, x, loop, m, i, k) {
      if i < |p| { ReachedSplit(p, x, loop, m, i, k); }
      if Reached(p, x, loop, m, i + 1, k) { ReachedUp(p, x, loop, m, i + 1, k); }
    }
  }

  lemma SweptAll(p: seq<Elem>, x: MaskItem, loop: bool, m: seq<bool>, cur: seq<bool>, l: nat)
    requires IsStep(x) && |cur| == |m| == |p| + 1 && Swept(p, x, loop, m, cur, l)
    requires forall k :: 0 <= k <= |p| && m[k] ==> l <= k
    ensures forall k :: 0 <= k <= |p| ==> (cur[k] <==> Reached(p, x, loop, m, 0, k))
  {
    forall k | 0 <= k <= |p| ensures cur[k] <==> Reached(p, x, loop, m, 0, k) {
      if Reached(p, x, loop, m, 0, k) {
        var q: nat :| q < |p| && m[q] && To(p, x, loop, q, k);
        assert Reached(p, x, loop, m, l, k);
        ReachedUp(p, x, loop, m, l, k);
      }
    }
  }

  lemma SweptNone(p: seq<Elem>, x: MaskItem, loop: bool, m: seq<bool>, lo: nat)
    requires IsStep(x) && |m| == |p| + 1 && forall k :: lo <= k <= |p| ==> !m[k]
    ensures Swept(p, x, loop, m, m, lo)
  {
  }

  lemma BoundsAll(marks: array<bool>, lo: nat, nl: int, nh: int)
    requires lo <= marks.Length && Bounds(marks, lo, nl, nh) && forall k :: 0 <= k < lo ==> !marks[k]
    ensures Bounds(marks, 0, nl, nh)
  {
  }

  /** One step item: move all marks, in place, from the highest state down. */
  method Sweep(p: seq<Elem>, x: MaskItem, loop: bool, marks: array<bool>, l: nat, h: nat) returns (nl: int, nh: int)
    requires IsStep(x) && marks.Length == |p| + 1 && l <= h <= |p| && !marks[|p|]
    requires Closed(p, marks[..])
    requires forall k :: 0 <= k <= |p| && marks[k] ==> l <= k <= h
    modifies marks
    ensures forall k :: 0 <= k <= |p| ==> (marks[k] <==> Reached(p, x, loop, old(marks[..]), 0, k))
    ensures Bounds(marks, 0, nl, nh)
  {
    ghost var m := marks[..];
    nl, nh := -1, -1;
    var last: nat := |p|;
    SweptNone(p, x, loop, m, h + 1);
    for i := h + 1 downto l
      invariant (i <= last || i == |p| + 1 == last + 1) && last <= |p| && (last < |p| ==> m[last])
      invariant Swept(p, x, loop, m, marks[..], i) && Bounds(marks, i, nl, nh)
    {
      if marks[i] {
        nl, nh := MarkFrom(p, x, loop, marks, m, i, last, nl, nh);
        last := i;
      } else {
        SkipUnmarked(p, x, loop, m, marks[..], i);
        BoundsDown(marks, i, nl, nh);
      }
    }
    BoundsAll(marks, l, nl, nh);
    SweptAll(p, x, loop, m, marks[..], l);
  }

  // ---- The matcher ----

  /** Some marked state leads to acceptance. */
  ghost predicate Alive(p: seq<Elem>, mask: seq<MaskItem>, loop: bool, m: seq<bool>)
    requires |m| == |p| + 1
  {
    exists k: nat :: k <= |p| && m[k] && Ends(p, mask, loop, k)
  }

  /** After an asterisk all states from the lowest marked one on are marked. */
  lemma AsteriskStep(p: seq<Elem>, mask: seq<MaskItem>, loop: bool, m: seq<bool>, l: nat)
    requires |m| == |p| + 1 && mask != [] && mask[0].Asterisk? && l <= |p| && m[l]
    requires forall k :: 0 <= k <= |p| && m[k] ==> l <= k
    ensures Alive(p, mask, loop, m) <==> Alive(p, mask[1..], loop, seq(|p| + 1, k => k >= l))
  {
    var m' := seq(|p| + 1, k => k >= l);
    if Alive(p, mask, loop, m) {
      var k: nat :| k <= |p| && m[k] && Ends(p, mask, loop, k);
      EndsAsterisk(p, mask, loop, k);
      var j: nat :| k <= j <= |p| && Ends(p, mask[1..], loop, j);
      assert m'[j];
    }
    if Alive(p, mask[1..], loop, m') {
      var j: nat :| j <= |p| && m'[j] && Ends(p, mask[1..], loop, j);
      EndsAsterisk(p, mask, loop, l);
      assert m[l] && Ends(p, mask, loop, l);
    }
  }

  /** A step item moves every marked state; the final state has no step. */
  lemma StepStep(p: seq<Elem>, mask: seq<MaskItem>, loop: bool, m: seq<bool>, m0: seq<bool>, m': seq<bool>)
    requires |m| == |m0| == |m'| == |p| + 1 && mask != [] && IsStep(mask[0])
    requires forall k :: 0 <= k < |p| ==> m0[k] == m[k]
    requires forall k :: 0 <= k <= |p| ==> (m'[k] <==> Reached(p, mask[0], loop, m0, 0, k))
    ensures Alive(p, mask, loop, m) <==> Alive(p, mask[1..], false, m')
  {
    if Alive(p, mask, loop, m) {
      var i: nat :| i <= |p| && m[i] && Ends(p, mask, loop, i);
      var k: nat :| To(p, mask[0], loop, i, k) && Ends(p, mask[1..], false, k);
      ToBounds(p, mask[0], loop, i, k);
      assert m'[k];
    }
    if Alive(p, mask[1..], false, m') {
      var k: nat :| k <= |p| && m'[k] && Ends(p, mask[1..], false, k);
      var i: nat :| i < |p| && m0[i] && To(p, mask[0], loop, i, k);
      assert Ends(p, mask, loop, i);
    }
  }

  /** The new marks are closed again. */
  lemma ReachedClosed(p: seq<Elem>, x: MaskItem, loop: bool, m: seq<bool>, m': seq<bool>)
    requires IsStep(x) && |m| == |m'| == |p| + 1
    requires forall k :: 0 <= k <= |p| ==> (m'[k] <==> Reached(p, x, loop, m, 0, k))
    ensures Closed(p, m')
  {
    forall k | 0 < k && k + 1 < |p| && m'[k] && p[k].Set? && p[k - 1].Set?
      ensures m'[k + 1]
    {
      var q: nat :| q < |p| && m[q] && To(p, x, loop, q, k);
      ToNextInRun(p, x, loop, q, k);
    }
  }

  lemma ToNextInRun(p: seq<Elem>, x: MaskItem, loop: bool, q: nat, k: nat)
    requires IsStep(x) && q <= |p| && To(p, x, loop, q, k)
    requires 0 < k && k + 1 < |p| && p[k].Set? && p[k - 1].Set?
    ensures To(p, x, loop, q, k + 1)
  {
    if loop {
      var n: nat :| n >= 1 && Steps(p, x, n, q, k);
      StepsNextInRun(p, x, n, q, k);
    } else {
      StepNextInRun(p, x, q, k);
    }
  }

  lemma StepNextInRun(p: seq<Elem>, x: MaskItem, q: nat, k: nat)
    requires IsStep(x) && Step(p, x, q, k)
    requires 0 < k && k + 1 < |p| && p[k].Set? && p[k - 1].Set?
    ensures Step(p, x, q, k + 1)
  {}

  lemma {:induction false} StepsNextInRun(p: seq<Elem>, x: MaskItem, n: nat, q: nat, k: nat)
    requires IsStep(x) && n >= 1 && Steps(p, x, n, q, k)
    requires 0 < k && k + 1 < |p| && p[k].Set? && p[k - 1].Set?
    ensures Steps(p, x, n, q, k + 1)
  {
    var j: nat :| Step(p, x, q, j) && Steps(p, x, n - 1, j, k);
    if n == 1 {
      StepNextInRun(p, x, q, k);
      StepsCons(p, x, 0, q, k + 1, k + 1);
    } else {
      StepsNextInRun(p, x, n - 1, j, k);
    }
  }

  /** A step item moves the marks st; the mark of the final state has been removed. */
  method TakeItem(p: seq<Elem>, mask: seq<MaskItem>, loop: bool, marks: array<bool>, ghost st: seq<bool>,
                  l: nat, h: nat)
    returns (nl: int, nh: int)
    requires mask != [] && IsStep(mask[0]) && marks.Length == |st| == |p| + 1 && l <= h <= |p| && !marks[|p|]
    requires Closed(p, st) && forall k :: 0 <= k < |p| ==> st[k] == marks[k]
    requires forall k :: 0 <= k <= |p| && marks[k] ==> l <= k <= h
    modifies marks
    ensures Bounds(marks, 0, nl, nh) && Closed(p, marks[..])
    ensures Alive(p, mask, loop, st) <==> Alive(p, mask[1..], false, marks[..])
  {
    ghost var m0 := marks[..];
    nl, nh := Sweep(p, mask[0], loop, marks, l, h);
    StepStep(p, mask, loop, st, m0, marks[..]);
    ReachedClosed(p, mask[0], loop, m0, marks[..]);
  }

  /** An asterisk marks every state from l on. */
  method MarkAll(marks: array<bool>, l: nat)
    requires l <= marks.Length
    modifies marks
    ensures forall k :: 0 <= k < marks.Length ==> (marks[k] <==> l <= k || old(marks[k]))
  {
    var i := l;
    while i < marks.Length
      invariant l <= i <= marks.Length
      invariant forall k :: 0 <= k < marks.Length ==> (marks[k] <==> l <= k < i || old(marks[k]))
    {
      marks[i] := true;
      i := i + 1;
    }
  }

  /** as_path_match: does the parsed path match the mask? */
  method PathMatches(p: seq<Elem>, mask: seq<MaskItem>) returns (r: bool)
    ensures r <==> Accepts(p, mask, 0)
  {
    var marks := new bool[|p| + 1](_ => false);
    var l, h, loop := 0, 0, false;
    marks[0] := true;
    EndsIff(p, mask, 0);
    ghost var st := marks[..];  // the states, including the final one
    var m := 0;
    while m < |mask|
      invariant 0 <= m <= |mask| && marks.Length == |st| == |p| + 1 && 0 <= l <= h <= |p|
      invariant forall k :: 0 <= k < |p| ==> st[k] == marks[k]
      invariant m > 0 && mask[m - 1].Loop? ==> !marks[|p|]
      invariant !(m > 0 && mask[m - 1].Loop?) ==> marks[|p|] == st[|p|]
      invariant st[l] && forall k :: 0 <= k <= |p| && st[k] ==> l <= k <= h
      invariant Closed(p, st)
      invariant m == |mask| && m > 0 && mask[m - 1].Loop? ==> !Accepts(p, mask, 0)
      invariant !(m == |mask| && m > 0 && mask[m - 1].Loop?) ==>
                  (Accepts(p, mask, 0) <==> Alive(p, mask[m..], loop, st))
    {
      marks[|p|] := false;
      var x := mask[m];
      if x.Asterisk? {
        AsteriskStep(p, mask[m..], loop, st, l);
        MarkAll(marks, l);
        h := |p|;
        st := seq(|p| + 1, k => k >= l);
      } else if x.Loop? {
        loop := true;
      } else {
        var nl, nh := TakeItem(p, mask[m..], loop, marks, st, l, h);
        st := marks[..];
        if nh < 0 {
          return false;
        }
        h, l, loop := nh, nl, false;
      }
      m := m + 1;
    }
    return marks[|p|];
  }
}
