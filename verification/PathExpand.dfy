/** What matching an AS path with sets means (nest/a-path.c:881-902): a run of adjacent sets stands
    for any sequence of AS numbers taken from them in order, and the path matches a mask iff one of
    the sequences it stands for does, by plain wildcard matching.
 */
module PathExpand {
  import opened PathMatch

  // ---- Wildcard matching of a list of AS numbers ----

  ghost predicate AllSatisfy(x: MaskItem, s: seq<nat>)
    requires IsStep(x)
  {
    forall k :: 0 <= k < |s| ==> Satisfies(x, s[k])
  }

  /** The usual reading of a mask: * stands for any part of the list, + for one or more of its item. */
  ghost predicate Wildcard(q: seq<nat>, mask: seq<MaskItem>)
    decreases |mask|
  {
    if mask == [] then q == []
    else if mask[0].Asterisk? then exists k: nat :: k <= |q| && Wildcard(q[k..], mask[1..])
    else if mask[0].Loop? then
      |mask| > 1 &&
      if IsStep(mask[1]) then
        exists k: nat :: 1 <= k <= |q| && AllSatisfy(mask[1], q[..k]) && Wildcard(q[k..], mask[2..])
      else Wildcard(q, mask[1..])
    else q != [] && Satisfies(mask[0], q[0]) && Wildcard(q[1..], mask[1..])
  }

  // ---- What a path stands for ----

  ghost predicate FirstOfRun(p: seq<Elem>, i: nat)
    requires i < |p|
  {
    i == 0 || !p[i - 1].Set?
  }

  /** s may stand for position i: members of a set in any number, but at least one of the first set of a run. */
  ghost predicate Piece(p: seq<Elem>, i: nat, s: seq<nat>)
    requires i < |p|
  {
    match p[i]
    case Asn(n) => s == [n]
    case Set(ns) => (forall k :: 0 <= k < |s| ==> s[k] in ns) && (FirstOfRun(p, i) ==> s != [])
  }

  /** The positions from i on may stand for q. */
  ghost predicate Expands(p: seq<Elem>, i: nat, q: seq<nat>)
    requires i <= |p|
    decreases |p| - i
  {
    if i == |p| then q == []
    else exists n: nat :: n <= |q| && Piece(p, i, q[..n]) && Expands(p, i + 1, q[n..])
  }

  /** Some sequence that the path stands for matches the mask. */
  ghost predicate SomeMatches(p: seq<Elem>, mask: seq<MaskItem>) {
    exists q :: Expands(p, 0, q) && Wildcard(q, mask)
  }

  /** The first set of every run has members. */
  ghost predicate Headed(p: seq<Elem>) {
    forall i :: 0 <= i < |p| && Empty(p[i]) ==> !FirstOfRun(p, i)
  }

  predicate Empty(e: Elem) { e.Set? && e.asns == [] }

  // ---- Walks of the automaton ----

  predicate Member(e: Elem, a: nat) {
    match e
    case Asn(n) => a == n
    case Set(ns) => a in ns
  }

  /** The automaton takes the numbers of q, one in each step, from state i to the final state. */
  ghost predicate Walks(p: seq<Elem>, i: nat, q: seq<nat>)
    decreases |q|
  {
    if q == [] then i == |p|
    else i < |p| && Member(p[i], q[0]) && exists k: nat :: Next(p, i, k) && Walks(p, k, q[1..])
  }

  /** As Expands, but at least one number stands for position i. */
  ghost predicate ExpandsNow(p: seq<Elem>, i: nat, q: seq<nat>)
    requires i <= |p|
  {
    if i == |p| then q == []
    else exists n: nat :: 1 <= n <= |q| && Piece(p, i, q[..n]) && Expands(p, i + 1, q[n..])
  }

  lemma NowWitness(p: seq<Elem>, i: nat, q: seq<nat>, n: nat)
    requires i < |p| && 1 <= n <= |q| && Piece(p, i, q[..n]) && Expands(p, i + 1, q[n..])
    ensures ExpandsNow(p, i, q) && Expands(p, i, q)
  {
  }

  lemma NowExpands(p: seq<Elem>, i: nat, q: seq<nat>)
    requires i <= |p|
    ensures ExpandsNow(p, i, q) ==> Expands(p, i, q)
    ensures i == |p| || p[i].Asn? || FirstOfRun(p, i) ==> (ExpandsNow(p, i, q) <==> Expands(p, i, q))
  {
  }

  /** Behind a set, any other set of its run may be next. */
  lemma {:induction false} AfterSet(p: seq<Elem>, i: nat, q: seq<nat>)
    requires i < |p| && p[i].Set?
    ensures Expands(p, i + 1, q) <==> exists k: nat :: i < k <= RunEnd(p, i) && ExpandsNow(p, k, q)
    decreases |p| - i
  {
    NowExpands(p, i + 1, q);
    if i + 1 < |p| && p[i + 1].Set? {
      AfterSet(p, i + 1, q);
      assert q[..0] == [] && q[0..] == q;
      assert Piece(p, i + 1, q[..0]);
    }
  }

  /** One more number of the same set. */
  lemma MoreOfSet(p: seq<Elem>, i: nat, q: seq<nat>)
    requires i < |p| && p[i].Set? && q != [] && q[0] in p[i].asns && ExpandsNow(p, i, q[1..])
    ensures ExpandsNow(p, i, q)
  {
    var n: nat :| 1 <= n <= |q[1..]| && Piece(p, i, q[1..][..n]) && Expands(p, i + 1, q[1..][n..]);
    var s := q[..n + 1];
    assert q[1..][n..] == q[n + 1..];
    forall k | 0 <= k < |s| ensures s[k] in p[i].asns {
      if k > 0 {
        assert s[k] == q[1..][..n][k - 1];
      }
    }
    NowWitness(p, i, q, n + 1);
  }

  lemma LessOfSet(p: seq<Elem>, i: nat, q: seq<nat>, n: nat)
    requires i < |p| && p[i].Set? && 1 < n <= |q| && Piece(p, i, q[..n]) && Expands(p, i + 1, q[n..])
    ensures q[0] in p[i].asns && ExpandsNow(p, i, q[1..])
  {
    var s := q[1..][..n - 1];
    assert q[1..][n - 1..] == q[n..] && q[..n][0] == q[0];
    forall k | 0 <= k < |s| ensures s[k] in p[i].asns {
      assert s[k] == q[..n][k + 1];
    }
    NowWitness(p, i, q[1..], n - 1);
  }

  /** The walks from a state are the sequences the positions from there on stand for. */
  lemma {:induction false} WalksExpand(p: seq<Elem>, i: nat, q: seq<nat>)
    requires i <= |p| && Walks(p, i, q)
    ensures ExpandsNow(p, i, q)
    decreases |q|
  {
    if q != [] {
      var k: nat :| Next(p, i, k) && Walks(p, k, q[1..]);
      WalksExpand(p, k, q[1..]);
      if p[i].Set? && k == i {
        MoreOfSet(p, i, q);
      } else {
        NowExpands(p, k, q[1..]);
        if p[i].Set? {
          AfterSet(p, i, q[1..]);
        }
        assert q[..1] == [q[0]];
        NowWitness(p, i, q, 1);
      }
    }
  }

  lemma {:induction false} ExpandWalks(p: seq<Elem>, i: nat, q: seq<nat>)
    requires i <= |p| && ExpandsNow(p, i, q)
    ensures Walks(p, i, q)
    decreases |q|
  {
    if i < |p| {
      var n: nat :| 1 <= n <= |q| && Piece(p, i, q[..n]) && Expands(p, i + 1, q[n..]);
      assert q[..n][0] == q[0];
      var k: nat;
      if p[i].Asn? {
        NowExpands(p, i + 1, q[1..]);
        k := i + 1;
      } else if n > 1 {
        LessOfSet(p, i, q, n);
        k := i;
      } else {
        AfterSet(p, i, q[1..]);
        k :| i < k <= RunEnd(p, i) && ExpandsNow(p, k, q[1..]);
      }
      ExpandWalks(p, k, q[1..]);
      assert Next(p, i, k);
    }
  }

  // ---- Around empty sets ----

  /** Where to take a number instead of an empty set: the last set before it that has members. */
  function Instead(p: seq<Elem>, i: nat): (r: nat)
    ensures r <= i
  {
    if 0 < i < |p| && Empty(p[i]) && p[i - 1].Set? then Instead(p, i - 1) else i
  }

  lemma {:induction false} InsteadFacts(p: seq<Elem>, i: nat)
    requires Headed(p) && i < |p|
    ensures var j := Instead(p, i); !Empty(p[j]) && RunEnd(p, j) == RunEnd(p, i) && p[j].Set? == p[i].Set?
  {
    if Empty(p[i]) {
      InsteadFacts(p, i - 1);
    }
  }

  lemma {:induction false} InsteadGrows(p: seq<Elem>, i: nat, k: nat)
    requires i <= k < |p| && p[i].Set? && k < RunEnd(p, i)
    ensures Instead(p, i) <= Instead(p, k)
  {
    if i < k && Empty(p[k]) {
      InsteadGrows(p, i, k - 1);
    }
  }

  /** Steps can be taken at positions with members only. */
  lemma InsteadStep(p: seq<Elem>, x: MaskItem, i: nat, k: nat)
    requires Headed(p) && IsStep(x) && Step(p, x, i, k)
    ensures Step(p, x, Instead(p, i), Instead(p, k)) && !Empty(p[Instead(p, i)])
  {
    InsteadFacts(p, i);
    if p[i].Set? && k < RunEnd(p, i) {
      InsteadGrows(p, i, k);
    } else {
      assert k < |p| && p[k].Set? ==> FirstOfRun(p, k);
    }
  }

  // ---- The mask ----

  lemma MemberFor(p: seq<Elem>, x: MaskItem, i: nat) returns (a: nat)
    requires IsStep(x) && i < |p| && Matches(p[i], x) && !Empty(p[i])
    ensures Satisfies(x, a) && Member(p[i], a)
  {
    if p[i].Asn? {
      a := p[i].asn;
    } else if x.Question? {
      a := p[i].asns[0];
    } else {
      a :| a in p[i].asns && Satisfies(x, a);
    }
  }

  /** A number for a step. */
  lemma StepRead(p: seq<Elem>, x: MaskItem, i: nat, k: nat, rest: seq<nat>) returns (a: nat)
    requires Headed(p) && IsStep(x) && Step(p, x, i, k) && Walks(p, Instead(p, k), rest)
    ensures Satisfies(x, a) && Walks(p, Instead(p, i), [a] + rest)
  {
    InsteadStep(p, x, i, k);
    a := MemberFor(p, x, Instead(p, i));
    assert ([a] + rest)[1..] == rest;
  }

  /** Numbers for n steps, in front of those for the rest. */
  lemma {:induction false} StepsRead(p: seq<Elem>, x: MaskItem, n: nat, i: nat, k: nat, rest: seq<nat>)
    returns (s: seq<nat>)
    requires Headed(p) && IsStep(x) && i <= |p| && Steps(p, x, n, i, k) && Walks(p, Instead(p, k), rest)
    ensures |s| == n && AllSatisfy(x, s) && Walks(p, Instead(p, i), s + rest)
    decreases n
  {
    if n == 0 {
      s := [];
      assert s + rest == rest;
    } else {
      var j: nat :| Step(p, x, i, j) && Steps(p, x, n - 1, j, k);
      var t := StepsRead(p, x, n - 1, j, k, rest);
      var a := StepRead(p, x, i, j, t + rest);
      s := [a] + t;
      assert s + rest == [a] + (t + rest);
    }
  }

  /** A walk that takes numbers satisfying the item first. */
  lemma {:induction false} ReadSteps(p: seq<Elem>, x: MaskItem, n: nat, i: nat, q: seq<nat>) returns (k: nat)
    requires IsStep(x) && i <= |p| && n <= |q| && Walks(p, i, q) && AllSatisfy(x, q[..n])
    ensures k <= |p| && Steps(p, x, n, i, k) && Walks(p, k, q[n..])
    decreases n
  {
    if n == 0 {
      k := i;
      assert q[0..] == q;
    } else {
      var j: nat :| Next(p, i, j) && Walks(p, j, q[1..]);
      assert q[..n][0] == q[0];
      assert Step(p, x, i, j);
      assert q[1..][..n - 1] == q[..n][1..] && q[1..][n - 1..] == q[n..];
      k := ReadSteps(p, x, n - 1, j, q[1..]);
    }
  }

  /** What the automaton accepts can be read from some sequence of numbers. */
  lemma {:induction false} AcceptsRead(p: seq<Elem>, mask: seq<MaskItem>, i: nat) returns (q: seq<nat>)
    requires Headed(p) && i <= |p| && Accepts(p, mask, i)
    ensures Walks(p, Instead(p, i), q) && Wildcard(q, mask)
    decreases |mask|
  {
    if mask == [] {
      q := [];
    } else if mask[0].Loop? && !IsStep(mask[1]) {
      q := AcceptsRead(p, mask[1..], i);
    } else {
      var n: nat, k: nat, x := FirstItem(p, mask, i);
      StepsBounds(p, x, n, i, k);
      var rest := AcceptsRead(p, mask[Width(mask)..], k);
      var s := StepsRead(p, x, n, i, k, rest);
      q := s + rest;
      assert q[..n] == s && q[n..] == rest;
    }
  }

  /** How many items a mask starts with that belong together. */
  function Width(mask: seq<MaskItem>): nat
    requires mask != []
  {
    if mask[0].Loop? && |mask| > 1 then 2 else 1
  }

  /** The steps taken on the first item. */
  lemma FirstItem(p: seq<Elem>, mask: seq<MaskItem>, i: nat) returns (n: nat, k: nat, x: MaskItem)
    requires mask != [] && Accepts(p, mask, i) && (mask[0].Loop? ==> IsStep(mask[1]))
    ensures IsStep(x) && Steps(p, x, n, i, k) && Accepts(p, mask[Width(mask)..], k)
    ensures mask[0].Asterisk? || (mask[0].Loop? && x == mask[1] && n >= 1) || (x == mask[0] && n == 1)
  {
    if mask[0].Asterisk? {
      x := Question;
      k :| Many(p, i, k) && Accepts(p, mask[1..], k);
      n :| Steps(p, x, n, i, k);
    } else if mask[0].Loop? {
      x := mask[1];
      k :| Plus(p, x, i, k) && Accepts(p, mask[2..], k);
      n :| n >= 1 && Steps(p, x, n, i, k);
    } else {
      x, n := mask[0], 1;
      k :| Step(p, x, i, k) && Accepts(p, mask[1..], k);
      StepsCons(p, x, 0, i, k, k);
    }
  }

  /** What can be read from the numbers of a walk is accepted. */
  lemma {:induction false} ReadAccepts(p: seq<Elem>, mask: seq<MaskItem>, i: nat, q: seq<nat>)
    requires i <= |p| && Walks(p, i, q) && Wildcard(q, mask)
    ensures Accepts(p, mask, i)
    decreases |mask|
  {
    if mask == [] {
    } else if mask[0].Asterisk? {
      var n: nat :| n <= |q| && Wildcard(q[n..], mask[1..]);
      var k := ReadSteps(p, Question, n, i, q);
      ReadAccepts(p, mask[1..], k, q[n..]);
      assert Many(p, i, k);
    } else if mask[0].Loop? {
      if IsStep(mask[1]) {
        var n: nat :| 1 <= n <= |q| && AllSatisfy(mask[1], q[..n]) && Wildcard(q[n..], mask[2..]);
        var k := ReadSteps(p, mask[1], n, i, q);
        ReadAccepts(p, mask[2..], k, q[n..]);
        assert Plus(p, mask[1], i, k);
      } else {
        ReadAccepts(p, mask[1..], i, q);
      }
    } else {
      assert q[..1] == [q[0]];
      var k: nat :| Next(p, i, k) && Walks(p, k, q[1..]);
      ReadAccepts(p, mask[1..], k, q[1..]);
      assert Step(p, mask[0], i, k);
    }
  }

  // ---- The result ----

  /** A path matches iff one of the sequences it stands for does. */
  lemma AcceptsIff(p: seq<Elem>, mask: seq<MaskItem>)
    requires Headed(p)
    ensures Accepts(p, mask, 0) <==> SomeMatches(p, mask)
  {
    if Accepts(p, mask, 0) {
      var q := AcceptsRead(p, mask, 0);
      WalksExpand(p, 0, q);
      NowExpands(p, 0, q);
    }
    if SomeMatches(p, mask) {
      var q :| Expands(p, 0, q) && Wildcard(q, mask);
      NowExpands(p, 0, q);
      ExpandWalks(p, 0, q);
      ReadAccepts(p, mask, 0, q);
    }
  }

  lemma NoPiece(p: seq<Elem>, i: nat, s: seq<nat>)
    requires i < |p| && Empty(p[i]) && FirstOfRun(p, i)
    ensures !Piece(p, i, s)
  {
    if s != [] {
      assert s[0] !in p[i].asns;
    }
  }

  lemma {:induction false} NoExpansion(p: seq<Elem>, i: nat, j: nat, q: seq<nat>)
    requires i <= j < |p| && Empty(p[j]) && FirstOfRun(p, j)
    ensures !Expands(p, i, q)
    decreases j - i
  {
    if Expands(p, i, q) {
      var n: nat :| n <= |q| && Piece(p, i, q[..n]) && Expands(p, i + 1, q[n..]);
      if i < j {
        NoExpansion(p, i + 1, j, q[n..]);
      } else {
        NoPiece(p, i, q[..n]);
      }
    }
  }

  /** That holds of all masks iff no run starts with an empty set; valid paths have no empty sets. */
  lemma AllMasksIff(p: seq<Elem>)
    ensures (forall mask :: Accepts(p, mask, 0) <==> SomeMatches(p, mask)) <==> Headed(p)
  {
    if Headed(p) {
      forall mask ensures Accepts(p, mask, 0) <==> SomeMatches(p, mask) {
        AcceptsIff(p, mask);
      }
    } else {
      var j :| 0 <= j < |p| && Empty(p[j]) && FirstOfRun(p, j);
      var mask := [Asterisk];
      ManyIff(p, 0, |p|);
      assert mask[1..] == [];
      assert Accepts(p, mask, 0);
      forall q ensures !Expands(p, 0, q) {
        NoExpansion(p, 0, j, q);
      }
      assert !SomeMatches(p, mask);
    }
  }

  // ---- Paths without sets ----

  ghost predicate Plain(p: seq<Elem>) {
    forall i :: 0 <= i < |p| ==> p[i].Asn?
  }

  function Numbers(p: seq<Elem>): (r: seq<nat>)
    requires Plain(p)
    ensures |r| == |p| && forall i :: 0 <= i < |p| ==> r[i] == p[i].asn
  {
    seq(|p|, i requires 0 <= i < |p| => p[i].asn)
  }

  lemma {:induction false} PlainWalks(p: seq<Elem>, i: nat, q: seq<nat>)
    requires Plain(p) && i <= |p|
    ensures Walks(p, i, q) <==> q == Numbers(p)[i..]
    decreases |q|
  {
    if q != [] && i < |p| {
      PlainWalks(p, i + 1, q[1..]);
      assert q == [q[0]] + q[1..] && Numbers(p)[i..] == [p[i].asn] + Numbers(p)[i + 1..];
      assert Walks(p, i + 1, q[1..]) ==> Next(p, i, i + 1);
    }
  }

  /** On a path without sets, from any position on, the automaton is plain wildcard matching. */
  lemma PlainAccepts(p: seq<Elem>, mask: seq<MaskItem>, i: nat)
    requires Plain(p) && i <= |p|
    ensures Accepts(p, mask, i) <==> Wildcard(Numbers(p)[i..], mask)
  {
    var q := Numbers(p)[i..];
    PlainWalks(p, i, q);
    if Accepts(p, mask, i) {
      var r := AcceptsRead(p, mask, i);
      PlainWalks(p, i, r);
    }
    if Wildcard(q, mask) {
      ReadAccepts(p, mask, i, q);
    }
  }
}
