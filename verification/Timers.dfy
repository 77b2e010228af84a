/** Timers in a binary heap with back-indices (lib/heap.h, lib/timer.c). */
module Timers {
  class Timer {
    /** 0 for an inactive timer. */
    var expires: int
    var recurrent: nat
    var randomize: nat
    /** Position in the heap, -1 for an inactive timer. */
    var index: int

    /** tm_new */
    constructor (recurrent: nat, randomize: nat)
      ensures expires == 0 && index == -1 && this.recurrent == recurrent && this.randomize == randomize
    {
      expires, index := 0, -1;
      this.recurrent, this.randomize := recurrent, randomize;
    }
  }

  /** h[i] expires no earlier than its parent, for all i of 2..num except j. */
  ghost predicate HeapBut(h: seq<Timer>, num: nat, j: nat)
    requires num < |h|
    reads h`expires
  {
    forall i :: 2 <= i <= num && i != j ==> h[i / 2].expires <= h[i].expires
  }

  /** The same for all i that are not children of j. */
  ghost predicate HeapButBelow(h: seq<Timer>, num: nat, j: nat)
    requires num < |h|
    reads h`expires
  {
    forall i :: 2 <= i <= num && i / 2 != j ==> h[i / 2].expires <= h[i].expires
  }

  /** The children of j expire no earlier than the parent of j. */
  ghost predicate Bridged(h: seq<Timer>, num: nat, j: nat)
    requires num < |h| && j <= num
    reads h`expires
  {
    j >= 2 ==> forall i :: 2 <= i <= num && i / 2 == j ==> h[j / 2].expires <= h[i].expires
  }

  ghost predicate IsHeap(h: seq<Timer>, num: nat)
    requires num < |h|
    reads h`expires
  {
    forall i :: 2 <= i <= num ==> h[i / 2].expires <= h[i].expires
  }

  /** Every timer of the heap knows its position. */
  ghost predicate Linked(h: seq<Timer>)
    reads h
  {
    forall i :: 1 <= i < |h| ==> h[i].index == i
  }

  /** Fired in the order of the times in was, and before those still due. */
  ghost predicate InOrder(was: map<Timer, int>, fired: seq<Timer>, due: set<Timer>) {
    && (forall t :: t in fired ==> t in was) && due <= was.Keys
    && (forall i, j :: 0 <= i < j < |fired| ==> was[fired[i]] <= was[fired[j]])
    && (forall t, d :: t in fired && d in due ==> was[t] <= was[d])
  }

  lemma InOrderMore(was: map<Timer, int>, fired: seq<Timer>, due: set<Timer>, t: Timer)
    requires InOrder(was, fired, due) && t in due && forall d :: d in due ==> was[t] <= was[d]
    ensures InOrder(was, fired + [t], due - {t})
  {
  }

  /** The first of a heap expires first. */
  lemma {:induction false} FirstIsLeast(h: seq<Timer>, num: nat, i: nat)
    requires num < |h| && IsHeap(h, num) && 1 <= i <= num
    ensures h[1].expires <= h[i].expires
    decreases i
  {
    if i > 1 {
      FirstIsLeast(h, num, i / 2);
    }
  }

  /** Beyond num both are the same. */
  ghost predicate SameTail(h: seq<Timer>, h0: seq<Timer>, num: nat) {
    |h| == |h0| && forall i :: num < i < |h| ==> h[i] == h0[i]
  }

  /** Swapping j with its parent u moves the gap up to u. */
  lemma SwapUp(h: seq<Timer>, num: nat, j: nat, u: nat)
    requires num < |h| && 2 <= j <= num && u == j / 2
    requires HeapBut(h, num, j) && Bridged(h, num, j) && h[j].expires <= h[u].expires
    ensures var h' := h[u := h[j]][j := h[u]]; HeapBut(h', num, u) && Bridged(h', num, u)
  {
  }

  /** Swapping j with its least child l moves the gap down to l. */
  lemma SwapDown(h: seq<Timer>, num: nat, j: nat, l: nat)
    requires num < |h| && 1 <= j && 2 <= l <= num && l / 2 == j
    requires HeapButBelow(h, num, j) && Bridged(h, num, j)
    requires h[l].expires <= h[j].expires && forall i :: 2 <= i <= num && i / 2 == j ==> h[l].expires <= h[i].expires
    ensures var h' := h[j := h[l]][l := h[j]]; HeapButBelow(h', num, l) && Bridged(h', num, l)
  {
  }

  /** Moving the last element to j leaves a heap but for j and its surroundings. */
  lemma AfterDelete(h: seq<Timer>, num: nat, j: nat)
    requires 1 <= j <= num < |h| && IsHeap(h, num)
    ensures var h' := h[j := h[num]][num := h[j]];
      && (h'[j].expires < h'[num].expires ==> j < num && HeapBut(h', num - 1, j) && Bridged(h', num - 1, j))
      && (h'[j].expires >= h'[num].expires ==>
            HeapButBelow(h', num - 1, j) && (j < num ==> Bridged(h', num - 1, j)))
  {
  }

  class TimeLoop {
    /** The heap, from position 1 on; position 0 is not used. */
    var timers: seq<Timer>
    var lastTime: int
    const none: Timer
    /** All timers in existence. */
    ghost var known: set<Timer>

    ghost predicate Links()
      reads this, known, timers
    {
      && |timers| >= 1 && timers[0] == none && none !in known
      && Linked(timers)
      && (forall i :: 1 <= i < |timers| ==> timers[i] in known)
      && (forall t :: t in known ==> t.expires >= 0 && (t.expires == 0 ==> t.index == -1))
      && (forall t :: t in known && t.expires != 0 ==> 1 <= t.index < |timers| && timers[t.index] == t)
    }

    /** The timers in the heap are the active ones, each once, in heap order. */
    ghost predicate Valid()
      reads this, known, timers
    {
      Links() && IsHeap(timers, |timers| - 1)
    }

    /** A timer is active iff it is in the heap, and then it is there once. */
    lemma ActiveIff(t: Timer)
      requires Valid() && t in known
      ensures t.expires > 0 <==> t in timers
      ensures forall i, j :: 1 <= i < |timers| && 1 <= j < |timers| && timers[i] == timers[j] ==> i == j
    {
    }

    /** timers_init */
    constructor (now: int)
      ensures Valid() && known == {} && lastTime == now && |timers| == 1
    {
      var t := new Timer(0, 0);
      none := t;
      timers := [t];
      lastTime := now;
      known := {};
    }

    /** Swap two elements, keeping the back-indices (TIMER_SWAP). */
    method Swap(a: nat, b: nat)
      requires Links() && 1 <= a < |timers| && 1 <= b < |timers|
      modifies this`timers, known`index
      ensures Links() && timers == old(timers)[a := old(timers)[b]][b := old(timers)[a]]
    {
      timers := timers[a := timers[b]][b := timers[a]];
      timers[a].index := a;
      timers[b].index := b;
    }

    method MoveUp(num: nat, j: nat, u: nat)
      requires Links() && 2 <= j <= num < |timers| && u == j / 2
      requires HeapBut(timers, num, j) && Bridged(timers, num, j) && timers[j].expires <= timers[u].expires
      modifies this`timers, known`index
      ensures Links() && SameTail(timers, old(timers), num) && HeapBut(timers, num, u) && Bridged(timers, num, u)
    {
      SwapUp(timers, num, j, u);
      Swap(u, j);
    }

    /** HEAP_BUBBLE_UP_J */
    method BubbleUp(num: nat, j0: nat)
      requires Links() && 1 <= j0 <= num < |timers| && HeapBut(timers, num, j0) && Bridged(timers, num, j0)
      modifies this`timers, known`index
      ensures Links() && SameTail(timers, old(timers), num) && IsHeap(timers, num)
    {
      var j := j0;
      while j > 1
        invariant Links() && 1 <= j <= num && SameTail(timers, old(timers), num)
        invariant HeapBut(timers, num, j) && Bridged(timers, num, j)
      {
        var u := j / 2;
        if timers[u].expires < timers[j].expires {
          break;
        }
        MoveUp(num, j, u);
        j := u;
      }
    }

    method MoveDown(num: nat, j: nat, l: nat)
      requires Links() && 1 <= j < l <= num < |timers| && l / 2 == j
      requires HeapButBelow(timers, num, j) && Bridged(timers, num, j) && timers[l].expires <= timers[j].expires
      requires forall i :: 2 <= i <= num && i / 2 == j ==> timers[l].expires <= timers[i].expires
      modifies this`timers, known`index
      ensures Links() && SameTail(timers, old(timers), num) && HeapButBelow(timers, num, l) && Bridged(timers, num, l)
    {
      SwapDown(timers, num, j, l);
      Swap(j, l);
    }

    /** HEAP_BUBBLE_DOWN_J */
    method BubbleDown(num: nat, j0: nat)
      requires Links() && 1 <= j0 && num < |timers|
      requires HeapButBelow(timers, num, j0) && (j0 <= num ==> Bridged(timers, num, j0))
      modifies this`timers, known`index
      ensures Links() && SameTail(timers, old(timers), num) && IsHeap(timers, num)
    {
      var j := j0;
      while true
        invariant Links() && 1 <= j && SameTail(timers, old(timers), num)
        invariant HeapButBelow(timers, num, j) && (j <= num ==> Bridged(timers, num, j))
        decreases num - j
      {
        var l := LeastChild(num, j);
        if l == 0 {
          break;
        }
        MoveDown(num, j, l);
        j := l;
      }
    }

    /** The child to swap j with; 0 if the order below j is right. */
    method LeastChild(num: nat, j: nat) returns (l: nat)
      requires num < |timers| && 1 <= j && HeapButBelow(timers, num, j)
      ensures l == 0 ==> IsHeap(timers, num)
      ensures l != 0 ==> j < l <= num && l / 2 == j && timers[l].expires <= timers[j].expires
      ensures l != 0 ==> forall i :: 2 <= i <= num && i / 2 == j ==> timers[l].expires <= timers[i].expires
    {
      l := 2 * j;
      if l > num {
        return 0;
      }
      assert forall i :: 2 <= i <= num && i / 2 == j ==> i == l || i == l + 1;
      if timers[j].expires < timers[l].expires && (l == num || timers[j].expires < timers[l + 1].expires) {
        return 0;
      }
      if l != num && timers[l + 1].expires < timers[l].expires {
        l := l + 1;
      }
    }

    /** A new timer, not yet active. */
    method Register(t: Timer)
      requires Valid() && t != none && t !in known && t.expires == 0 && t.index == -1
      modifies this`known
      ensures Valid() && known == old(known) + {t}
    {
      known := known + {t};
    }

    /** tm_set for an inactive timer: HEAP_INSERT. */
    method Insert(t: Timer, when: int)
      requires Valid() && t in known && t.expires == 0 && when > 0
      modifies this`timers, known`index, t`expires
      ensures Valid() && t.expires == when
    {
      var tc := |timers|;
      t.index, t.expires, timers := tc, when, timers + [t];
      BubbleUp(tc, tc);
    }

    /** tm_set for an active timer that is to expire later: HEAP_INCREASE. */
    method Postpone(t: Timer, when: int)
      requires Valid() && t in known && 0 < t.expires < when
      modifies this`timers, known`index, t`expires
      ensures Valid() && t.expires == when
    {
      t.expires := when;
      BubbleDown(|timers| - 1, t.index);
    }

    /** tm_set for an active timer that is to expire earlier: HEAP_DECREASE. */
    method Hasten(t: Timer, when: int)
      requires Valid() && t in known && 0 < when < t.expires
      modifies this`timers, known`index, t`expires
      ensures Valid() && t.expires == when
    {
      t.expires := when;
      BubbleUp(|timers| - 1, t.index);
    }

    /** tm_set */
    method Set(t: Timer, when: int)
      requires Valid() && t in known && when > 0
      modifies this`timers, known`index, t`expires
      ensures Valid() && t.expires == when
    {
      if t.expires == 0 {
        Insert(t, when);
      } else if t.expires < when {
        Postpone(t, when);
      } else if t.expires > when {
        Hasten(t, when);
      }
    }

    /** HEAP_DELETE: the timer ends up behind the heap. */
    method Delete(j: nat)
      requires Valid() && 1 <= j < |timers|
      modifies this`timers, known`index
      ensures Links() && |timers| == |old(timers)| && IsHeap(timers, |timers| - 2)
      ensures timers[|timers| - 1] == old(timers[j])
    {
      var num := |timers| - 1;
      AfterDelete(timers, num, j);
      Swap(j, num);
      num := num - 1;
      if timers[j].expires < timers[num + 1].expires {
        BubbleUp(num, j);
      } else {
        BubbleDown(num, j);
      }
    }

    /** tm_stop */
    method Stop(t: Timer)
      requires Valid() && t in known
      modifies this`timers, known`index, t`expires
      ensures Valid() && t.expires == 0
    {
      if t.expires == 0 {
        return;
      }
      Delete(t.index);
      PopLast(t);
    }

    /** Take the timer behind the heap off. */
    method PopLast(t: Timer)
      requires Links() && |timers| >= 2 && IsHeap(timers, |timers| - 2) && t in known && timers[|timers| - 1] == t
      modifies this`timers, t`index, t`expires
      ensures Valid() && t.expires == 0
    {
      timers, t.index, t.expires := timers[..|timers| - 1], -1, 0;
    }

    /** When a recurrent timer that has expired is to expire next: a period after the last time or, if that
        is over, a period from now; later by a random part. */
    method NextTime(t: Timer) returns (when: int)
      requires t.recurrent > 0
      ensures t.expires + t.recurrent > lastTime ==> 0 <= when - t.expires - t.recurrent <= t.randomize
      ensures t.expires + t.recurrent <= lastTime ==> 0 <= when - lastTime - t.recurrent <= t.randomize
    {
      when := t.expires + t.recurrent;
      if when <= lastTime {
        when := lastTime + t.recurrent;
      }
      if t.randomize != 0 {
        var random: nat :| random <= t.randomize;
        when := when + random;
      }
    }

    /** t, which was to expire at was, expires next a period later or, if that is over, a period from now. */
    ghost predicate Periodic(t: Timer, was: int, now: int)
      reads t
    {
      var base := if was + t.recurrent > now then was + t.recurrent else now + t.recurrent;
      base <= t.expires <= base + t.randomize
    }

    /** One round of timers_fire, before the hook is called. */
    method FireFirst(t: Timer)
      requires Valid() && |timers| > 1 && t == timers[1] && t.expires <= lastTime
      modifies this`timers, known`index, t`expires
      ensures Valid() && t in known && (t.expires == 0 || t.expires > lastTime)
      ensures t.expires == 0 <==> t.recurrent == 0
      ensures t.recurrent > 0 ==> Periodic(t, old(t.expires), lastTime)
    {
      if t.recurrent != 0 {
        var when := NextTime(t);
        Set(t, when);
      } else {
        Stop(t);
      }
    }

    /** Active and expired. */
    ghost predicate Due(t: Timer)
      reads this`lastTime, t`expires
    {
      0 < t.expires <= lastTime
    }

    /** timers_fire with hooks that touch no timer: fired lists the hooks called, was the times before. */
    method Fire(now: int) returns (fired: seq<Timer>, ghost was: map<Timer, int>)
      requires Valid() && lastTime <= now
      modifies this`timers, this`lastTime, known`index, known`expires
      ensures Valid() && lastTime == now && was == old(map t | t in known :: t.expires)
      // a hook is called iff its timer had expired, once, and in the order in which the timers expired
      ensures forall t :: t in known ==> (t in fired <==> 0 < was[t] <= now)
      ensures forall t :: t in fired ==> t in known
      ensures forall i, j :: 0 <= i < j < |fired| ==> fired[i] != fired[j] && was[fired[i]] <= was[fired[j]]
      // single timers stop, recurrent ones keep their period unless a whole period has been missed
      ensures forall t :: t in known && t in fired && t.recurrent == 0 ==> t.expires == 0
      ensures forall t :: t in known && t in fired && t.recurrent > 0 ==>
                var base := if was[t] + t.recurrent > now then was[t] + t.recurrent else now + t.recurrent;
                base <= t.expires <= base + t.randomize
      // other timers are as before, and no expired timer is left
      ensures forall t :: t in known && t !in fired ==> t.expires == was[t]
      ensures forall t :: t in known ==> !Due(t)
    {
      UpdateTime(now);
      was := map t | t in known :: t.expires;
      fired := FireAll(was);
      Fired(was, fired);
    }

    /** times_update */
    method UpdateTime(now: int)
      requires Valid() && lastTime <= now
      modifies this`lastTime
      ensures Valid() && lastTime == now
    {
      lastTime := now;
    }

    /** The fate of all timers in the end. */
    lemma Fired(was: map<Timer, int>, fired: seq<Timer>)
      requires was.Keys == known
      requires forall t {:trigger Fate(t, was[t], t in fired, false)} ::
                 t in known ==> Fate(t, was[t], t in fired, false)
      ensures forall t :: t in known ==> (t in fired <==> 0 < was[t] <= lastTime) && !Due(t)
      ensures forall t :: t in known && t !in fired ==> t.expires == was[t]
      ensures forall t :: t in known && t in fired ==>
                if t.recurrent == 0 then t.expires == 0 else Periodic(t, was[t], lastTime)
    {
      forall t | t in known ensures Fate(t, was[t], t in fired, false) {
      }
    }

    /** The loop of timers_fire. */
    method FireAll(ghost was: map<Timer, int>) returns (fired: seq<Timer>)
      requires Valid() && was == map t | t in known :: t.expires
      modifies this`timers, known`index, known`expires
      ensures Valid() && InOrder(was, fired, {}) && forall t :: t in fired ==> t in known
      ensures forall i, j :: 0 <= i < j < |fired| ==> fired[i] != fired[j]
      ensures was.Keys == known
      ensures forall t {:trigger Fate(t, was[t], t in fired, false)} ::
                t in known ==> Fate(t, was[t], t in fired, false)
    {
      fired := [];
      ghost var due := set t | t in known && Due(t);
      while |timers| > 1 && timers[1].expires <= lastTime
        invariant Valid() && Progress(was, fired, due) && InOrder(was, fired, due)
        decreases due
      {
        fired, due := FireNext(timers[1], fired, due, was);
      }
      NoneDue();
      forall t | t in known ensures t !in due && Fate(t, was[t], t in fired, false) {
        assert Fate(t, was[t], t in fired, t in due);
      }
      assert due == {};
    }

    /** One round: the first timer has expired. */
    method FireNext(t: Timer, fired0: seq<Timer>, ghost due0: set<Timer>, ghost was: map<Timer, int>)
      returns (fired: seq<Timer>, ghost due: set<Timer>)
      requires Valid() && |timers| > 1 && t == timers[1] && t.expires <= lastTime && Progress(was, fired0, due0)
      requires InOrder(was, fired0, due0)
      modifies this`timers, known`index, known`expires
      ensures Valid() && Progress(was, fired, due) && InOrder(was, fired, due) && due < due0
    {
      assert t in known && Due(t);
      assert Fate(t, was[t], t in fired0, t in due0);
      forall d | d in due0 ensures Due(d) && d.expires == was[d] {
        assert Fate(d, was[d], d in fired0, d in due0);
      }
      FirstOfDue(t, due0);
      InOrderMore(was, fired0, due0, t);
      FireFirst(t);
      due, fired := due0 - {t}, fired0 + [t];
      forall u | u in known ensures Fate(u, was[u], u in fired, u in due) {
        assert old(Fate(u, was[u], u in fired0, u in due0));
      }
    }

    /** What has become of a timer that was to expire at was. */
    ghost predicate Fate(t: Timer, was: int, fired: bool, due: bool)
      reads this`lastTime, t
    {
      && (due <==> Due(t)) && (fired <==> 0 < was <= lastTime && !due)
      && (!fired ==> t.expires == was)
      && (fired ==> if t.recurrent == 0 then t.expires == 0 else Periodic(t, was, lastTime))
    }

    /** The timers fired so far are those that were due and are not any more. */
    ghost predicate Progress(was: map<Timer, int>, fired: seq<Timer>, due: set<Timer>)
      reads this`known, this`lastTime, known
    {
      && was.Keys == known && due <= known && (forall t :: t in fired ==> t in known)
      && (forall t {:trigger Fate(t, was[t], t in fired, t in due)} ::
            t in known ==> Fate(t, was[t], t in fired, t in due))
      && (forall i, j :: 0 <= i < j < |fired| ==> fired[i] != fired[j])
    }

    /** The first of the heap has expired no later than any other that is due. */
    lemma FirstOfDue(t: Timer, due: set<Timer>)
      requires Valid() && |timers| > 1 && t == timers[1] && due <= known && forall d :: d in due ==> Due(d)
      ensures forall d :: d in due ==> t.expires <= d.expires
    {
      forall d | d in due ensures t.expires <= d.expires {
        FirstIsLeast(timers, |timers| - 1, d.index);
      }
    }

    /** If the first timer has not expired, none has. */
    lemma NoneDue()
      requires Valid() && (|timers| > 1 ==> timers[1].expires > lastTime)
      ensures forall t :: t in known ==> !Due(t)
    {
      forall t | t in known ensures !Due(t) {
        if t.expires > 0 {
          FirstIsLeast(timers, |timers| - 1, t.index);
        }
      }
    }
  }
}
