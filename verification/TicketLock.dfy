/**
  The ticket lock: a participant draws a ticket, spins until it is served, and hands the
  lock to the next ticket when it is done. Both counters wrap modulo 2^32.
 */
module TicketLock {
  const TICKETS: nat := 0x1_0000_0000

  // ---------------------------------------------------------------- participants

  datatype Phase = Outside | Waiting(ticket: nat) | Holding(ticket: nat)

  /**
    `served` and `queue` record history: releases so far, and who holds or waits, in draw order.
    No step looks at them.
   */
  datatype State = State(nextTicket: nat, nowServing: nat, phases: seq<Phase>, served: nat, queue: seq<nat>)

  datatype Op = Draw | Enter | Leave

  predicate Init(s: State) {
    s.nextTicket == 0 && s.nowServing == 0 && s.served == 0 && s.queue == [] && forall i :: 0 <= i < |s.phases| ==>
      s.phases[i] == Outside
  }

  /** One step of participant `i`: the fetch-and-add, the end of its spin loop, or the release. */
  ghost predicate Step(s: State, i: nat, op: Op, s': State) {
    && i < |s.phases|
    && match op
       case Draw =>
         && s.phases[i] == Outside
         && s' == s.(nextTicket := (s.nextTicket + 1) % TICKETS, phases := s.phases[i := Waiting(s.nextTicket)],
             queue := s.queue + [i])
       case Enter =>
         && s.phases[i].Waiting? && s.phases[i].ticket == s.nowServing
         && s' == s.(phases := s.phases[i := Holding(s.nowServing)])
       case Leave =>
         && s.phases[i].Holding?
         && s' == s.(nowServing := (s.nowServing + 1) % TICKETS, phases := s.phases[i := Outside],
             served := s.served + 1,
                     queue := if s.queue == [] then [] else s.queue[1..])
  }

  /** The ticket at distance `d` from the one being served. */
  function TicketAt(served: nat, d: nat): nat { (served + d) % TICKETS }

  /** The outstanding tickets are distinct and fill the window from the one being served to the next one to draw. */
  ghost predicate Inv(s: State) {
    && s.nowServing == TicketAt(s.served, 0) && s.nextTicket == TicketAt(s.served, |s.queue|)
    && (forall d :: 0 <= d < |s.queue| ==> s.queue[d] < |s.phases|)
    && (forall d, e :: 0 <= d < e < |s.queue| ==> s.queue[d] != s.queue[e])
    && (forall d :: 0 <= d < |s.queue| ==> InLine(s, d))
    && (forall i :: 0 <= i < |s.phases| && s.phases[i] != Outside ==> i in s.queue)
  }

  ghost predicate InLine(s: State, d: nat)
    requires d < |s.queue| && s.queue[d] < |s.phases|
  {
    var p := s.phases[s.queue[d]];
    p != Outside && p.ticket == TicketAt(s.served, d) && (p.Holding? ==> d == 0)
  }

  lemma {:induction false} DistinctBound(q: seq<nat>, n: nat)
    requires forall d :: 0 <= d < |q| ==> q[d] < n
    requires forall d, e :: 0 <= d < e < |q| ==> q[d] != q[e]
    ensures |q| <= n
    decreases n
  {
    if q != [] {
      if n - 1 in q {
        var k :| 0 <= k < |q| && q[k] == n - 1;
        var r := q[..k] + q[k + 1..];
        forall d | 0 <= d < |r|
          ensures r[d] < n - 1
        {
          assert r[d] == if d < k then q[d] else q[d + 1];
        }
        DistinctBound(r, n - 1);
      } else {
        forall d | 0 <= d < |q|
          ensures q[d] < n - 1
        {
          assert q[d] in q;
        }
        DistinctBound(q, n - 1);
      }
    }
  }

  /** With fewer outstanding tickets than numbers, no two tickets look the same. */
  lemma TicketsDiffer(served: nat, d: nat)
    requires d < TICKETS && TicketAt(served, d) == TicketAt(served, 0)
    ensures d == 0
  {
  }

  lemma TicketStep(served: nat, d: nat)
    ensures TicketAt(served + 1, d) == TicketAt(served, d + 1)
    ensures (TicketAt(served, d) + 1) % TICKETS == TicketAt(served, d + 1)
  {
  }

  lemma StepInv(s: State, i: nat, op: Op, s': State)
    requires Inv(s) && Step(s, i, op, s') && |s.phases| < TICKETS
    ensures Inv(s') && |s'.phases| == |s.phases|
    ensures op == Leave || op == Enter ==> s.queue != [] && s.queue[0] == i
  {
    hide TicketAt;
    match op
    case Draw => DrawInv(s, i, s');
    case Enter => EnterInv(s, i, s');
    case Leave => LeaveInv(s, i, s');
  }

  lemma DrawInv(s: State, i: nat, s': State)
    requires Inv(s) && Step(s, i, Draw, s')
    ensures Inv(s') && |s'.phases| == |s.phases|
  {
    hide TicketAt;
    TicketStep(s.served, |s.queue|);
    forall d | 0 <= d < |s.queue|
      ensures s.queue[d] != i
    {
      assert InLine(s, d);
    }
    forall d | 0 <= d < |s'.queue|
      ensures InLine(s', d)
    {
      if d < |s.queue| {
        assert InLine(s, d) && s.queue[d] in s.queue;
      }
    }
  }

  lemma EnterInv(s: State, i: nat, s': State)
    requires Inv(s) && Step(s, i, Enter, s') && |s.phases| < TICKETS
    ensures Inv(s') && |s'.phases| == |s.phases| && s.queue != [] && s.queue[0] == i
  {
    hide TicketAt;
    DistinctBound(s.queue, |s.phases|);
    assert i in s.queue;
    var k :| 0 <= k < |s.queue| && s.queue[k] == i;
    assert InLine(s, k);
    TicketsDiffer(s.served, k);
    forall d | 0 <= d < |s'.queue|
      ensures InLine(s', d)
    {
      assert InLine(s, d);
    }
  }

  lemma LeaveInv(s: State, i: nat, s': State)
    requires Inv(s) && Step(s, i, Leave, s')
    ensures Inv(s') && |s'.phases| == |s.phases| && s.queue != [] && s.queue[0] == i
  {
    hide TicketAt;
    assert i in s.queue;
    var k :| 0 <= k < |s.queue| && s.queue[k] == i;
    assert InLine(s, k);
    TicketStep(s.served, 0);
    TicketStep(s.served, |s'.queue|);
    forall d | 0 <= d < |s'.queue|
      ensures InLine(s', d)
    {
      assert InLine(s, d + 1);
      TicketStep(s.served, d);
    }
    forall j | 0 <= j < |s'.phases| && s'.phases[j] != Outside
      ensures j in s'.queue
    {
      assert j in s.queue;
    }
  }

  // ---------------------------------------------------------------- whole runs

  ghost predicate Run(states: seq<State>, who: seq<nat>, ops: seq<Op>) {
    && |states| == |ops| + 1 == |who| + 1 && Init(states[0]) && |states[0].phases| < TICKETS
    && forall k :: 0 <= k < |ops| ==> Step(states[k], who[k], ops[k], states[k + 1])
  }

  lemma {:induction false} RunInv(states: seq<State>, who: seq<nat>, ops: seq<Op>, n: nat)
    requires Run(states, who, ops) && n < |states|
    ensures Inv(states[n]) && |states[n].phases| == |states[0].phases|
  {
    hide Step, Inv;
    if n == 0 {
      InitInv(states[0]);
    } else {
      RunInv(states, who, ops, n - 1);
      StepInv(states[n - 1], who[n - 1], ops[n - 1], states[n]);
    }
  }

  lemma InitInv(s: State)
    requires Init(s)
    ensures Inv(s)
  {
  }

  /** At most one participant holds the lock, in every reachable state. */
  lemma MutualExclusion(states: seq<State>, who: seq<nat>, ops: seq<Op>, n: nat, i: nat, j: nat)
    requires Run(states, who, ops) && n < |states| && i < |states[n].phases| && j < |states[n].phases|
    requires states[n].phases[i].Holding? && states[n].phases[j].Holding?
    ensures i == j
  {
    RunInv(states, who, ops, n);
    var s := states[n];
    assert i in s.queue && j in s.queue;
    var a :| 0 <= a < |s.queue| && s.queue[a] == i;
    var b :| 0 <= b < |s.queue| && s.queue[b] == j;
    assert InLine(s, a) && InLine(s, b);
  }

  /** Releases among steps m..n. */
  ghost function Releases(ops: seq<Op>, m: nat, n: nat): nat
    requires m <= n <= |ops|
    decreases n
  {
    if m == n then 0 else Releases(ops, m, n - 1) + (if ops[n - 1] == Leave then 1 else 0)
  }

  /**
    First come, first served: whoever stands at distance `d` in state `m` stands at distance
    d - r after r releases, as long as r <= d, and nobody enters before being at distance 0.
   */
  lemma {:induction false} ServedInOrder(states: seq<State>, who: seq<nat>, ops: seq<Op>, m: nat, n: nat, d: nat)
    requires Run(states, who, ops) && m <= n < |states| && d < |states[m].queue| && Releases(ops, m, n) <= d
    ensures var r := Releases(ops, m, n); d - r < |states[n].queue| && states[n].queue[d - r] == states[m].queue[d]
    ensures n < |ops| && ops[n] == Enter ==> states[n].queue != [] && who[n] == states[n].queue[0]
    decreases n
  {
    hide Inv, Step, Init;
    RunInv(states, who, ops, n);
    if n < |ops| {
      QueueStep(states[n], who[n], ops[n], states[n + 1]);
    }
    if m < n {
      RunInv(states, who, ops, n - 1);
      QueueStep(states[n - 1], who[n - 1], ops[n - 1], states[n]);
      ServedInOrder(states, who, ops, m, n - 1, d);
    }
  }

  /** The queue changes at its ends only. */
  lemma QueueStep(s: State, i: nat, op: Op, s': State)
    requires Inv(s) && Step(s, i, op, s') && |s.phases| < TICKETS
    ensures op == Draw ==> s'.queue == s.queue + [i]
    ensures op == Enter ==> s'.queue == s.queue && s.queue != [] && s.queue[0] == i
    ensures op == Leave ==> s.queue != [] && s'.queue == s.queue[1..]
  {
    hide Inv;
    StepInv(s, i, op, s');
  }

  /**
    A waiter is served after exactly as many releases as its distance: then, and not before, its
    ticket is the one served.
   */
  lemma WaitsExactly(states: seq<State>, who: seq<nat>, ops: seq<Op>, n: nat, d: nat)
    requires Run(states, who, ops) && n < |states| && d < |states[n].queue|
    ensures var s := states[n]; var i := s.queue[d];
      i < |s.phases| && s.phases[i] != Outside && (s.phases[i].ticket == s.nowServing <==> d == 0)
  {
    hide TicketAt;
    RunInv(states, who, ops, n);
    var s := states[n];
    DistinctBound(s.queue, |s.phases|);
    assert InLine(s, d);
    if s.phases[s.queue[d]].ticket == s.nowServing {
      TicketsDiffer(s.served, d);
    }
  }

  // ---------------------------------------------------------------- the lock itself

  /** Who holds the lock. */
  ghost predicate OnlyHolder(s: State, i: nat) {
    forall j :: 0 <= j < |s.phases| && s.phases[j].Holding? ==> j == i
  }

  /** The participant whose ticket is served is the first in line, and nobody else holds the lock. */
  lemma ServedIsFirst(s: State, i: nat)
    requires Inv(s) && |s.phases| < TICKETS && i < |s.phases| && s.phases[i] != Outside
    ensures s.queue != [] && (s.phases[i].ticket == s.nowServing <==> s.queue[0] == i)
    ensures s.phases[i].ticket == s.nowServing ==> OnlyHolder(s, i)
  {
    hide TicketAt;
    DistinctBound(s.queue, |s.phases|);
    assert i in s.queue;
    var k :| 0 <= k < |s.queue| && s.queue[k] == i;
    assert InLine(s, k) && InLine(s, 0);
    if s.phases[i].ticket == s.nowServing {
      TicketsDiffer(s.served, k);
      forall j | 0 <= j < |s.phases| && s.phases[j].Holding?
        ensures j == i
      {
        assert j in s.queue;
        var e :| 0 <= e < |s.queue| && s.queue[e] == j;
        assert InLine(s, e);
      }
    }
  }

  /** The two counters; the ghost fields record what each participant is doing and the history. */
  class Mutex {
    var nextTicket: nat
    var nowServing: nat
    ghost var phases: seq<Phase>
    ghost var served: nat
    ghost var queue: seq<nat>

    ghost function View(): State
      reads this
    {
      State(nextTicket, nowServing, phases, served, queue)
    }

    ghost predicate Valid()
      reads this
    {
      Inv(View()) && |phases| < TICKETS
    }

    constructor (ghost participants: nat)
      requires participants < TICKETS
      ensures Valid() && Init(View()) && |phases| == participants
    {
      nextTicket, nowServing := 0, 0;
      phases, served, queue := seq(participants, _ => Outside), 0, [];
    }

    /** The fetch-and-add that starts `lock`. */
    method DrawTicket(ghost i: nat) returns (mine: nat)
      requires Valid() && i < |phases| && phases[i] == Outside
      modifies this
      ensures Valid() && Step(old(View()), i, Draw, View()) && phases[i] == Waiting(mine)
    {
      mine := nextTicket;
      nextTicket := (nextTicket + 1) % TICKETS;
      phases, queue := phases[i := Waiting(mine)], queue + [i];
      StepInv(old(View()), i, Draw, View());
    }

    /**
      One round of the spin loop: it ends when the participant is first in line, and then nobody
      else holds the lock.
     */
    method IsServed(mine: nat, ghost i: nat) returns (ended: bool)
      requires Valid() && i < |phases| && phases[i] == Waiting(mine)
      modifies this`phases
      ensures Valid() && queue != [] && (ended <==> queue[0] == i)
      ensures if ended then Step(old(View()), i, Enter, View()) && OnlyHolder(View(), i) else View() == old(View())
    {
      ended := nowServing == mine;
      ServedIsFirst(View(), i);
      if ended {
        phases := phases[i := Holding(mine)];
        StepInv(old(View()), i, Enter, View());
      }
    }

    /** Dropping the guard. */
    method Release(ghost i: nat)
      requires Valid() && i < |phases| && phases[i].Holding?
      modifies this
      ensures Valid() && Step(old(View()), i, Leave, View())
      ensures forall j :: 0 <= j < |phases| ==> !phases[j].Holding?
    {
      HolderFirst(View(), i);
      nowServing := (nowServing + 1) % TICKETS;
      phases, served, queue := phases[i := Outside], served + 1, if queue == [] then [] else queue[1..];
      StepInv(old(View()), i, Leave, View());
    }
  }

  lemma HolderFirst(s: State, i: nat)
    requires Inv(s) && |s.phases| < TICKETS && i < |s.phases| && s.phases[i].Holding?
    ensures OnlyHolder(s, i)
  {
    assert i in s.queue;
    var k :| 0 <= k < |s.queue| && s.queue[k] == i;
    assert InLine(s, k);
    ServedIsFirst(s, i);
  }
}
