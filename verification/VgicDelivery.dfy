/** What the distributor's operations keep, lose and deliver. */
module VgicDelivery {
  import opened Common
  import opened VgicDistributor
  import opened VgicLists

  // ---------------------------------------------------------------- raising an interrupt

  /** Only pending bits of interrupt `id` are added, in the banks of the targets, or in the shared registers. */
  ghost predicate OnlyPending(d: Dist, d': Dist, id: nat, targets: set<nat>)
    requires Valid(d) && Valid(d')
  {
    && (forall c :: 0 <= c < MAX_CPU_INTERFACES ==>
          d'.banked[c] == d.banked[c].(pending :=
            d.banked[c].pending + (if id < BANKED_INT_ID_COUNT && c in targets then {id} else {})))
    && d'.shared == d.shared.(pending :=
        d.shared.pending + (if id >= BANKED_INT_ID_COUNT && targets != {} then {id} else {}))
    && d'.ctlr == d.ctlr && d'.target == d.target && d'.own == d.own
  }

  /** New requests are appended for other CPUs; those already queued stay as they are. */
  ghost predicate Appends(d: Dist, d': Dist, cpu: nat) {
    && d.queue <= d'.queue && d'.serial == d.serial + (|d'.queue| - |d.queue|)
    && forall i :: |d.queue| <= i < |d'.queue| ==>
         d'.queue[i].serial == d.serial + (i - |d.queue|) && d'.queue[i].target != cpu
         && d'.queue[i].target < MAX_CPU_INTERFACES && d'.queue[i].entry.pending
  }

  lemma AppendsTrans(a: Dist, b: Dist, c: Dist, cpu: nat)
    requires Appends(a, b, cpu) && Appends(b, c, cpu)
    ensures Appends(a, c, cpu)
  {
  }

  lemma OneOnlyPending(s: Local, cpu: nat, id: nat, physical: Option<nat>, t: nat)
    requires Valid(s.d) && cpu < MAX_CPU_INTERFACES && t < MAX_CPU_INTERFACES && id < INT_IDS
    ensures OnlyPending(s.d, TriggerOne(s, cpu, id, physical, t).d, id, {t})
  {
  }

  lemma OneAppends(s: Local, cpu: nat, id: nat, physical: Option<nat>, t: nat)
    requires Valid(s.d) && cpu < MAX_CPU_INTERFACES && t < MAX_CPU_INTERFACES && id < INT_IDS && NoDuplicates(s.lrs)
    ensures var s' := TriggerOne(s, cpu, id, physical, t);
      Appends(s.d, s'.d, cpu) && NoDuplicates(s'.lrs) && Keeps(s.lrs, s'.lrs)
  {
    hide Inject, NoDuplicates, Priority;
    var d := SetPending(s.d, t, id, true);
    KeepsSelf(s.lrs);
    if DistributorEnabled(d) && Enabled(d, t, id) && t == cpu {
      InjectKeeps(s.lrs, EntryFor(d, t, id, physical));
    }
  }

  lemma KeepsSelf(lrs: seq<Lr>)
    ensures Keeps(lrs, lrs)
  {
  }

  /** Injection never duplicates, loses or alters an interrupt already there. */
  lemma InjectKeeps(lrs: seq<Lr>, e: Lr)
    requires NoDuplicates(lrs) && e.pending
    ensures NoDuplicates(Inject(lrs, e)) && Keeps(lrs, Inject(lrs, e))
  {
  }

  lemma OnlyPendingTrans(a: Dist, b: Dist, c: Dist, id: nat, s: set<nat>, t: set<nat>)
    requires Valid(a) && Valid(b) && Valid(c) && OnlyPending(a, b, id, s) && OnlyPending(b, c, id, t)
    ensures OnlyPending(a, c, id, s + t)
  {
  }

  /** Targets from bit `bit` on. */
  ghost function From(targets: set<nat>, bit: nat): set<nat> {
    set t | t in targets && bit <= t < MAX_CPU_INTERFACES
  }

  lemma {:induction false} TriggerFromKeeps(s: Local, cpu: nat, id: nat, physical: Option<nat>, targets: set<nat>,
                                            bit: nat)
    requires Valid(s.d) && cpu < MAX_CPU_INTERFACES && bit <= MAX_CPU_INTERFACES && id < INT_IDS && NoDuplicates(s.lrs)
    ensures var s' := TriggerFrom(s, cpu, id, physical, targets, bit);
      && OnlyPending(s.d, s'.d, id, From(targets, bit))
      && Appends(s.d, s'.d, cpu) && NoDuplicates(s'.lrs) && Keeps(s.lrs, s'.lrs)
    decreases MAX_CPU_INTERFACES - bit
  {
    hide TriggerOne, Appends, Keeps, NoDuplicates, Valid, OnlyPending;
    if bit == MAX_CPU_INTERFACES {
      NothingRaised(s, id, cpu);
      assert From(targets, bit) == {};
    } else if bit in targets {
      var s1 := TriggerOne(s, cpu, id, physical, bit);
      OneOnlyPending(s, cpu, id, physical, bit);
      OneAppends(s, cpu, id, physical, bit);
      TriggerFromKeeps(s1, cpu, id, physical, targets, bit + 1);
      var s2 := TriggerFrom(s1, cpu, id, physical, targets, bit + 1);
      OnlyPendingTrans(s.d, s1.d, s2.d, id, {bit}, From(targets, bit + 1));
      AppendsTrans(s.d, s1.d, s2.d, cpu);
      KeepsTrans(s.lrs, s1.lrs, s2.lrs);
      assert From(targets, bit) == {bit} + From(targets, bit + 1);
    } else {
      TriggerFromKeeps(s, cpu, id, physical, targets, bit + 1);
      assert From(targets, bit) == From(targets, bit + 1);
    }
  }

  lemma NothingRaised(s: Local, id: nat, cpu: nat)
    requires Valid(s.d)
    ensures OnlyPending(s.d, s.d, id, {}) && Appends(s.d, s.d, cpu) && Keeps(s.lrs, s.lrs)
  {
  }

  // ---------------------------------------------------------------- the queue

  /** Requests are numbered in order, below `serial`, and ask for something. */
  ghost predicate QueueOk(queue: seq<Request>, serial: nat) {
    && (forall i :: 0 <= i < |queue| ==>
        queue[i].serial < serial && queue[i].entry.pending && queue[i].target < MAX_CPU_INTERFACES)
    && (forall i, j :: 0 <= i < j < |queue| ==> queue[i].serial < queue[j].serial)
  }

  /** An interrupt is pending in a List Register. */
  predicate PendingIn(lrs: seq<Lr>, id: nat) {
    exists i :: 0 <= i < |lrs| && lrs[i].pending && lrs[i].intId == id
  }

  lemma KeepsPending(lrs: seq<Lr>, lrs': seq<Lr>, id: nat)
    requires Keeps(lrs, lrs') && PendingIn(lrs, id)
    ensures PendingIn(lrs', id)
  {
  }

  lemma InjectPending(lrs: seq<Lr>, e: Lr)
    requires NoDuplicates(lrs) && e.pending && Fits(lrs, e.intId)
    ensures PendingIn(Inject(lrs, e), e.intId)
  {
    hide Inject, NoDuplicates, Placed, Fits;
    InjectPlaces(lrs, e);
    PlacedKeeps(lrs, e, Inject(lrs, e));
  }

  /** What left the queue went to this CPU and is pending in its List Registers. */
  ghost predicate Accounted(queue: seq<Request>, rest: seq<Request>, lrs: seq<Lr>, cpu: nat) {
    && (forall r :: r in rest ==> r in queue)
    && (forall r :: r in queue && r !in rest ==> r.target == cpu && PendingIn(lrs, r.entry.intId))
  }

  /** No request is lost, reordered or misrouted: one leaves the queue only for a List Register of its target. */
  lemma {:induction false} DeliverKeeps(queue: seq<Request>, serial: nat, lrs: seq<Lr>, cpu: nat)
    requires QueueOk(queue, serial) && NoDuplicates(lrs)
    ensures var (rest, lrs') := Deliver(queue, lrs, cpu);
      QueueOk(rest, serial) && NoDuplicates(lrs') && Keeps(lrs, lrs') && Accounted(queue, rest, lrs', cpu)
  {
    hide Inject, NoDuplicates, Keeps, Fits, PendingIn, QueueOk, Accounted;
    if queue == [] {
      KeepsSelf(lrs);
      assert Accounted([], [], lrs, cpu) by { AccountedNone(lrs, cpu); }
    } else {
      var r := queue[0];
      TailOk(queue, serial);
      HeadOk(queue, serial);
      if r.target == cpu && Fits(lrs, r.entry.intId) {
        var lrs1 := Inject(lrs, r.entry);
        InjectKeeps(lrs, r.entry);
        InjectPending(lrs, r.entry);
        DeliverKeeps(queue[1..], serial, lrs1, cpu);
        var (rest, lrs2) := Deliver(queue[1..], lrs1, cpu);
        assert Deliver(queue, lrs, cpu) == (rest, lrs2);
        KeepsTrans(lrs, lrs1, lrs2);
        KeepsPending(lrs1, lrs2, r.entry.intId);
        AccountedTaken(queue, rest, lrs2, cpu);
      } else {
        DeliverKeeps(queue[1..], serial, lrs, cpu);
        var (rest, lrs2) := Deliver(queue[1..], lrs, cpu);
        assert Deliver(queue, lrs, cpu) == ([r] + rest, lrs2);
        AccountedKept(queue, rest, serial, lrs2, cpu);
      }
    }
  }

  lemma AccountedNone(lrs: seq<Lr>, cpu: nat)
    ensures Accounted([], [], lrs, cpu)
  {
  }

  lemma AccountedTaken(queue: seq<Request>, rest: seq<Request>, lrs: seq<Lr>, cpu: nat)
    requires queue != [] && Accounted(queue[1..], rest, lrs, cpu)
    requires queue[0].target == cpu && PendingIn(lrs, queue[0].entry.intId)
    ensures Accounted(queue, rest, lrs, cpu)
  {
  }

  lemma AccountedKept(queue: seq<Request>, rest: seq<Request>, serial: nat, lrs: seq<Lr>, cpu: nat)
    requires queue != [] && Accounted(queue[1..], rest, lrs, cpu) && QueueOk(queue, serial) && QueueOk(rest, serial)
    ensures Accounted(queue, [queue[0]] + rest, lrs, cpu) && QueueOk([queue[0]] + rest, serial)
  {
  }

  /** After a delivery, a request left for this CPU found all its List Registers occupied by others. */
  lemma {:induction false} DeliverComplete(queue: seq<Request>, serial: nat, lrs: seq<Lr>, cpu: nat)
    requires QueueOk(queue, serial) && NoDuplicates(lrs)
    ensures var (rest, lrs') := Deliver(queue, lrs, cpu);
      forall i :: 0 <= i < |rest| && rest[i].target == cpu ==> Full(lrs')
  {
    hide Inject, NoDuplicates, Keeps, QueueOk;
    if queue != [] {
      var r := queue[0];
      assert QueueOk(queue[1..], serial) by { TailOk(queue, serial); }
      HeadOk(queue, serial);
      if r.target == cpu && Fits(lrs, r.entry.intId) {
        InjectKeeps(lrs, r.entry);
        DeliverComplete(queue[1..], serial, Inject(lrs, r.entry), cpu);
        assert Deliver(queue, lrs, cpu) == Deliver(queue[1..], Inject(lrs, r.entry), cpu);
      } else {
        DeliverComplete(queue[1..], serial, lrs, cpu);
        DeliverKeeps(queue[1..], serial, lrs, cpu);
        var (rest, lrs2) := Deliver(queue[1..], lrs, cpu);
        if r.target == cpu {
          KeepsFull(lrs, lrs2);
        }
      }
    }
  }

  lemma TailOk(queue: seq<Request>, serial: nat)
    requires QueueOk(queue, serial) && queue != []
    ensures QueueOk(queue[1..], serial)
  {
  }

  lemma HeadOk(queue: seq<Request>, serial: nat)
    requires QueueOk(queue, serial) && queue != []
    ensures queue[0].entry.pending
  {
  }

  // ---------------------------------------------------------------- the scan

  ghost predicate Sorted(cs: seq<Candidate>) {
    forall i, j :: 0 <= i < j < |cs| ==> Before(cs[i], cs[j])
  }

  ghost predicate Lists(cs: seq<Candidate>, id: nat) {
    exists i :: 0 <= i < |cs| && cs[i].id == id
  }

  /** Insertion keeps the order and adds exactly one candidate. */
  lemma {:induction false} InsertSorted(cs: seq<Candidate>, c: Candidate)
    requires Sorted(cs) && forall i :: 0 <= i < |cs| ==> cs[i].id != c.id
    ensures var r := InsertCandidate(cs, c);
      Sorted(r) && |r| == |cs| + 1 && forall x :: x in r <==> x in cs || x == c
  {
    if cs != [] && !Before(c, cs[0]) {
      assert cs[0].id != c.id;
      InsertSorted(cs[1..], c);
      var tail := InsertCandidate(cs[1..], c);
      assert forall x :: x in cs <==> x == cs[0] || x in cs[1..];
      forall j | 0 <= j < |tail|
        ensures Before(cs[0], tail[j])
      {
        assert tail[j] in tail;
      }
    } else if cs != [] {
      forall j | 0 <= j < |cs|
        ensures Before(c, cs[j])
      {
        assert j > 0 ==> Before(cs[0], cs[j]);
      }
    }
  }

  /** The candidates are exactly the pending and enabled interrupts, in priority order. */
  lemma {:induction false} CandidatesAre(d: Dist, cpu: nat, n: nat)
    requires Valid(d) && cpu < MAX_CPU_INTERFACES && n <= INT_IDS
    ensures var cs := Candidates(d, cpu, n);
      && Sorted(cs)
      && (forall c :: c in cs <==> c.id < n && IsCandidate(d, cpu, c.id) && c.priority == Priority(d, cpu, c.id))
  {
    hide Valid, IsCandidate, ByteOf, Priority, Before;
    if n > 0 {
      CandidatesAre(d, cpu, n - 1);
      var cs := Candidates(d, cpu, n - 1);
      if IsCandidate(d, cpu, n - 1) {
        forall i | 0 <= i < |cs|
          ensures cs[i].id != n - 1
        {
          assert cs[i] in cs;
        }
        InsertSorted(cs, Candidate(Priority(d, cpu, n - 1), n - 1));
      }
    }
  }

  /** The scan places a prefix of the candidates; if it stops early, every List Register is occupied. */
  lemma {:induction false} InjectAllPlaces(d: Dist, cpu: nat, lrs: seq<Lr>, cs: seq<Candidate>) returns (k: nat)
    requires Valid(d) && cpu < MAX_CPU_INTERFACES && InRange(cs) && NoDuplicates(lrs)
    ensures k <= |cs|
    ensures var lrs' := InjectAll(d, cpu, lrs, cs);
      && NoDuplicates(lrs') && Keeps(lrs, lrs')
      && (forall i :: 0 <= i < k ==> Holds(lrs', cs[i].id))
      && (forall id :: Holds(lrs', id) ==> Holds(lrs, id) || Lists(cs[..k], id))
      && (k < |cs| ==> Full(lrs'))
    decreases |cs|
  {
    hide Valid, NoDuplicates, Keeps, Holds, EntryFor, Inject, Fits, Lists;
    if cs == [] {
      KeepsSelf(lrs);
      k := 0;
    } else if !Fits(lrs, cs[0].id) {
      KeepsSelf(lrs);
      NoRoom(lrs, cs[0].id);
      k := 0;
    } else {
      var e := EntryFor(d, cpu, cs[0].id, None);
      var lrs1 := Inject(lrs, e);
      InjectHolds(lrs, e);
      k := InjectAllPlaces(d, cpu, lrs1, cs[1..]);
      var lrs2 := InjectAll(d, cpu, lrs1, cs[1..]);
      KeepsTrans(lrs, lrs1, lrs2);
      KeepsHolds(lrs1, lrs2, cs[0].id);
      forall id | Holds(lrs2, id)
        ensures Holds(lrs, id) || Lists(cs[..k + 1], id)
      {
        ListsTail(cs, k, id);
      }
      k := k + 1;
    }
  }

  lemma NoRoom(lrs: seq<Lr>, id: nat)
    requires !Fits(lrs, id)
    ensures Full(lrs)
  {
  }

  lemma InjectHolds(lrs: seq<Lr>, e: Lr)
    requires NoDuplicates(lrs) && e.pending && Fits(lrs, e.intId)
    ensures NoDuplicates(Inject(lrs, e)) && Keeps(lrs, Inject(lrs, e)) && Holds(Inject(lrs, e), e.intId)
    ensures forall id :: Holds(Inject(lrs, e), id) <==> Holds(lrs, id) || id == e.intId
  {
    hide Inject, NoDuplicates, Placed, Fits, Holds;
    InjectPlaces(lrs, e);
    PlacedKeeps(lrs, e, Inject(lrs, e));
  }

  lemma ListsTail(cs: seq<Candidate>, k: nat, id: nat)
    requires cs != [] && k <= |cs| - 1
    ensures Lists(cs[1..][..k], id) || id == cs[0].id ==> Lists(cs[..k + 1], id)
  {
    var a, b := cs[1..][..k], cs[..k + 1];
    forall i | 0 <= i < |a| && a[i].id == id
      ensures Lists(b, id)
    {
      assert b[i + 1].id == id;
    }
    assert b[0] == cs[0];
  }

  /** A candidate of this CPU's view without a List Register. */
  predicate LeftOut(d: Dist, cpu: nat, lrs: seq<Lr>, id: nat)
    requires Valid(d) && cpu < MAX_CPU_INTERFACES
  {
    id < ViewSize(d, cpu) && IsCandidate(d, cpu, id) && !Holds(lrs, id)
  }

  predicate NewlyHeld(lrs: seq<Lr>, lrs': seq<Lr>, id: nat) {
    Holds(lrs', id) && !Holds(lrs, id)
  }

  function CandidateOf(d: Dist, cpu: nat, id: nat): Candidate
    requires Valid(d) && cpu < MAX_CPU_INTERFACES && id < INT_IDS
  {
    Candidate(Priority(d, cpu, id), id)
  }

  /**
    After the pending-interrupt scan with the distributor enabled, every pending and enabled
    interrupt in this CPU's view but the timer is in a List Register, or none is free; and no
    interrupt left out comes before one the scan placed.
   */
  ghost predicate Complete(d: Dist, cpu: nat, lrs: seq<Lr>, lrs': seq<Lr>)
    requires Valid(d) && cpu < MAX_CPU_INTERFACES
  {
    && ((exists id :: 0 <= id < INT_IDS && LeftOut(d, cpu, lrs', id)) ==> Full(lrs'))
    && (forall x: nat, y: nat :: LeftOut(d, cpu, lrs', x) && NewlyHeld(lrs, lrs', y) ==>
          y < ViewSize(d, cpu) && IsCandidate(d, cpu, y) && Before(CandidateOf(d, cpu, y), CandidateOf(d, cpu, x)))
  }

  lemma ScanIsComplete(s: Local, cpu: nat)
    requires Valid(s.d) && cpu < MAX_CPU_INTERFACES && NoDuplicates(s.lrs) && DistributorEnabled(s.d)
    ensures var lrs := ScanPending(s, cpu).lrs;
      NoDuplicates(lrs) && Keeps(s.lrs, lrs) && Complete(s.d, cpu, s.lrs, lrs)
  {
    hide Valid, NoDuplicates, Keeps, Holds, IsCandidate, Priority, InjectAll, Candidates, Full, Before;
    var n := ViewSize(s.d, cpu);
    var cs := Candidates(s.d, cpu, n);
    CandidatesInRange(s.d, cpu, n);
    CandidatesAre(s.d, cpu, n);
    var k := InjectAllPlaces(s.d, cpu, s.lrs, cs);
    var lrs := ScanPending(s, cpu).lrs;
    forall x: nat | LeftOut(s.d, cpu, lrs, x)
      ensures Full(lrs)
      ensures forall y: nat :: NewlyHeld(s.lrs, lrs, y) ==>
        y < n && IsCandidate(s.d, cpu, y) && Before(CandidateOf(s.d, cpu, y), CandidateOf(s.d, cpu, x))
    {
      var i := ListedAt(s.d, cpu, cs, n, x);
      forall y: nat | NewlyHeld(s.lrs, lrs, y)
        ensures y < n && IsCandidate(s.d, cpu, y) && Before(CandidateOf(s.d, cpu, y), CandidateOf(s.d, cpu, x))
      {
        assert Lists(cs[..k], y);
        var j :| 0 <= j < k && cs[..k][j].id == y;
        assert cs[j] in cs;
      }
    }
  }

  lemma ListedAt(d: Dist, cpu: nat, cs: seq<Candidate>, n: nat, id: nat) returns (i: nat)
    requires Valid(d) && cpu < MAX_CPU_INTERFACES && id < n <= INT_IDS && IsCandidate(d, cpu, id)
    requires forall c :: c in cs <==> c.id < n && IsCandidate(d, cpu, c.id) && c.priority == Priority(d, cpu, c.id)
    ensures i < |cs| && cs[i] == Candidate(Priority(d, cpu, id), id)
  {
    hide Valid, IsCandidate, Priority;
    var c := Candidate(Priority(d, cpu, id), id);
    assert c in cs;
    i :| 0 <= i < |cs| && cs[i] == c;
  }
}
