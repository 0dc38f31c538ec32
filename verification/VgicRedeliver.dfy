/** Interrupts that a write to an enable or pending register makes deliverable: each is raised again. */
module VgicRedeliver {
  import opened Common
  import opened VgicDelivery
  import opened VgicDistributor
  import opened VgicLists
  import opened VgicMmio
  import opened VgicRaise

  /** The bit of interrupt `id` in a value written to its one-bit register. */
  ghost predicate Told(value: bv32, id: nat) { (value >> (id % 32)) & 1 == 1 }

  /** Interrupt `id` of register `r`, from bit `b` on: told by the value, pending, and enabled. */
  ghost predicate Again(d: Dist, cpu: nat, r: nat, value: bv32, b: nat, id: nat) {
    && id / 32 == r && id % 32 >= b && Told(value, id)
    && cpu < |d.banked| && id in Regs(d, cpu, id).pending && Live(d, cpu, id)
  }

  /** An entry without physical interrupt. */
  ghost predicate EntryOf(d: Dist, c: nat, id: nat, e: Lr) {
    c < |d.banked| && id / 4 < |Regs(d, c, id).priority| && EntryIs(d, c, id, None, e)
  }

  ghost predicate AskedFor(rs: seq<Request>, id: nat) {
    exists i :: 0 <= i < |rs| && rs[i].entry.intId == id
  }

  /** A request for one of these interrupts, with its own entry. */
  ghost predicate GoodAgain(d: Dist, cpu: nat, dest: nat, r: nat, value: bv32, b: nat, q: Request) {
    q.target == dest && Again(d, cpu, r, value, b, q.entry.intId) && EntryOf(d, dest, q.entry.intId, q.entry)
  }

  ghost predicate Ascending(rs: seq<Request>) {
    forall i, j :: 0 <= i < j < |rs| ==> rs[i].entry.intId < rs[j].entry.intId
  }

  /** `rs` asks CPU `dest` for each of these interrupts once, in ascending order, and for no others. */
  ghost predicate AgainQueued(d: Dist, cpu: nat, dest: nat, r: nat, value: bv32, b: nat, rs: seq<Request>) {
    && (forall i :: 0 <= i < |rs| ==> GoodAgain(d, cpu, dest, r, value, b, rs[i]))
    && Ascending(rs) && (forall id: nat :: Again(d, cpu, r, value, b, id) ==> AskedFor(rs, id))
  }

  /** A List Register before and after: as it was, or marked pending for, or given to, one of these interrupts. */
  ghost predicate RegisterAfter(d: Dist, cpu: nat, r: nat, value: bv32, b: nat, x: Lr, y: Lr) {
    y == x || (Again(d, cpu, r, value, b, y.intId)
               && if Occupied(x) then y == x.(pending := true) else EntryOf(d, cpu, y.intId, y))
  }

  /** Each of these interrupts is pending in a List Register, or all are occupied. */
  ghost predicate AgainPlaced(d: Dist, cpu: nat, r: nat, value: bv32, b: nat, lrs: seq<Lr>, lrs': seq<Lr>) {
    && |lrs'| == |lrs|
    && (forall i :: 0 <= i < |lrs| ==> RegisterAfter(d, cpu, r, value, b, lrs[i], lrs'[i]))
    && (forall id: nat :: Again(d, cpu, r, value, b, id) ==> PendingIn(lrs', id) || Full(lrs'))
  }

  /**
    The interrupts of register `r` that a value makes deliverable: private ones go to this CPU,
    shared ones to the owner, who is asked through the queue if it is another CPU.
   */
  ghost predicate Redelivered(s: Local, s': Local, cpu: nat, r: nat, value: bv32, b: nat) {
    if r == 0 || s.d.own == cpu then
      s'.d.queue == s.d.queue && AgainPlaced(s.d, cpu, r, value, b, s.lrs, s'.lrs)
    else
      && s'.lrs == s.lrs && s.d.queue <= s'.d.queue
      && AgainQueued(s.d, cpu, s.d.own, r, value, b, s'.d.queue[|s.d.queue|..])
  }

  // ---------------------------------------------------------------- proofs

  lemma ToldIs(value: bv32, r: nat, b: nat)
    requires b < 32
    ensures (32 * r + b) / 32 == r && (32 * r + b) % 32 == b
    ensures Told(value, 32 * r + b) <==> Bit(value, b)
  {
  }

  lemma AgainStep(d: Dist, cpu: nat, r: nat, value: bv32, b: nat, id: nat)
    requires b < 32
    ensures Again(d, cpu, r, value, b, id) <==>
      Again(d, cpu, r, value, b + 1, id) || (id == 32 * r + b && Again(d, cpu, r, value, b, id))
  {
    hide Told, Live, Regs;
  }

  ghost predicate SameRegisters(d: Dist, d': Dist) {
    d'.banked == d.banked && d'.shared == d.shared && d'.ctlr == d.ctlr && d'.own == d.own
  }

  lemma SameAgain(d: Dist, d': Dist)
    requires SameRegisters(d, d')
    ensures forall cpu, r, value, b, id :: Again(d', cpu, r, value, b, id) <==> Again(d, cpu, r, value, b, id)
    ensures forall c, id, e :: EntryOf(d', c, id, e) <==> EntryOf(d, c, id, e)
  {
    hide Told;
  }

  /** What raising one interrupt for this CPU does to a List Register. */
  lemma PlacedOne(d: Dist, cpu: nat, id: nat, lrs: seq<Lr>, lrs': seq<Lr>)
    requires cpu < |d.banked| && id / 4 < |Regs(d, cpu, id).priority| && HereAfter(d, cpu, id, None, lrs, lrs')
    ensures |lrs'| == |lrs|
    ensures forall i :: 0 <= i < |lrs| ==>
      lrs'[i] == lrs[i] || (lrs'[i].intId == id && Live(d, cpu, id)
                            && if Occupied(lrs[i]) then lrs'[i] == lrs[i].(pending := true)
                               else EntryOf(d, cpu, id, lrs'[i]))
    ensures Live(d, cpu, id) ==> PendingIn(lrs', id) || Full(lrs')
  {
    hide Live, EntryIs;
    if Live(d, cpu, id) && Fits(lrs, id) {
      var e :| EntryIs(d, cpu, id, None, e) && Placed(lrs, e, lrs');
      EntryFields(d, cpu, id, e);
      var i :| 0 <= i < |lrs| && PlacedAt(lrs, e, lrs', i);
      assert lrs'[i].pending && lrs'[i].intId == id;
    }
  }

  lemma EntryFields(d: Dist, cpu: nat, id: nat, e: Lr)
    requires cpu < |d.banked| && id / 4 < |Regs(d, cpu, id).priority| && EntryIs(d, cpu, id, None, e)
    ensures e.intId == id && e.pending
  {
  }

  /** One interrupt for this CPU, and then those after it. */
  lemma PlaceMore(d: Dist, cpu: nat, r: nat, value: bv32, b: nat, id: nat, lrs: seq<Lr>, lrs1: seq<Lr>, lrs2: seq<Lr>)
    requires cpu < |d.banked| && id / 4 < |Regs(d, cpu, id).priority| && HereAfter(d, cpu, id, None, lrs, lrs1)
    requires AgainPlaced(d, cpu, r, value, b + 1, lrs1, lrs2) && Keeps(lrs1, lrs2)
    requires id == 32 * r + b && b < 32 && (Live(d, cpu, id) ==> Again(d, cpu, r, value, b, id))
    ensures AgainPlaced(d, cpu, r, value, b, lrs, lrs2)
  {
    hide Live, HereAfter, PendingIn, Full, Told, Again, EntryIs, Keeps;
    PlacedOne(d, cpu, id, lrs, lrs1);
    forall i | 0 <= i < |lrs| ensures RegisterAfter(d, cpu, r, value, b, lrs[i], lrs2[i]) {
      AgainStep(d, cpu, r, value, b, lrs2[i].intId);
      assert RegisterAfter(d, cpu, r, value, b + 1, lrs1[i], lrs2[i]);
      if lrs1[i] != lrs[i] && !Occupied(lrs[i]) { EntryFields(d, cpu, id, lrs1[i]); }
    }
    forall x: nat | Again(d, cpu, r, value, b, x) ensures PendingIn(lrs2, x) || Full(lrs2) {
      AgainStep(d, cpu, r, value, b, x);
      if x == id {
        AgainIsLive(d, cpu, r, value, b, x);
        if Full(lrs1) { KeepsFull(lrs1, lrs2); } else { KeepsPending(lrs1, lrs2, id); }
      }
    }
  }

  lemma AgainIsLive(d: Dist, cpu: nat, r: nat, value: bv32, b: nat, id: nat)
    requires Again(d, cpu, r, value, b, id)
    ensures cpu < |d.banked| && Live(d, cpu, id)
  {
  }

  /** The requests for one shared interrupt and one other CPU: one if it is enabled, else none. */
  lemma OneQueued(d: Dist, cpu: nat, dest: nat, r: nat, value: bv32, b: nat, id: nat, rs: seq<Request>)
    requires NewRequests(d, cpu, id, None, {dest}, rs) && cpu != dest && cpu < |d.banked| && dest < |d.banked|
      && dest < MAX_CPU_INTERFACES
    requires id / 32 == r > 0 && (Live(d, cpu, id) ==> Again(d, cpu, r, value, b, id))
    ensures |rs| <= 1 && (Again(d, cpu, r, value, b, id) ==> rs != [])
    ensures rs != [] ==> GoodAgain(d, cpu, dest, r, value, b, rs[0]) && rs[0].entry.intId == id
  {
    hide Told, EntryIs, Again;
    assert Live(d, dest, id) <==> Live(d, cpu, id);
    forall i | 0 <= i < |rs| ensures GoodAgain(d, cpu, dest, r, value, b, rs[i]) && rs[i].entry.intId == id {
      assert GoodRequest(d, cpu, id, None, {dest}, rs[i]);
      EntryFields(d, dest, id, rs[i].entry);
    }
    assert |rs| > 1 ==> rs[0].target < rs[1].target;
    if Again(d, cpu, r, value, b, id) {
      AgainIsLive(d, cpu, r, value, b, id);
      assert Owed(d, cpu, id, {dest}, dest) && Asked(rs, dest);
    }
  }

  lemma LaterQueued(d: Dist, cpu: nat, dest: nat, r: nat, value: bv32, b: nat, q: Request)
    requires GoodAgain(d, cpu, dest, r, value, b + 1, q) && b < 32
    ensures GoodAgain(d, cpu, dest, r, value, b, q) && q.entry.intId > 32 * r + b
  {
    hide EntryOf, Again;
    AgainStep(d, cpu, r, value, b, q.entry.intId);
    AgainAfter(d, cpu, r, value, b + 1, q.entry.intId);
  }

  /** One request for the owner, and then those after it. */
  lemma QueueMore(d: Dist, cpu: nat, dest: nat, r: nat, value: bv32, b: nat, id: nat, rs: seq<Request>,
                  more: seq<Request>)
    requires NewRequests(d, cpu, id, None, {dest}, rs) && cpu != dest && cpu < |d.banked| && dest < |d.banked|
      && dest < MAX_CPU_INTERFACES
    requires AgainQueued(d, cpu, dest, r, value, b + 1, more)
    requires id == 32 * r + b && b < 32 && r > 0 && (Live(d, cpu, id) ==> Again(d, cpu, r, value, b, id))
    ensures AgainQueued(d, cpu, dest, r, value, b, rs + more)
  {
    hide Again, GoodAgain, NewRequests, Live, Ascending, AskedFor;
    OneQueued(d, cpu, dest, r, value, b, id, rs);
    forall i | 0 <= i < |more| ensures GoodAgain(d, cpu, dest, r, value, b, more[i]) && more[i].entry.intId > id {
      LaterQueued(d, cpu, dest, r, value, b, more[i]);
    }
    forall x: nat | Again(d, cpu, r, value, b, x) ensures Again(d, cpu, r, value, b + 1, x) || x == id {
      AgainStep(d, cpu, r, value, b, x);
    }
    if rs == [] {
      assert rs + more == more;
    } else {
      assert rs + more == [rs[0]] + more;
      Prepend(rs[0], more);
    }
  }

  lemma Prepend(q: Request, more: seq<Request>)
    requires Ascending(more) && forall i :: 0 <= i < |more| ==> more[i].entry.intId > q.entry.intId
    ensures Ascending([q] + more) && AskedFor([q] + more, q.entry.intId)
    ensures forall id :: AskedFor(more, id) ==> AskedFor([q] + more, id)
  {
    var all := [q] + more;
    assert all[0] == q;
    forall id | AskedFor(more, id) ensures AskedFor(all, id) {
      var i :| 0 <= i < |more| && more[i].entry.intId == id;
      assert all[i + 1].entry.intId == id;
    }
  }

  lemma AgainAfter(d: Dist, cpu: nat, r: nat, value: bv32, b: nat, id: nat)
    requires Again(d, cpu, r, value, b, id)
    ensures id >= 32 * r + b
  {
    hide Told;
  }

  lemma NothingAgain(s: Local, cpu: nat, r: nat, value: bv32)
    ensures Redelivered(s, s, cpu, r, value, 32)
  {
    hide Told;
    assert forall id: nat :: !Again(s.d, cpu, r, value, 32, id);
    assert s.d.queue[|s.d.queue|..] == [];
  }

  /** A bit that raises nothing. */
  lemma SkipOne(s: Local, s': Local, cpu: nat, r: nat, value: bv32, b: nat)
    requires Redelivered(s, s', cpu, r, value, b + 1) && !Again(s.d, cpu, r, value, b, 32 * r + b) && b < 32
    ensures Redelivered(s, s', cpu, r, value, b)
  {
    hide Again, EntryOf, PendingIn, Full, AskedFor;
    forall id: nat ensures Again(s.d, cpu, r, value, b, id) <==> Again(s.d, cpu, r, value, b + 1, id) {
      AgainStep(s.d, cpu, r, value, b, id);
    }
  }

  /** A bit that raises its interrupt again, and the rest. */
  lemma RaiseOne(s: Local, cpu: nat, r: nat, value: bv32, b: nat, s2: Local)
    requires Valid(s.d) && cpu < MAX_CPU_INTERFACES && b < 32 && 32 * r + b < INT_IDS && NoDuplicates(s.lrs)
    requires Told(value, 32 * r + b) && IsPending(s.d, cpu, 32 * r + b)
    requires var s1 := Retrigger(s, cpu, 32 * r + b); Redelivered(s1, s2, cpu, r, value, b + 1) && Keeps(s1.lrs, s2.lrs)
    ensures Redelivered(s, s2, cpu, r, value, b)
  {
    hide Valid, TriggerTo, Again, EntryOf, Live, AgainPlaced, AgainQueued, NewRequests, Keeps, HereAfter, NoDuplicates,
      IsPending, Told, Regs, Raises;
    var id := 32 * r + b;
    var dest := if id < 32 then cpu else s.d.own;
    var s1 := Retrigger(s, cpu, id);
    ToldIs(value, r, b);
    RegsAre(s.d, cpu, id);
    TriggerExact(s, cpu, id, None, {dest});
    QuietRegisters(s, cpu, id);
    SameAgain(s.d, s1.d);
    SameEffects(s.d, s1.d, cpu, r, value, b + 1);
    LiveIsAgain(s.d, cpu, r, value, b, id);
    if dest == cpu {
      NoOne(s.d, cpu, id, s1.d.queue[|s.d.queue|..]);
      assert s1.d.queue == s.d.queue;
      PlaceMore(s.d, cpu, r, value, b, id, s.lrs, s1.lrs, s2.lrs);
    } else {
      var rs, more := s1.d.queue[|s.d.queue|..], s2.d.queue[|s1.d.queue|..];
      OwnerExists(s.d);
      QueueMore(s.d, cpu, dest, r, value, b, id, rs, more);
      assert s2.d.queue[|s.d.queue|..] == rs + more;
    }
  }

  lemma OwnerExists(d: Dist)
    requires Valid(d)
    ensures d.own < |d.banked| == MAX_CPU_INTERFACES
  {
  }

  lemma NoOne(d: Dist, cpu: nat, id: nat, rs: seq<Request>)
    requires NewRequests(d, cpu, id, None, {cpu}, rs)
    ensures rs == []
  {
    assert rs != [] ==> GoodRequest(d, cpu, id, None, {cpu}, rs[0]);
  }

  lemma LiveIsAgain(d: Dist, cpu: nat, r: nat, value: bv32, b: nat, id: nat)
    requires cpu < |d.banked| && id / 32 == r && id % 32 == b && Told(value, id) && id in Regs(d, cpu, id).pending
    ensures Live(d, cpu, id) ==> Again(d, cpu, r, value, b, id)
  {
    hide Live, Told, Regs;
  }

  lemma QuietRegisters(s: Local, cpu: nat, id: nat)
    requires Valid(s.d) && cpu < MAX_CPU_INTERFACES && id < INT_IDS && NoDuplicates(s.lrs) && IsPending(s.d, cpu, id)
    ensures SameRegisters(s.d, Retrigger(s, cpu, id).d)
  {
    hide Valid, TriggerTo, NoDuplicates, IsPending, Keeps, Appends, PendingStays;
    QuietRetrigger(s, cpu, id);
    RetriggerRaises(s, cpu, id);
  }

  lemma SameEffects(d: Dist, d': Dist, cpu: nat, r: nat, value: bv32, b: nat)
    requires SameRegisters(d, d')
    ensures forall lrs, lrs' :: AgainPlaced(d', cpu, r, value, b, lrs, lrs') ==>
      AgainPlaced(d, cpu, r, value, b, lrs, lrs')
    ensures forall dest, rs :: AgainQueued(d', cpu, dest, r, value, b, rs) ==>
      AgainQueued(d, cpu, dest, r, value, b, rs)
  {
    hide Again, EntryOf, PendingIn, Full, AskedFor;
    SameAgain(d, d');
    forall lrs, lrs' | AgainPlaced(d', cpu, r, value, b, lrs, lrs')
      ensures AgainPlaced(d, cpu, r, value, b, lrs, lrs')
    {
      forall i | 0 <= i < |lrs| ensures RegisterAfter(d, cpu, r, value, b, lrs[i], lrs'[i]) {
        assert RegisterAfter(d', cpu, r, value, b, lrs[i], lrs'[i]);
      }
    }
    forall dest, rs | AgainQueued(d', cpu, dest, r, value, b, rs) ensures AgainQueued(d, cpu, dest, r, value, b, rs) {
      forall i | 0 <= i < |rs| ensures GoodAgain(d, cpu, dest, r, value, b, rs[i]) {
        assert GoodAgain(d', cpu, dest, r, value, b, rs[i]);
      }
    }
  }

  /** All interrupts of the register from bit `b` on. */
  lemma {:induction false} RetriggerBitsExact(s: Local, cpu: nat, r: nat, value: bv32, b: nat, ifPending: bool)
    requires Valid(s.d) && cpu < MAX_CPU_INTERFACES && b <= 32 && InDomain(r, value) && NoDuplicates(s.lrs)
    requires ifPending || forall k :: 0 <= k < 32 && Bit(value, k) ==> IsPending(s.d, cpu, 32 * r + k)
    ensures Redelivered(s, RetriggerBits(s, cpu, r, value, b, ifPending), cpu, r, value, b)
    decreases 32 - b
  {
    hide Valid, Retrigger, Bit, Enabled, IsPending, NoDuplicates, Redelivered, Again, Live, Regs, Told,
      OtherBanks, Appends, Keeps, SameButPending, PendingStays;
    if b == 32 {
      NothingAgain(s, cpu, r, value);
    } else {
      var id := 32 * r + b;
      var again := Bit(value, b) && if ifPending then IsPending(s.d, cpu, id) else Enabled(s.d, cpu, id);
      ToldIs(value, r, b);
      if again {
        var s1 := Retrigger(s, cpu, id);
        RetriggerRaises(s, cpu, id);
        QuietRetrigger(s, cpu, id);
        SameView(s.d, s1.d, cpu);
        RetriggerBitsExact(s1, cpu, r, value, b + 1, ifPending);
        RetriggerBitsRaises(s1, cpu, r, value, b + 1, ifPending);
        RaiseOne(s, cpu, r, value, b, RetriggerBits(s1, cpu, r, value, b + 1, ifPending));
      } else {
        NotAgain(s.d, cpu, r, value, b, ifPending);
        RetriggerBitsExact(s, cpu, r, value, b + 1, ifPending);
        SkipOne(s, RetriggerBits(s, cpu, r, value, b + 1, ifPending), cpu, r, value, b);
      }
    }
  }

  lemma NotAgain(d: Dist, cpu: nat, r: nat, value: bv32, b: nat, ifPending: bool)
    requires Valid(d) && cpu < MAX_CPU_INTERFACES && b < 32
    requires var id := 32 * r + b;
      !(Told(value, id) && if ifPending then IsPending(d, cpu, id) else Enabled(d, cpu, id))
    ensures !Again(d, cpu, r, value, b, 32 * r + b)
  {
    hide Told;
  }
}
