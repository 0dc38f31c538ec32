/**
  The distributor as the code keeps it: registers and request queue updated in place by the CPU
  that holds its lock.
 */
module VgicCode {
  import opened Common
  import opened VgicDelivery
  import opened VgicDistributor
  import opened VgicLists
  import opened VgicMmio
  import opened VgicRaise
  import opened VgicRefill
  import opened VgicRegisters

  /** The end-of-interrupt loop, from List Register `i` on. */
  ghost function EndAll(s: Local, cpu: nat, i: nat): (s': Local)
    requires Valid(s.d) && cpu < MAX_CPU_INTERFACES && i <= |s.lrs|
    ensures Valid(s'.d)
    decreases |s.lrs| - i
  {
    if i == |s.lrs| then s else EndAll(EndOne(s, cpu, i), cpu, i + 1)
  }

  /** Afterwards no ended interrupt is left, and nothing else has moved. */
  lemma {:induction false} EndAllClears(s: Local, cpu: nat, i: nat)
    requires Valid(s.d) && cpu < MAX_CPU_INTERFACES && i <= |s.lrs| && NoDuplicates(s.lrs)
    ensures var s' := EndAll(s, cpu, i);
      && |s'.lrs| == |s.lrs| && NoDuplicates(s'.lrs) && s'.d.queue == s.d.queue && s'.d.ctlr == s.d.ctlr
          && s'.d.serial == s.d.serial
      && forall k :: 0 <= k < |s.lrs| ==> s'.lrs[k] == if i <= k && Finished(s.lrs[k]) then CLEARED else s.lrs[k]
    decreases |s.lrs| - i
  {
    hide Valid, EndOne, NoDuplicates, Finished;
    if i < |s.lrs| {
      var s1 := EndOne(s, cpu, i);
      EndOneClears(s, cpu, i);
      EndAllClears(s1, cpu, i + 1);
    }
  }

  lemma EndOneClears(s: Local, cpu: nat, i: nat)
    requires Valid(s.d) && cpu < MAX_CPU_INTERFACES && i < |s.lrs| && NoDuplicates(s.lrs)
    ensures var s' := EndOne(s, cpu, i);
      && s'.lrs == s.lrs[i := if Finished(s.lrs[i]) then CLEARED else s.lrs[i]] && NoDuplicates(s'.lrs)
      && s'.d.queue == s.d.queue && s'.d.ctlr == s.d.ctlr && s'.d.serial == s.d.serial
  {
  }

  /** What ended is over in the distributor as well. */
  lemma {:induction false} EndAllEnds(s: Local, cpu: nat, i: nat)
    requires Valid(s.d) && cpu < MAX_CPU_INTERFACES && i <= |s.lrs|
    ensures EndedIn(s.d, EndAll(s, cpu, i).d, cpu, s.lrs, i)
    decreases |s.lrs| - i
  {
    hide Valid, SetPending, SetActive, Ended, EndedIn;
    if i < |s.lrs| {
      EndAllEnds(EndOne(s, cpu, i), cpu, i + 1);
      EndStep(s, cpu, i, EndAll(s, cpu, i).d);
    } else {
      NothingEnded(s.d, cpu, s.lrs);
    }
  }

  lemma NothingEnded(d: Dist, cpu: nat, lrs: seq<Lr>)
    ensures EndedIn(d, d, cpu, lrs, |lrs|)
  {
    assert forall id: nat :: !Over(lrs, |lrs|, id);
  }

  class GicDistributorMmio {
    var ctlr: bv32
    var shared: Bank
    var banked: seq<Bank>
    var target: seq<bv32>
    var ownTarget: nat
    var toInject: seq<Request>
    var serial: nat

    ghost function View(): Dist
      reads this
    {
      Dist(ctlr, shared, banked, target, ownTarget, toInject, serial)
    }

    method ChangePendingStatusOf(cpu: nat, id: nat, isPending: bool)
      requires Valid(View()) && cpu < MAX_CPU_INTERFACES
      modifies this`shared, this`banked
      ensures View() == SetPending(old(View()), cpu, id, isPending)
    {
      if id < BANKED_INT_ID_COUNT {
        var b := banked[cpu];
        banked := banked[cpu := b.(pending := if isPending then b.pending + {id} else b.pending - {id})];
      } else {
        shared := shared.(pending := if isPending then shared.pending + {id} else shared.pending - {id});
      }
    }

    method ChangeActiveStatus(cpu: nat, id: nat, isActive: bool)
      requires Valid(View()) && cpu < MAX_CPU_INTERFACES
      modifies this`shared, this`banked
      ensures View() == SetActive(old(View()), cpu, id, isActive)
    {
      if id < BANKED_INT_ID_COUNT {
        var b := banked[cpu];
        banked := banked[cpu := b.(active := if isActive then b.active + {id} else b.active - {id})];
      } else {
        shared := shared.(active := if isActive then shared.active + {id} else shared.active - {id});
      }
    }

    method GetEnable(cpu: nat, id: nat) returns (r: bool)
      requires Valid(View()) && cpu < MAX_CPU_INTERFACES
      ensures r == Enabled(View(), cpu, id)
    {
      r := if id < BANKED_INT_ID_COUNT then id in banked[cpu].enable else id in shared.enable;
    }

    method GetPending(cpu: nat, id: nat) returns (r: bool)
      requires Valid(View()) && cpu < MAX_CPU_INTERFACES
      ensures r == IsPending(View(), cpu, id)
    {
      r := if id < BANKED_INT_ID_COUNT then id in banked[cpu].pending else id in shared.pending;
    }

    method GetPriority(cpu: nat, id: nat) returns (r: nat)
      requires Valid(View()) && cpu < MAX_CPU_INTERFACES && id < INT_IDS
      ensures r == Priority(View(), cpu, id)
    {
      hide ByteOf;
      r := ByteOf(if id < BANKED_INT_ID_COUNT then banked[cpu].priority[id / 4] else shared.priority[id / 4], id % 4);
    }

    method ListEntry(cpu: nat, id: nat, physical: Option<nat>) returns (e: Lr)
      requires Valid(View()) && cpu < MAX_CPU_INTERFACES && id < INT_IDS
      ensures e == EntryFor(View(), cpu, id, physical)
    {
      hide Priority;
      var group := if id < BANKED_INT_ID_COUNT then id in banked[cpu].group else id in shared.group;
      var priority := GetPriority(cpu, id);
      e := Lr(id, group, priority / 8, true, false, if physical.Some? then Hardware(physical.value) else Eoi);
    }

    /** One target of an interrupt: its own List Registers if it is this CPU, else the queue. */
    method TriggerTarget(id: nat, physical: Option<nat>, bit: nat, cpu: nat, regs: ListRegisters)
      returns (injected: bool)
      requires Valid(View()) && cpu < MAX_CPU_INTERFACES && bit < MAX_CPU_INTERFACES && id < INT_IDS
      modifies this, regs`overflows, regs.lr
      ensures Local(View(), regs.lr[..]) == TriggerOne(old(Local(View(), regs.lr[..])), cpu, id, physical, bit)
      ensures bit < |old(banked)| && SameRegs(old(View()), View())
      ensures injected <==> Live(old(View()), bit, id) && (bit == cpu ==> Fits(old(regs.lr[..]), id))
      ensures bit != cpu ==> regs.lr[..] == old(regs.lr[..])
    {
      hide EntryFor, Inject, Fits, Live, SameRegs, OnlyPending;
      ghost var s0 := Local(View(), regs.lr[..]);
      ghost var d1 := SetPending(s0.d, bit, id, true);
      RegsAre(d1, bit, id);
      PendingSame(s0.d, bit, id);
      SameRegsMean(s0.d, d1, bit, id);
      OneOnlyPending(s0, cpu, id, physical, bit);
      OnlyPendingSame(s0.d, TriggerOne(s0, cpu, id, physical, bit).d, id, {bit});
      ChangePendingStatusOf(bit, id, true);
      var enabled := GetEnable(bit, id);
      if ctlr & 3 == 0 || !enabled {
        return false;
      }
      var e := ListEntry(bit, id, physical);
      if bit == cpu {
        InjectPlaces(regs.lr[..], e);
        injected := regs.AddVirtualInterrupt(e);
      } else {
        toInject, serial := toInject + [Request(serial, bit, e)], serial + 1;
        injected := true;
      }
    }

    /**
      Raises an interrupt for every target: an enabled one gets it in its own List Registers if
      it is this CPU, else by a request; the answer is whether any target took it.
     */
    method TriggerInterruptTo(id: nat, physical: Option<nat>, targets: set<nat>, cpu: nat, regs: ListRegisters)
      returns (injected: bool)
      requires Valid(View()) && cpu < MAX_CPU_INTERFACES && id < INT_IDS
      modifies this, regs`overflows, regs.lr
      ensures Local(View(), regs.lr[..]) == TriggerTo(old(Local(View(), regs.lr[..])), cpu, id, physical, targets)
      ensures cpu < |old(banked)| && id / 4 < |Regs(old(View()), cpu, id).priority|
      ensures Raised(old(Local(View(), regs.lr[..])), Local(View(), regs.lr[..]), cpu, id, physical, targets)
      ensures injected <==> Taken(old(Local(View(), regs.lr[..])), cpu, id, targets, MAX_CPU_INTERFACES)
    {
      hide TriggerOne, Valid, Raised, Taken, SameRegs, Live, Fits, Regs;
      ghost var s0 := Local(View(), regs.lr[..]);
      TriggerExact(s0, cpu, id, physical, targets);
      RegsAre(View(), cpu, id);
      NotYet(s0, cpu, id, targets);
      injected := false;
      var bit := 0;
      while bit < MAX_CPU_INTERFACES
        invariant bit <= MAX_CPU_INTERFACES && Valid(View())
        invariant TriggerFrom(Local(View(), regs.lr[..]), cpu, id, physical, targets, bit)
               == TriggerTo(old(Local(View(), regs.lr[..])), cpu, id, physical, targets)
        invariant SameRegs(s0.d, View()) && (bit <= cpu ==> regs.lr[..] == s0.lrs)
        invariant injected <==> Taken(s0, cpu, id, targets, bit)
      {
        ghost var d := View();
        RegsAre(d, bit, id);
        SameCount(s0.d, d);
        SameRegsMean(s0.d, d, bit, id);
        TakenStep(s0, cpu, id, targets, bit);
        if bit in targets {
          var one := TriggerTarget(id, physical, bit, cpu, regs);
          injected := injected || one;
          SameTrans(s0.d, d, View());
        }
        bit := bit + 1;
      }
    }

    method Retriggering(id: nat, cpu: nat, regs: ListRegisters)
      requires Valid(View()) && cpu < MAX_CPU_INTERFACES && id < INT_IDS
      modifies this, regs`overflows, regs.lr
      ensures Local(View(), regs.lr[..]) == Retrigger(old(Local(View(), regs.lr[..])), cpu, id)
    {
      hide TriggerTo, Valid;
      var _ := TriggerInterruptTo(id, None, if id < BANKED_INT_ID_COUNT then {cpu} else {ownTarget}, cpu, regs);
    }

    /** Takes this CPU's requests out of the queue while they fit. */
    method InjectInterruptHandler(cpu: nat, regs: ListRegisters)
      requires Valid(View()) && cpu < MAX_CPU_INTERFACES
      modifies this`toInject, regs`overflows, regs.lr
      ensures Local(View(), regs.lr[..]) == InjectQueued(old(Local(View(), regs.lr[..])), cpu)
      ensures QueueOk(old(toInject), serial) ==>
        forall i :: 0 <= i < regs.lr.Length ==> FilledBy(old(toInject), cpu, old(regs.lr[..])[i], regs.lr[..][i])
    {
      hide Inject, Fits, FilledBy, QueueOk;
      if QueueOk(toInject, serial) { DeliverFills(toInject, serial, regs.lr[..], cpu); }
      var queue, remaining := toInject, [];
      ghost var all := Deliver(queue, regs.lr[..], cpu);
      while queue != []
        invariant remaining + Deliver(queue, regs.lr[..], cpu).0 == all.0 && Deliver(queue, regs.lr[..], cpu).1 == all.1
        decreases |queue|
      {
        var r := queue[0];
        ghost var was, left := regs.lr[..], remaining;
        var taken := false;
        if r.target == cpu {
          InjectPlaces(regs.lr[..], r.entry);
          taken := regs.AddVirtualInterrupt(r.entry);
        }
        if !taken {
          remaining := remaining + [r];
        }
        queue := queue[1..];
        ghost var rest := Deliver(queue, regs.lr[..], cpu).0;
        assert !taken ==> remaining + rest == left + ([r] + rest);
      }
      toInject := remaining;
    }

    /** Collects the pending and enabled interrupts of this CPU's view, highest priority first. */
    method CollectCandidates(cpu: nat) returns (cs: seq<Candidate>)
      requires Valid(View()) && cpu < MAX_CPU_INTERFACES
      ensures cs == Candidates(View(), cpu, ViewSize(View(), cpu))
    {
      hide Valid, Priority, IsPending, Enabled;
      var max := if cpu == ownTarget then INT_IDS else BANKED_INT_ID_COUNT;
      cs := [];
      var id := 0;
      while id < max
        invariant id <= max && cs == Candidates(View(), cpu, id)
      {
        if id != TIMER_INT_ID {
          var p := GetPending(cpu, id);
          var e := GetEnable(cpu, id);
          if p && e {
            var priority := GetPriority(cpu, id);
            cs := InsertCandidate(cs, Candidate(priority, id));
          }
        }
        id := id + 1;
      }
    }

    /** Refills this CPU's List Registers; stops at the first interrupt that does not fit. */
    method InjectPendingForCurrentCpu(cpu: nat, regs: ListRegisters)
      requires Valid(View()) && cpu < MAX_CPU_INTERFACES
      modifies regs`overflows, regs.lr
      ensures Local(View(), regs.lr[..]) == ScanPending(old(Local(View(), regs.lr[..])), cpu)
      ensures cpu < |banked| && (NoDuplicates(old(regs.lr[..])) ==> Scanned(View(), cpu, old(regs.lr[..]), regs.lr[..]))
    {
      hide Valid, Candidates, Inject, Fits, EntryFor, Scanned, NoDuplicates;
      BankCount(View());
      if NoDuplicates(regs.lr[..]) { ScanExact(Local(View(), regs.lr[..]), cpu); }
      if ctlr & 3 == 0 {
        return;
      }
      var cs := CollectCandidates(cpu);
      CandidatesInRange(View(), cpu, ViewSize(View(), cpu));
      while cs != []
        invariant InRange(cs)
        invariant InjectAll(View(), cpu, regs.lr[..], cs)
               == InjectAll(View(), cpu, old(regs.lr[..]), Candidates(View(), cpu, ViewSize(View(), cpu)))
        decreases |cs|
      {
        var e := ListEntry(cpu, cs[0].id, None);
        EntryId(View(), cpu, cs[0].id);
        InjectPlaces(regs.lr[..], e);
        var added := regs.AddVirtualInterrupt(e);
        if !added {
          break;
        }
        cs := cs[1..];
      }
    }

    /** Raises again the interrupts of a register that a write to it makes deliverable. */
    method RetriggerWritten(r: nat, value: bv32, ifPending: bool, cpu: nat, regs: ListRegisters)
      requires Valid(View()) && cpu < MAX_CPU_INTERFACES && InDomain(r, value)
      modifies this, regs`overflows, regs.lr
      ensures Local(View(), regs.lr[..]) == RetriggerBits(old(Local(View(), regs.lr[..])), cpu, r, value, 0, ifPending)
    {
      hide Valid, Bit, Retrigger, IsPending, Enabled;
      var b := 0;
      while b < 32
        invariant b <= 32 && Valid(View())
        invariant RetriggerBits(Local(View(), regs.lr[..]), cpu, r, value, b, ifPending)
               == RetriggerBits(old(Local(View(), regs.lr[..])), cpu, r, value, 0, ifPending)
      {
        if Bit(value, b) {
          var pending := GetPending(cpu, 32 * r + b);
          var enabled := GetEnable(cpu, 32 * r + b);
          if (ifPending && pending) || (!ifPending && enabled) {
            Retriggering(32 * r + b, cpu, regs);
          }
        }
        b := b + 1;
      }
    }

    /** Replaces the registers that hold interrupt `id` in this CPU's view. */
    method SetBank(cpu: nat, id: nat, b: Bank)
      requires Valid(View()) && cpu < MAX_CPU_INTERFACES
      requires ValidBank(b, |BankOf(View(), cpu, id).priority|, |BankOf(View(), cpu, id).configuration|)
      modifies this`shared, this`banked
      ensures View() == WithBank(old(View()), cpu, id, b)
    {
      if id < BANKED_INT_ID_COUNT {
        banked := banked[cpu := b];
      } else {
        shared := b;
      }
    }

    /** A guest's write to one-bit register `r`. */
    method WriteBits(g: Register, r: nat, value: bv32, cpu: nat, regs: ListRegisters)
      requires Valid(View()) && cpu < MAX_CPU_INTERFACES && Allowed(g, value)
      requires g == Group(r) || g == SetEnable(r) || g == ClearEnable(r) || g == SetPend(r) || g == ClearPend(r)
        || g == SetAct(r) || g == ClearAct(r)
      modifies this, regs`overflows, regs.lr
      ensures Local(View(), regs.lr[..]) == Write(old(Local(View(), regs.lr[..])), cpu, g, value)
    {
      hide Valid, RetriggerBits, IdsIn, IdsOf, InDomain;
      BankCount(View());
      var b := if r == 0 then banked[cpu] else shared;
      var ids := IdsIn(r, value);
      match g {
        case Group(_) => SetBank(cpu, 32 * r, b.(group := b.group - IdsOf(r) + ids));
        case SetEnable(_) =>
          SetBank(cpu, 32 * r, b.(enable := b.enable + ids));
          RetriggerWritten(r, value, true, cpu, regs);
        case ClearEnable(_) => SetBank(cpu, 32 * r, b.(enable := b.enable - ids));
        case SetPend(_) =>
          SetBank(cpu, 32 * r, b.(pending := b.pending + ids));
          RetriggerWritten(r, value, false, cpu, regs);
        case ClearPend(_) => SetBank(cpu, 32 * r, b.(pending := b.pending - ids));
        case SetAct(_) => SetBank(cpu, 32 * r, b.(active := b.active + ids));
        case ClearAct(_) => SetBank(cpu, 32 * r, b.(active := b.active - ids));
      }
    }

    /** A guest's write to the distributor. */
    method WriteRegister(offset: nat, width: nat, value: bv32, cpu: nat, regs: ListRegisters)
      requires Valid(View()) && cpu < MAX_CPU_INTERFACES && Allowed(Decode(offset, width), value)
      modifies this, regs`overflows, regs.lr
      ensures Local(View(), regs.lr[..]) == Write(old(Local(View(), regs.lr[..])), cpu, Decode(offset, width), value)
      ensures Valid(View()) && (NoDuplicates(old(regs.lr[..])) ==>
        Means(old(Local(View(), regs.lr[..])), Local(View(), regs.lr[..]), cpu, offset, width, value))
    {
      hide Means, NoDuplicates, Write;
      if NoDuplicates(regs.lr[..]) { WriteMeans(Local(View(), regs.lr[..]), cpu, offset, width, value); }
      WriteDecoded(offset, width, value, cpu, regs);
    }

    method WriteDecoded(offset: nat, width: nat, value: bv32, cpu: nat, regs: ListRegisters)
      requires Valid(View()) && cpu < MAX_CPU_INTERFACES && Allowed(Decode(offset, width), value)
      modifies this, regs`overflows, regs.lr
      ensures Local(View(), regs.lr[..]) == Write(old(Local(View(), regs.lr[..])), cpu, Decode(offset, width), value)
    {
      hide Valid, RetriggerBits, IdsIn, IdsOf, InDomain, Decode, WriteByte, TriggerTo, SgiTargets, SgiNumber;
      BankCount(View());
      var g := Decode(offset, width);
      match g {
        case Control => ctlr := value;
        case PriorityByte(r, k) =>
          var b := if r < 8 then banked[cpu] else shared;
          SetBank(cpu, 4 * r, b.(priority := b.priority[r := WriteByte(b.priority[r], k, value)]));
        case PriorityWord(r) =>
          var b := if r < 8 then banked[cpu] else shared;
          SetBank(cpu, 4 * r, b.(priority := b.priority[r := value]));
        case TargetByte(r, k) => target := target[r := WriteByte(target[r], k, value)];
        case TargetWord(r) => target := target[r := value];
        case Configuration(r) =>
          var b := if r < 2 then banked[cpu] else shared;
          SetBank(cpu, 16 * r, b.(configuration := b.configuration[r := value]));
        case SoftwareInterrupt => var _ :=
          TriggerInterruptTo(SgiNumber(value), None, SgiTargets(value, cpu), cpu, regs);
        case Nothing =>
        case _ => WriteBits(g, g.r, value, cpu, regs);
      }
    }

    /**
      The maintenance interrupt: ended interrupts are taken out, then the queue and the pending
      interrupts refill the List Registers.
     */
    method MaintenanceInterruptHandler(cpu: nat, regs: ListRegisters)
      requires Valid(View()) && cpu < MAX_CPU_INTERFACES && NoDuplicates(regs.lr[..]) && QueueOk(toInject, serial)
      modifies this, regs`overflows, regs.lr
      ensures Valid(View()) && NoDuplicates(regs.lr[..]) && QueueOk(toInject, serial)
      ensures Local(View(), regs.lr[..])
           == ScanPending(InjectQueued(EndAll(old(Local(View(), regs.lr[..])), cpu, 0), cpu), cpu)
      ensures forall r :: r in old(toInject) && r !in toInject ==> r.target == cpu
      ensures EndedIn(old(View()), View(), cpu, old(regs.lr[..]), 0)
      ensures cpu < |banked|
        && Scanned(View(), cpu, InjectQueued(EndAll(old(Local(View(), regs.lr[..])), cpu, 0), cpu).lrs, regs.lr[..])
    {
      hide Valid, NoDuplicates, QueueOk, Ended, SetPending, SetActive, Deliver, ScanPending, Scanned, Keeps, Accounted,
        FilledBy, EndedIn;
      ghost var s0 := Local(View(), regs.lr[..]);
      var i := 0;
      while i < regs.lr.Length
        invariant i <= regs.lr.Length && Valid(View()) && toInject == old(toInject) && serial == old(serial)
        invariant EndAll(Local(View(), regs.lr[..]), cpu, i) == EndAll(s0, cpu, 0)
      {
        if Ended(regs.lr[i]) {
          ghost var was := regs.lr[..];
          var id := regs.lr[i].intId;
          ChangePendingStatusOf(cpu, id, false);
          ChangeActiveStatus(cpu, id, false);
          regs.lr[i] := CLEARED;
          assert regs.lr[..] == was[i := CLEARED];
        }
        i := i + 1;
      }
      EndAllClears(s0, cpu, 0);
      EndAllEnds(s0, cpu, 0);
      DeliverKeeps(toInject, serial, regs.lr[..], cpu);
      ghost var before := toInject;
      InjectInterruptHandler(cpu, regs);
      ghost var s2 := Local(View(), regs.lr[..]);
      LeftForTarget(before, toInject, regs.lr[..], cpu);
      EndedQueue(s0.d, EndAll(s0, cpu, 0).d, cpu, s0.lrs, View());
      InjectPendingForCurrentCpu(cpu, regs);
      if DistributorEnabled(View()) {
        ScanIsComplete(s2, cpu);
      } else {
        ScanOff(s2, cpu);
      }
    }
  }

  /** The queue has no part in it. */
  lemma EndedQueue(d: Dist, d1: Dist, cpu: nat, lrs: seq<Lr>, d2: Dist)
    requires EndedIn(d, d1, cpu, lrs, 0) && d2 == d1.(queue := d2.queue)
    ensures EndedIn(d, d2, cpu, lrs, 0)
  {
    hide Over;
    forall c, id: nat | 0 <= c < |d.banked| ensures BitsEnd(d, d2, cpu, c, id, Over(lrs, 0, id)) {
      assert BitsEnd(d, d1, cpu, c, id, Over(lrs, 0, id));
    }
  }

  lemma NotYet(s: Local, cpu: nat, id: nat, targets: set<nat>)
    ensures !Taken(s, cpu, id, targets, 0) && SameRegs(s.d, s.d)
  {
  }

  lemma BankCount(d: Dist)
    requires Valid(d)
    ensures |d.banked| == MAX_CPU_INTERFACES && ValidBank(d.shared, 255, 64) && |d.target| == 255
    ensures forall c :: 0 <= c < MAX_CPU_INTERFACES ==> ValidBank(d.banked[c], 8, 2)
  {
  }

  lemma EntryId(d: Dist, cpu: nat, id: nat)
    requires Valid(d) && cpu < MAX_CPU_INTERFACES && id < INT_IDS
    ensures EntryFor(d, cpu, id, None).intId == id
  {
  }

  lemma LeftForTarget(queue: seq<Request>, rest: seq<Request>, lrs: seq<Lr>, cpu: nat)
    requires Accounted(queue, rest, lrs, cpu)
    ensures forall r :: r in queue && r !in rest ==> r.target == cpu
  {
  }

  lemma ScanOff(s: Local, cpu: nat)
    requires Valid(s.d) && cpu < MAX_CPU_INTERFACES && !DistributorEnabled(s.d)
    ensures ScanPending(s, cpu) == s
  {
  }
}
