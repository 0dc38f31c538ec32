/**
  Runs of the virtual GIC of one machine: every CPU works under the distributor's lock and
  on its own List Registers, guests change the state of their List Registers at any time,
  and the steps of different CPUs interleave freely.
 */
module VgicRuns {
  import opened Common
  import opened VgicDelivery
  import opened VgicDistributor
  import opened VgicLists
  import opened VgicMmio

  datatype World = World(d: Dist, lrs: seq<seq<Lr>>)

  datatype Op =
    | MmioWrite(offset: nat, width: nat, value: bv32)
    | Raise(id: nat, physical: Option<nat>)
    | DeliverQueue
    | EndInterrupt(i: nat)
    | Scan
    | GuestMoves(lrs: seq<Lr>)

  /** The guest or the hardware changes states, never interrupt numbers, and makes no inactive entry live. */
  ghost predicate GuestStep(lrs: seq<Lr>, lrs': seq<Lr>) {
    && |lrs'| == |lrs|
    && forall i :: 0 <= i < |lrs| ==>
         && lrs'[i] == lrs[i].(pending := lrs'[i].pending, active := lrs'[i].active)
         && (Occupied(lrs'[i]) ==> Occupied(lrs[i]))
  }

  ghost predicate Shape(w: World) {
    Valid(w.d) && |w.lrs| == MAX_CPU_INTERFACES
  }

  /** Operations the model covers. */
  ghost predicate Covered(w: World, cpu: nat, op: Op) {
    && Shape(w) && cpu < MAX_CPU_INTERFACES
    && match op
       case MmioWrite(offset, width, value) => Allowed(Decode(offset, width), value)
       case Raise(id, physical) => id < INT_IDS
       case EndInterrupt(i) => i < |w.lrs[cpu]|
       case GuestMoves(lrs) => GuestStep(w.lrs[cpu], lrs)
       case _ => true
  }

  /** One step of one CPU, on the distributor and its own List Registers. */
  function After(s: Local, cpu: nat, op: Op): (s': Local)
    requires Valid(s.d) && cpu < MAX_CPU_INTERFACES
    requires match op
      case MmioWrite(offset, width, value) => Allowed(Decode(offset, width), value)
      case Raise(id, physical) => id < INT_IDS
      case EndInterrupt(i) => i < |s.lrs|
      case _ => true
    ensures Valid(s'.d)
  {
    match op
    case MmioWrite(offset, width, value) => Write(s, cpu, Decode(offset, width), value)
    case Raise(id, physical) => TriggerTo(s, cpu, id, physical, {s.d.own})
    case DeliverQueue => InjectQueued(s, cpu)
    case EndInterrupt(i) => EndOne(s, cpu, i)
    case Scan => ScanPending(s, cpu)
    case GuestMoves(lrs) => s.(lrs := lrs)
  }

  ghost predicate Step(w: World, cpu: nat, op: Op, w': World) {
    && Covered(w, cpu, op)
    && var s' := After(Local(w.d, w.lrs[cpu]), cpu, op);
       w' == World(s'.d, w.lrs[cpu := s'.lrs])
  }

  ghost predicate Inv(w: World) {
    && Shape(w) && QueueOk(w.d.queue, w.d.serial)
    && forall c :: 0 <= c < MAX_CPU_INTERFACES ==> NoDuplicates(w.lrs[c])
  }

  // ---------------------------------------------------------------- every step

  /** What any step does to the queue and to the List Registers of its CPU. */
  ghost predicate StepEffect(s: Local, s': Local, cpu: nat, op: Op) {
    && NoDuplicates(s'.lrs) && QueueOk(s'.d.queue, s'.d.serial)
    && (if op.DeliverQueue? then Accounted(s.d.queue, s'.d.queue, s'.lrs, cpu) else s.d.queue <= s'.d.queue)
  }

  lemma AppendOk(d: Dist, d': Dist, cpu: nat)
    requires QueueOk(d.queue, d.serial) && Appends(d, d', cpu)
    ensures QueueOk(d'.queue, d'.serial)
  {
  }

  lemma GuestNoDuplicates(lrs: seq<Lr>, lrs': seq<Lr>)
    requires NoDuplicates(lrs) && GuestStep(lrs, lrs')
    ensures NoDuplicates(lrs')
  {
  }

  lemma EndNoDuplicates(lrs: seq<Lr>, i: nat)
    requires NoDuplicates(lrs) && i < |lrs|
    ensures NoDuplicates(lrs[i := CLEARED])
  {
  }

  lemma ScanNoDuplicates(s: Local, cpu: nat)
    requires Valid(s.d) && cpu < MAX_CPU_INTERFACES && NoDuplicates(s.lrs)
    ensures NoDuplicates(ScanPending(s, cpu).lrs)
  {
    hide Valid, NoDuplicates, InjectAll, Candidates;
    if DistributorEnabled(s.d) {
      ScanIsComplete(s, cpu);
    }
  }

  lemma EffectOf(s: Local, cpu: nat, op: Op)
    requires Valid(s.d) && cpu < MAX_CPU_INTERFACES && NoDuplicates(s.lrs) && QueueOk(s.d.queue, s.d.serial)
    requires match op
      case MmioWrite(offset, width, value) => Allowed(Decode(offset, width), value)
      case Raise(id, physical) => id < INT_IDS
      case EndInterrupt(i) => i < |s.lrs|
      case GuestMoves(lrs) => GuestStep(s.lrs, lrs)
      case _ => true
    ensures StepEffect(s, After(s, cpu, op), cpu, op)
  {
    hide Valid, NoDuplicates, QueueOk, Accounted, Write, TriggerTo, Deliver, ScanPending, Decode, Allowed,
      OnlyPending, Keeps, IsPending;
    match op
    case MmioWrite(offset, width, value) =>
      WritePending(s, cpu, Decode(offset, width), value);
      AppendOk(s.d, After(s, cpu, op).d, cpu);
    case Raise(id, physical) =>
      TriggerRaises(s, cpu, id, physical, {s.d.own});
      AppendOk(s.d, After(s, cpu, op).d, cpu);
    case DeliverQueue => DeliverKeeps(s.d.queue, s.d.serial, s.lrs, cpu);
    case EndInterrupt(i) => EndNoDuplicates(s.lrs, i);
    case Scan => ScanNoDuplicates(s, cpu);
    case GuestMoves(lrs) => GuestNoDuplicates(s.lrs, lrs);
  }

  lemma StepInv(w: World, cpu: nat, op: Op, w': World)
    requires Inv(w) && Step(w, cpu, op, w')
    ensures Inv(w') && cpu < MAX_CPU_INTERFACES
    ensures StepEffect(Local(w.d, w.lrs[cpu]), Local(w'.d, w'.lrs[cpu]), cpu, op)
  {
    hide Valid, NoDuplicates, QueueOk, After, Accounted;
    EffectOf(Local(w.d, w.lrs[cpu]), cpu, op);
  }

  /** The two ways for a pending bit to be cleared. */
  ghost predicate MayClear(w: World, cpu: nat, op: Op, c: nat, id: nat)
    requires Covered(w, cpu, op)
  {
    && (id < BANKED_INT_ID_COUNT ==> c == cpu)
    && match op
       case MmioWrite(offset, width, value) => Decode(offset, width).ClearPend?
         && id in IdsIn(Decode(offset, width).r, value)
       case EndInterrupt(i) => Ended(w.lrs[cpu][i]) && w.lrs[cpu][i].intId == id
       case _ => false
  }

  /** A pending bit stays unless a guest's ICPENDR write or the end of that very interrupt clears it. */
  lemma PendingCleared(w: World, cpu: nat, op: Op, w': World, c: nat, id: nat)
    requires Inv(w) && Inv(w') && Step(w, cpu, op, w') && c < MAX_CPU_INTERFACES && IsPending(w.d, c, id)
    ensures IsPending(w'.d, c, id) || MayClear(w, cpu, op, c, id)
  {
    hide Valid, NoDuplicates, QueueOk, Write, TriggerTo, Deliver, Decode, Allowed, Keeps, IdsIn, IsPending, EndOne;
    var s := Local(w.d, w.lrs[cpu]);
    match op
    case MmioWrite(offset, width, value) => WritePending(s, cpu, Decode(offset, width), value);
    case Raise(rid, physical) =>
      TriggerRaises(s, cpu, rid, physical, {s.d.own});
      NoPendingLost(w.d, w'.d, c, id);
    case EndInterrupt(i) => EndPending(s, cpu, i, c, id);
    case DeliverQueue => NoPendingLost(w.d, w'.d, c, id);
    case _ =>
  }

  lemma EndPending(s: Local, cpu: nat, i: nat, c: nat, id: nat)
    requires Valid(s.d) && cpu < MAX_CPU_INTERFACES && c < MAX_CPU_INTERFACES && i < |s.lrs| && IsPending(s.d, c, id)
    ensures IsPending(EndOne(s, cpu, i).d, c, id)
      || (Ended(s.lrs[i]) && s.lrs[i].intId == id && (id < BANKED_INT_ID_COUNT ==> c == cpu))
  {
  }

  lemma NoPendingLost(d: Dist, d': Dist, c: nat, id: nat)
    requires Valid(d) && Valid(d') && c < MAX_CPU_INTERFACES && IsPending(d, c, id)
    requires PendingStays(d, d') || (d'.banked == d.banked && d'.shared == d.shared)
    ensures IsPending(d', c, id)
  {
  }

  // ---------------------------------------------------------------- whole runs

  ghost predicate Init(w: World) {
    && Shape(w) && w.d.queue == []
    && forall c, i :: 0 <= c < MAX_CPU_INTERFACES && 0 <= i < |w.lrs[c]| ==> w.lrs[c][i] == CLEARED
  }

  ghost predicate Run(ws: seq<World>, cpus: seq<nat>, ops: seq<Op>) {
    && |ws| == |ops| + 1 == |cpus| + 1 && Init(ws[0])
    && forall i :: 0 <= i < |ops| ==> Step(ws[i], cpus[i], ops[i], ws[i + 1])
  }

  lemma {:induction false} RunInv(ws: seq<World>, cpus: seq<nat>, ops: seq<Op>, n: nat)
    requires Run(ws, cpus, ops) && n < |ws|
    ensures Inv(ws[n])
  {
    hide Step, Valid;
    if n > 0 {
      RunInv(ws, cpus, ops, n - 1);
      StepInv(ws[n - 1], cpus[n - 1], ops[n - 1], ws[n]);
    }
  }

  /** In every reachable state no interrupt is in two List Registers of a CPU. */
  lemma NeverDuplicated(ws: seq<World>, cpus: seq<nat>, ops: seq<Op>, n: nat, c: nat, i: nat, j: nat)
    requires Run(ws, cpus, ops) && n < |ws| && c < |ws[n].lrs| && i < j < |ws[n].lrs[c]|
    requires Occupied(ws[n].lrs[c][i]) && Occupied(ws[n].lrs[c][j])
    ensures ws[n].lrs[c][i].intId != ws[n].lrs[c][j].intId
  {
    RunInv(ws, cpus, ops, n);
  }

  /** Request `r` left the queue in step `k`, for a List Register of its target. */
  ghost predicate DeliveredAt(ws: seq<World>, cpus: seq<nat>, ops: seq<Op>, k: nat, r: Request)
    requires k < |ops| && |ws| == |ops| + 1 == |cpus| + 1
  {
    && ops[k].DeliverQueue? && cpus[k] == r.target && r.target < |ws[k + 1].lrs|
    && r in ws[k].d.queue && r !in ws[k + 1].d.queue && PendingIn(ws[k + 1].lrs[r.target], r.entry.intId)
  }

  /**
    A request queued in state `m` is, in any later state `n`, still in the queue, which is in
    the order of arrival; or some step in between delivered it to its own target.
   */
  lemma {:induction false} RequestFate(ws: seq<World>, cpus: seq<nat>, ops: seq<Op>, m: nat, n: nat, r: Request)
    requires Run(ws, cpus, ops) && m <= n < |ws| && r in ws[m].d.queue
    ensures QueueOk(ws[n].d.queue, ws[n].d.serial)
    ensures r in ws[n].d.queue || exists k :: m <= k < n && DeliveredAt(ws, cpus, ops, k, r)
    decreases n
  {
    hide Step, QueueOk, Valid, PendingIn, Init;
    RunInv(ws, cpus, ops, n);
    if m < n {
      RequestFate(ws, cpus, ops, m, n - 1, r);
      if r in ws[n - 1].d.queue {
        RunInv(ws, cpus, ops, n - 1);
        StepInv(ws[n - 1], cpus[n - 1], ops[n - 1], ws[n]);
        StepKeepsRequest(ws[n - 1], cpus[n - 1], ops[n - 1], ws[n], r);
        if r !in ws[n].d.queue {
          assert DeliveredAt(ws, cpus, ops, n - 1, r);
        }
      }
    }
  }

  lemma StepKeepsRequest(w: World, cpu: nat, op: Op, w': World, r: Request)
    requires Inv(w) && Inv(w') && cpu < MAX_CPU_INTERFACES && r in w.d.queue
    requires StepEffect(Local(w.d, w.lrs[cpu]), Local(w'.d, w'.lrs[cpu]), cpu, op)
    ensures r in w'.d.queue || (op.DeliverQueue? && cpu == r.target && PendingIn(w'.lrs[cpu], r.entry.intId))
  {
  }

  /**
    The interrupt a step of one CPU may make pending in another CPU's bank: an SGI aimed at it,
    or a private interrupt raised for it as the owner.
   */
  ghost predicate Reaches(w: World, cpu: nat, op: Op, c: nat, id: nat)
    requires Covered(w, cpu, op)
  {
    match op
    case MmioWrite(offset, width, value) =>
      Decode(offset, width).SoftwareInterrupt? && c in SgiTargets(value, cpu) && id == SgiNumber(value)
    case Raise(rid, _) => rid < BANKED_INT_ID_COUNT && c == w.d.own && id == rid
    case _ => false
  }

  /**
    In any interleaving a step of one CPU changes nothing in another CPU's private registers but
    the pending bit of an interrupt it sends there.
   */
  lemma BankChangesOnlyBy(w: World, cpu: nat, op: Op, w': World, c: nat)
    requires Inv(w) && Inv(w') && Step(w, cpu, op, w') && c < MAX_CPU_INTERFACES && c != cpu
    ensures w'.d.banked[c] == w.d.banked[c]
      || exists id :: 0 <= id < BANKED_INT_ID_COUNT && Reaches(w, cpu, op, c, id)
                      && w'.d.banked[c] == w.d.banked[c].(pending := w.d.banked[c].pending + {id})
  {
    hide NoDuplicates, QueueOk, Write, TriggerTo, Deliver, Decode, Allowed, Raises, SgiTargets, SgiNumber;
    var s := Local(w.d, w.lrs[cpu]);
    match op
    case MmioWrite(offset, width, value) =>
      if Decode(offset, width).SoftwareInterrupt? {
        SgiExact(s, cpu, value);
        assert c in SgiTargets(value, cpu) ==> Reaches(w, cpu, op, c, SgiNumber(value));
      } else {
        WriteIsolated(s, cpu, Decode(offset, width), value);
      }
    case Raise(id, physical) =>
      TriggerRaises(s, cpu, id, physical, {s.d.own});
      assert id < BANKED_INT_ID_COUNT && c == w.d.own ==> Reaches(w, cpu, op, c, id);
      assert w.d.banked[c].pending + {} == w.d.banked[c].pending;
    case _ =>
  }

  /**
    Bank isolation over whole runs: as long as the only steps that touch the distributor are
    register writes of one CPU other than GICD_SGIR, no other CPU's private registers change.
   */
  lemma {:induction false} BanksIsolated(ws: seq<World>, cpus: seq<nat>, ops: seq<Op>, m: nat, n: nat, cpu: nat, c: nat)
    requires Run(ws, cpus, ops) && m <= n < |ws| && cpu < MAX_CPU_INTERFACES && c < MAX_CPU_INTERFACES && c != cpu
    requires forall k :: m <= k < n ==>
      ops[k].GuestMoves? || (ops[k].MmioWrite? && cpus[k] == cpu
        && !Decode(ops[k].offset, ops[k].width).SoftwareInterrupt?)
    ensures Shape(ws[m]) && Shape(ws[n]) && ws[n].d.banked[c] == ws[m].d.banked[c]
    decreases n
  {
    hide Valid, Write, Decode, Allowed, QueueOk, Init;
    RunInv(ws, cpus, ops, n);
    RunInv(ws, cpus, ops, m);
    BankCount(ws[m].d);
    BankCount(ws[n].d);
    if m < n {
      BanksIsolated(ws, cpus, ops, m, n - 1, cpu, c);
      RunInv(ws, cpus, ops, n - 1);
      BankCount(ws[n - 1].d);
      if ops[n - 1].MmioWrite? {
        var s := Local(ws[n - 1].d, ws[n - 1].lrs[cpu]);
        WriteIsolated(s, cpu, Decode(ops[n - 1].offset, ops[n - 1].width), ops[n - 1].value);
      }
    }
  }

  lemma BankCount(d: Dist)
    requires Valid(d)
    ensures |d.banked| == MAX_CPU_INTERFACES
  {
  }
}
