/**
  What raising an interrupt comes to, target by target, in terms of the registers' own fields:
  who gets it, by which way, and with which List Register entry.
 */
module VgicRaise {
  import opened Common
  import opened VgicDelivery
  import opened VgicDistributor
  import opened VgicLists

  /** The registers of interrupt `id` to CPU `c`: its private ones up to number 31, else the shared ones. */
  ghost function Regs(d: Dist, c: nat, id: nat): Bank
    requires c < |d.banked|
  {
    if id < 32 then d.banked[c] else d.shared
  }

  /** Distributor and interrupt are enabled. */
  ghost predicate Live(d: Dist, c: nat, id: nat)
    requires c < |d.banked|
  {
    d.ctlr & 3 != 0 && id in Regs(d, c, id).enable
  }

  /**
    An entry for interrupt `id` of CPU `c`: pending, with the group of its registers, the top
    five bits of its priority byte, and the right one to tell about its end.
   */
  ghost predicate EntryIs(d: Dist, c: nat, id: nat, physical: Option<nat>, e: Lr)
    requires c < |d.banked| && id / 4 < |Regs(d, c, id).priority|
  {
    && e.intId == id && e.pending && !e.active
    && (e.group <==> id in Regs(d, c, id).group)
    && e.priority * 8 <= ByteAt(Regs(d, c, id).priority[id / 4], id % 4) as nat < e.priority * 8 + 8
    && e.ending == (if physical.Some? then Hardware(physical.value) else Eoi)
  }

  lemma RegsAre(d: Dist, c: nat, id: nat)
    requires Valid(d) && c < MAX_CPU_INTERFACES
    ensures |d.banked| == MAX_CPU_INTERFACES && BankOf(d, c, id) == Regs(d, c, id)
    ensures id < INT_IDS ==> id / 4 < |Regs(d, c, id).priority|
    ensures DistributorEnabled(d) && Enabled(d, c, id) <==> Live(d, c, id)
    ensures IsPending(d, c, id) <==> id in Regs(d, c, id).pending
  {
  }

  lemma EntryForIs(d: Dist, c: nat, id: nat, physical: Option<nat>)
    requires Valid(d) && c < MAX_CPU_INTERFACES && id < INT_IDS
    ensures |d.banked| == MAX_CPU_INTERFACES && id / 4 < |Regs(d, c, id).priority|
    ensures EntryIs(d, c, id, physical, EntryFor(d, c, id, physical))
  {
    hide Valid, ByteAt;
    RegsAre(d, c, id);
  }

  // ---------------------------------------------------------------- registers that stay

  /** Pending bits, the queue and its numbering apart, the distributors are the same. */
  ghost predicate SameRegs(d: Dist, d': Dist) {
    && |d'.banked| == |d.banked| && d'.ctlr == d.ctlr && d'.own == d.own && d'.target == d.target
    && (forall c :: 0 <= c < |d.banked| ==> d'.banked[c] == d.banked[c].(pending := d'.banked[c].pending))
    && d'.shared == d.shared.(pending := d'.shared.pending)
  }

  lemma SameRegsMean(d: Dist, d': Dist, c: nat, id: nat)
    requires SameRegs(d, d') && c < |d.banked|
    ensures Live(d', c, id) <==> Live(d, c, id)
    ensures Regs(d', c, id).priority == Regs(d, c, id).priority
    ensures forall physical, e :: id / 4 < |Regs(d, c, id).priority| ==>
      (EntryIs(d', c, id, physical, e) <==> EntryIs(d, c, id, physical, e))
  {
  }

  lemma OnlyPendingSame(d: Dist, d': Dist, id: nat, targets: set<nat>)
    requires Valid(d) && Valid(d') && OnlyPending(d, d', id, targets)
    ensures SameRegs(d, d')
  {
  }

  // ---------------------------------------------------------------- the List Registers

  /** The List Registers of the raising CPU after an interrupt for it: placed if there is room. */
  ghost predicate HereAfter(d: Dist, cpu: nat, id: nat, physical: Option<nat>, lrs: seq<Lr>, lrs': seq<Lr>)
    requires cpu < |d.banked| && id / 4 < |Regs(d, cpu, id).priority|
  {
    if !Live(d, cpu, id) || !Fits(lrs, id) then lrs' == lrs
    else exists e :: EntryIs(d, cpu, id, physical, e) && Placed(lrs, e, lrs')
  }

  lemma TriggerHere(s: Local, cpu: nat, id: nat, physical: Option<nat>)
    requires Valid(s.d) && cpu < MAX_CPU_INTERFACES && id < INT_IDS
    ensures var s' := TriggerOne(s, cpu, id, physical, cpu);
      && s'.d.queue == s.d.queue && s'.d.serial == s.d.serial
      && |s.d.banked| == MAX_CPU_INTERFACES && id / 4 < |Regs(s.d, cpu, id).priority|
      && HereAfter(s.d, cpu, id, physical, s.lrs, s'.lrs)
  {
    hide Valid, Inject, Fits, EntryFor, EntryIs, Live, Placed, DistributorEnabled, Enabled, OnlyPending, SameRegs;
    var d := SetPending(s.d, cpu, id, true);
    RegsAre(s.d, cpu, id);
    RegsAre(d, cpu, id);
    PendingSame(s.d, cpu, id);
    SameRegsMean(s.d, d, cpu, id);
    EntryForIs(d, cpu, id, physical);
    InjectPlaces(s.lrs, EntryFor(d, cpu, id, physical));
  }

  lemma PendingSame(d: Dist, c: nat, id: nat)
    requires Valid(d) && c < MAX_CPU_INTERFACES
    ensures SameRegs(d, SetPending(d, c, id, true))
  {
  }

  // ---------------------------------------------------------------- the queue

  /** Target `t` is to be asked through the queue. */
  ghost predicate Owed(d: Dist, cpu: nat, id: nat, targets: set<nat>, t: nat) {
    t in targets && t < MAX_CPU_INTERFACES && t < |d.banked| && t != cpu && Live(d, t, id)
  }

  /** Target `t` has a request among `rs`. */
  ghost predicate Asked(rs: seq<Request>, t: nat) {
    exists i :: 0 <= i < |rs| && rs[i].target == t
  }

  /** A request for its target with its own entry. */
  ghost predicate GoodRequest(d: Dist, cpu: nat, id: nat, physical: Option<nat>, targets: set<nat>, r: Request) {
    && Owed(d, cpu, id, targets, r.target)
    && id / 4 < |Regs(d, r.target, id).priority| && EntryIs(d, r.target, id, physical, r.entry)
  }

  /** `rs` asks each target that is enabled and not the raising CPU, once, in the order of the CPUs, and no one else. */
  ghost predicate NewRequests(d: Dist, cpu: nat, id: nat, physical: Option<nat>, targets: set<nat>, rs: seq<Request>) {
    && (forall i :: 0 <= i < |rs| ==> GoodRequest(d, cpu, id, physical, targets, rs[i]))
    && (forall i, j :: 0 <= i < j < |rs| ==> rs[i].target < rs[j].target)
    && (forall t :: Owed(d, cpu, id, targets, t) ==> Asked(rs, t))
  }

  lemma TriggerThere(s: Local, cpu: nat, id: nat, physical: Option<nat>, t: nat)
    requires Valid(s.d) && cpu < MAX_CPU_INTERFACES && id < INT_IDS && t < MAX_CPU_INTERFACES && t != cpu
    ensures var s' := TriggerOne(s, cpu, id, physical, t);
      && s'.lrs == s.lrs && s.d.queue <= s'.d.queue
      && NewRequests(s.d, cpu, id, physical, {t}, s'.d.queue[|s.d.queue|..])
  {
    hide Valid, Inject, EntryFor, EntryIs, Live, DistributorEnabled, Enabled, OnlyPending, SameRegs;
    var d := SetPending(s.d, t, id, true);
    RegsAre(s.d, t, id);
    RegsAre(d, t, id);
    PendingSame(s.d, t, id);
    SameRegsMean(s.d, d, t, id);
    EntryForIs(d, t, id, physical);
    var s' := TriggerOne(s, cpu, id, physical, t);
    var rs := s'.d.queue[|s.d.queue|..];
    if Live(s.d, t, id) {
      assert rs == [Request(d.serial, t, EntryFor(d, t, id, physical))];
      assert rs[0].target == t;
    } else {
      assert rs == [];
    }
  }

  lemma SameOwed(d: Dist, d': Dist, cpu: nat, id: nat, physical: Option<nat>, targets: set<nat>, rs: seq<Request>)
    requires SameRegs(d, d') && NewRequests(d', cpu, id, physical, targets, rs)
    ensures NewRequests(d, cpu, id, physical, targets, rs)
  {
    hide SameRegs, EntryIs, Live, Regs, Asked;
    assert |d'.banked| == |d.banked| by { SameCount(d, d'); }
    forall i | 0 <= i < |rs| ensures GoodRequest(d, cpu, id, physical, targets, rs[i]) {
      assert GoodRequest(d', cpu, id, physical, targets, rs[i]);
      SameRegsMean(d, d', rs[i].target, id);
    }
    forall t | Owed(d, cpu, id, targets, t) ensures Asked(rs, t) {
      SameRegsMean(d, d', t, id);
      assert Owed(d', cpu, id, targets, t);
    }
  }

  lemma SameCount(d: Dist, d': Dist)
    requires SameRegs(d, d')
    ensures |d'.banked| == |d.banked|
  {
  }

  /** Requests for a first target and for later ones. */
  lemma JoinRequests(d: Dist, cpu: nat, id: nat, physical: Option<nat>, bit: nat, targets: set<nat>,
                     a: seq<Request>, b: seq<Request>)
    requires NewRequests(d, cpu, id, physical, {bit}, a)
    requires NewRequests(d, cpu, id, physical, From(targets, bit + 1), b)
    ensures bit in targets && bit < MAX_CPU_INTERFACES ==>
      NewRequests(d, cpu, id, physical, From(targets, bit), a + b)
  {
    hide EntryIs, Live, Regs;
    if bit in targets && bit < MAX_CPU_INTERFACES {
      var rs := a + b;
      forall i | 0 <= i < |rs| ensures GoodRequest(d, cpu, id, physical, From(targets, bit), rs[i]) {
        assert i < |a| ==> GoodRequest(d, cpu, id, physical, {bit}, a[i]);
        assert i >= |a| ==> GoodRequest(d, cpu, id, physical, From(targets, bit + 1), b[i - |a|]);
      }
      forall t | Owed(d, cpu, id, From(targets, bit), t) ensures Asked(rs, t) {
        if t == bit {
          assert Owed(d, cpu, id, {bit}, t) && Asked(a, t);
          var i :| 0 <= i < |a| && a[i].target == t;
          assert rs[i].target == t;
        } else {
          assert Owed(d, cpu, id, From(targets, bit + 1), t) && Asked(b, t);
          var i :| 0 <= i < |b| && b[i].target == t;
          assert rs[|a| + i].target == t;
        }
      }
    }
  }

  // ---------------------------------------------------------------- all targets

  /**
    Raising interrupt `id` for `targets`: this CPU's List Registers take it if this CPU is a
    target, every other target gets a request.
   */
  ghost predicate Raised(s: Local, s': Local, cpu: nat, id: nat, physical: Option<nat>, targets: set<nat>)
    requires cpu < |s.d.banked| && id / 4 < |Regs(s.d, cpu, id).priority|
  {
    && s.d.queue <= s'.d.queue
    && NewRequests(s.d, cpu, id, physical, targets, s'.d.queue[|s.d.queue|..])
    && (if cpu in targets then HereAfter(s.d, cpu, id, physical, s.lrs, s'.lrs) else s'.lrs == s.lrs)
  }

  lemma NoneRaised(s: Local, cpu: nat, id: nat, physical: Option<nat>)
    requires Valid(s.d) && cpu < MAX_CPU_INTERFACES && id < INT_IDS
    ensures cpu < |s.d.banked| && id / 4 < |Regs(s.d, cpu, id).priority| && Raised(s, s, cpu, id, physical, {})
  {
    RegsAre(s.d, cpu, id);
  }

  lemma {:induction false} TriggerFromExact(s: Local, cpu: nat, id: nat, physical: Option<nat>, targets: set<nat>,
                                            bit: nat)
    requires Valid(s.d) && cpu < MAX_CPU_INTERFACES && bit <= MAX_CPU_INTERFACES && id < INT_IDS
    ensures cpu < |s.d.banked| && id / 4 < |Regs(s.d, cpu, id).priority|
    ensures Raised(s, TriggerFrom(s, cpu, id, physical, targets, bit), cpu, id, physical, From(targets, bit))
    decreases MAX_CPU_INTERFACES - bit
  {
    hide TriggerOne, Valid, HereAfter, NewRequests, SameRegs, OnlyPending, Regs;
    RegsAre(s.d, cpu, id);
    if bit == MAX_CPU_INTERFACES {
      assert From(targets, bit) == {};
      NoneRaised(s, cpu, id, physical);
    } else if bit in targets {
      var s1 := TriggerOne(s, cpu, id, physical, bit);
      var s2 := TriggerFrom(s1, cpu, id, physical, targets, bit + 1);
      TriggerFromExact(s1, cpu, id, physical, targets, bit + 1);
      OneOnlyPending(s, cpu, id, physical, bit);
      OnlyPendingSame(s.d, s1.d, id, {bit});
      if bit == cpu {
        TriggerHere(s, cpu, id, physical);
        SameOwed(s.d, s1.d, cpu, id, physical, From(targets, bit + 1), s2.d.queue[|s.d.queue|..]);
        OwnNotOwed(s.d, cpu, id, physical);
        JoinRequests(s.d, cpu, id, physical, bit, targets, [], s2.d.queue[|s.d.queue|..]);
        assert [] + s2.d.queue[|s.d.queue|..] == s2.d.queue[|s.d.queue|..];
      } else {
        TriggerThere(s, cpu, id, physical, bit);
        var a, b := s1.d.queue[|s.d.queue|..], s2.d.queue[|s1.d.queue|..];
        SameOwed(s.d, s1.d, cpu, id, physical, From(targets, bit + 1), b);
        JoinRequests(s.d, cpu, id, physical, bit, targets, a, b);
        assert s2.d.queue[|s.d.queue|..] == a + b;
        SameHere(s.d, s1.d, cpu, id, physical, s.lrs, s2.lrs);
      }
    } else {
      TriggerFromExact(s, cpu, id, physical, targets, bit + 1);
      assert From(targets, bit) == From(targets, bit + 1);
    }
  }

  /** The raising CPU is not owed a request. */
  lemma OwnNotOwed(d: Dist, cpu: nat, id: nat, physical: Option<nat>)
    ensures NewRequests(d, cpu, id, physical, {cpu}, [])
  {
  }

  lemma SameHere(d: Dist, d': Dist, cpu: nat, id: nat, physical: Option<nat>, lrs: seq<Lr>, lrs': seq<Lr>)
    requires SameRegs(d, d') && cpu < |d.banked| && id / 4 < |Regs(d, cpu, id).priority|
    ensures cpu < |d'.banked| && id / 4 < |Regs(d', cpu, id).priority|
    ensures HereAfter(d', cpu, id, physical, lrs, lrs') ==> HereAfter(d, cpu, id, physical, lrs, lrs')
  {
    hide EntryIs, Live, Placed, Fits, Regs, SameRegs;
    SameCount(d, d');
    SameRegsMean(d, d', cpu, id);
  }

  /** Raising an interrupt for a set of targets. */
  lemma TriggerExact(s: Local, cpu: nat, id: nat, physical: Option<nat>, targets: set<nat>)
    requires Valid(s.d) && cpu < MAX_CPU_INTERFACES && id < INT_IDS
    ensures cpu < |s.d.banked| && id / 4 < |Regs(s.d, cpu, id).priority|
    ensures Raised(s, TriggerTo(s, cpu, id, physical, targets), cpu, id, physical, targets)
  {
    hide Valid, HereAfter, TriggerFrom, EntryIs, Live, Regs, Asked;
    TriggerFromExact(s, cpu, id, physical, targets, 0);
    var rs := TriggerTo(s, cpu, id, physical, targets).d.queue[|s.d.queue|..];
    forall i | 0 <= i < |rs| ensures GoodRequest(s.d, cpu, id, physical, targets, rs[i]) {
      assert GoodRequest(s.d, cpu, id, physical, From(targets, 0), rs[i]);
    }
    forall t | Owed(s.d, cpu, id, targets, t) ensures Asked(rs, t) {
      assert Owed(s.d, cpu, id, From(targets, 0), t);
    }
  }

  /** Some target below `bit` takes the interrupt: through the queue, or in a List Register that has room. */
  ghost predicate Taken(s: Local, cpu: nat, id: nat, targets: set<nat>, bit: nat) {
    exists t :: 0 <= t < bit && t in targets && t < |s.d.banked| && Live(s.d, t, id) && (t == cpu ==> Fits(s.lrs, id))
  }

  lemma TakenStep(s: Local, cpu: nat, id: nat, targets: set<nat>, bit: nat)
    requires bit < |s.d.banked|
    ensures Taken(s, cpu, id, targets, bit + 1) <==>
      Taken(s, cpu, id, targets, bit) || (bit in targets && Live(s.d, bit, id) && (bit == cpu ==> Fits(s.lrs, id)))
  {
    hide Live, Fits;
  }

  lemma SameTrans(a: Dist, b: Dist, c: Dist)
    requires SameRegs(a, b) && SameRegs(b, c)
    ensures SameRegs(a, c)
  {
  }
}
