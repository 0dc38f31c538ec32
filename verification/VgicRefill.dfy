/**
  What fills the List Registers of a CPU, and what the end of an interrupt leaves behind, in terms
  of the registers' own fields.
 */
module VgicRefill {
  import opened Common
  import opened VgicDelivery
  import opened VgicDistributor
  import opened VgicLists
  import opened VgicRaise

  // ---------------------------------------------------------------- requests of other CPUs

  /** A List Register changes only for a request to this CPU: marked pending, or filled with the request's own entry. */
  ghost predicate FilledBy(queue: seq<Request>, cpu: nat, x: Lr, y: Lr) {
    y == x || exists r :: r in queue && r.target == cpu && RequestFills(r, x, y)
  }

  ghost predicate RequestFills(r: Request, x: Lr, y: Lr) {
    if Occupied(x) then x.intId == r.entry.intId && y == x.(pending := true) else y == r.entry
  }

  lemma {:induction false} DeliverFills(queue: seq<Request>, serial: nat, lrs: seq<Lr>, cpu: nat)
    requires QueueOk(queue, serial)
    ensures var lrs' := Deliver(queue, lrs, cpu).1;
      |lrs'| == |lrs| && forall i :: 0 <= i < |lrs| ==> FilledBy(queue, cpu, lrs[i], lrs'[i])
  {
    hide Inject, Fits, QueueOk;
    if queue != [] {
      var r := queue[0];
      TailOk(queue, serial);
      HeadOk(queue, serial);
      var taken := r.target == cpu && Fits(lrs, r.entry.intId);
      var lrs1 := if taken then Inject(lrs, r.entry) else lrs;
      var lrs' := Deliver(queue, lrs, cpu).1;
      if taken { InjectPlaces(lrs, r.entry); }
      DeliverFills(queue[1..], serial, lrs1, cpu);
      forall i | 0 <= i < |lrs| ensures FilledBy(queue, cpu, lrs[i], lrs'[i]) {
        assert FilledBy(queue[1..], cpu, lrs1[i], lrs'[i]);
        FillsMore(queue, cpu, lrs[i], lrs1[i], lrs'[i]);
      }
    }
  }

  lemma FillsMore(queue: seq<Request>, cpu: nat, x: Lr, y: Lr, z: Lr)
    requires queue != [] && queue[0].entry.pending
    requires y == x || (queue[0].target == cpu && RequestFills(queue[0], x, y))
    requires FilledBy(queue[1..], cpu, y, z)
    ensures FilledBy(queue, cpu, x, z)
  {
    if z != y {
      var r :| r in queue[1..] && r.target == cpu && RequestFills(r, y, z);
      assert r in queue;
      assert y == x ==> RequestFills(r, x, z);
    }
    assert queue[0] in queue;
  }

  // ---------------------------------------------------------------- the scan

  /** Interrupt `id` of this CPU's view is pending and enabled, and not the timer, which is injected by itself. */
  ghost predicate Waiting(d: Dist, cpu: nat, id: nat)
    requires cpu < |d.banked|
  {
    && id < (if cpu == d.own then 1020 else 32) && id != 27
    && id in Regs(d, cpu, id).pending && id in Regs(d, cpu, id).enable
  }

  ghost function RankByte(d: Dist, cpu: nat, id: nat): bv8
    requires cpu < |d.banked| && id / 4 < |Regs(d, cpu, id).priority|
  {
    ByteAt(Regs(d, cpu, id).priority[id / 4], id % 4)
  }

  /** `y` goes before `x`: by its priority byte, a lower value first, and then by its number. */
  ghost predicate Outranks(d: Dist, cpu: nat, y: nat, x: nat) {
    && cpu < |d.banked| && x / 4 < |Regs(d, cpu, x).priority| && y / 4 < |Regs(d, cpu, y).priority|
    && (RankByte(d, cpu, y) as nat < RankByte(d, cpu, x) as nat
        || (RankByte(d, cpu, y) as nat == RankByte(d, cpu, x) as nat && y < x))
  }

  /** A List Register after the scan: as it was, or marked pending for, or given to, a waiting interrupt. */
  ghost predicate ScanFills(d: Dist, cpu: nat, x: Lr, y: Lr)
    requires cpu < |d.banked|
  {
    y == x || (Waiting(d, cpu, y.intId)
               && if Occupied(x) then y == x.(pending := true)
                  else y.intId / 4 < |Regs(d, cpu, y.intId).priority| && EntryIs(d, cpu, y.intId, None, y))
  }

  /** Interrupt `x` was left out: all List Registers are occupied, and every one filled by the scan outranks it. */
  ghost predicate LeftOutFairly(d: Dist, cpu: nat, lrs: seq<Lr>, lrs': seq<Lr>, x: nat)
    requires cpu < |d.banked|
  {
    Full(lrs') && forall y: nat :: NewlyHeld(lrs, lrs', y) ==> Waiting(d, cpu, y) && Outranks(d, cpu, y, x)
  }

  /** The scan, with the distributor enabled or not. */
  ghost predicate Scanned(d: Dist, cpu: nat, lrs: seq<Lr>, lrs': seq<Lr>)
    requires cpu < |d.banked|
  {
    if d.ctlr & 3 == 0 then lrs' == lrs
    else
      && |lrs'| == |lrs| && (forall i :: 0 <= i < |lrs| ==> ScanFills(d, cpu, lrs[i], lrs'[i]))
      && (forall x: nat :: Waiting(d, cpu, x) && !Holds(lrs', x) ==> LeftOutFairly(d, cpu, lrs, lrs', x))
  }

  lemma WaitingIs(d: Dist, cpu: nat, id: nat)
    requires Valid(d) && cpu < MAX_CPU_INTERFACES
    ensures |d.banked| == MAX_CPU_INTERFACES
    ensures Waiting(d, cpu, id) <==> id < ViewSize(d, cpu) && IsCandidate(d, cpu, id)
  {
  }

  lemma OutranksIs(d: Dist, cpu: nat, y: nat, x: nat)
    requires Valid(d) && cpu < MAX_CPU_INTERFACES && y < INT_IDS && x < INT_IDS
    ensures Before(CandidateOf(d, cpu, y), CandidateOf(d, cpu, x)) ==> Outranks(d, cpu, y, x)
  {
    hide ByteAt;
    RegsAre(d, cpu, x);
    RegsAre(d, cpu, y);
  }

  /** Injecting candidates one after the other changes List Registers for these only. */
  lemma {:induction false} InjectAllFills(d: Dist, cpu: nat, lrs: seq<Lr>, cs: seq<Candidate>)
    requires Valid(d) && cpu < MAX_CPU_INTERFACES && InRange(cs) && |d.banked| == MAX_CPU_INTERFACES
    requires forall i :: 0 <= i < |cs| ==> Waiting(d, cpu, cs[i].id)
    ensures var lrs' := InjectAll(d, cpu, lrs, cs);
      |lrs'| == |lrs| && forall i :: 0 <= i < |lrs| ==> ScanFills(d, cpu, lrs[i], lrs'[i])
    decreases |cs|
  {
    hide Valid, Inject, Fits, EntryFor, EntryIs, Waiting, Regs;
    if cs != [] && Fits(lrs, cs[0].id) {
      var e := EntryFor(d, cpu, cs[0].id, None);
      EntryForIs(d, cpu, cs[0].id, None);
      var lrs1 := Inject(lrs, e);
      InjectPlaces(lrs, e);
      InjectAllFills(d, cpu, lrs1, cs[1..]);
      var lrs' := InjectAll(d, cpu, lrs, cs);
      forall i | 0 <= i < |lrs| ensures ScanFills(d, cpu, lrs[i], lrs'[i]) {
        assert ScanFills(d, cpu, lrs1[i], lrs'[i]);
      }
    }
  }

  /** After the scan every waiting interrupt has a List Register, or all are occupied, none by one that should wait. */
  lemma ScanExact(s: Local, cpu: nat)
    requires Valid(s.d) && cpu < MAX_CPU_INTERFACES && NoDuplicates(s.lrs)
    ensures |s.d.banked| == MAX_CPU_INTERFACES && Scanned(s.d, cpu, s.lrs, ScanPending(s, cpu).lrs)
  {
    hide Valid, NoDuplicates, Keeps, Candidates, InjectAll, IsCandidate, Waiting, Outranks, Before, ScanFills,
      Holds, Full, ViewSize, CandidateOf;
    RegsAre(s.d, cpu, 0);
    if s.d.ctlr & 3 != 0 {
      var n, lrs := ViewSize(s.d, cpu), ScanPending(s, cpu).lrs;
      var cs := Candidates(s.d, cpu, n);
      CandidatesInRange(s.d, cpu, n);
      CandidatesAre(s.d, cpu, n);
      forall i | 0 <= i < |cs| ensures Waiting(s.d, cpu, cs[i].id) {
        assert cs[i] in cs;
        WaitingIs(s.d, cpu, cs[i].id);
      }
      InjectAllFills(s.d, cpu, s.lrs, cs);
      ScanIsComplete(s, cpu);
      forall x: nat | Waiting(s.d, cpu, x) && !Holds(lrs, x) ensures LeftOutFairly(s.d, cpu, s.lrs, lrs, x) {
        WaitingIs(s.d, cpu, x);
        assert LeftOut(s.d, cpu, lrs, x);
        forall y: nat | NewlyHeld(s.lrs, lrs, y) ensures Waiting(s.d, cpu, y) && Outranks(s.d, cpu, y, x) {
          WaitingIs(s.d, cpu, y);
          OutranksIs(s.d, cpu, y, x);
        }
      }
    }
  }

  // ---------------------------------------------------------------- the end of an interrupt

  /** Inactive, with the EOI bit set: the hardware reports the end of the interrupt. */
  ghost predicate Finished(lr: Lr) { !lr.pending && !lr.active && lr.ending == Eoi }

  /** Interrupt `id` has ended in a List Register from number `i` on. */
  ghost predicate Over(lrs: seq<Lr>, i: nat, id: nat) {
    exists k :: i <= k < |lrs| && Finished(lrs[k]) && lrs[k].intId == id
  }

  /** Pending and active bit of interrupt `id` to CPU `c`, after it ended on `cpu` or not. */
  ghost predicate BitsEnd(d: Dist, d': Dist, cpu: nat, c: nat, id: nat, over: bool)
    requires c < |d.banked| && c < |d'.banked|
  {
    var gone := over && (id >= 32 || c == cpu);
    && (id in Regs(d', c, id).pending <==> id in Regs(d, c, id).pending && !gone)
    && (id in Regs(d', c, id).active <==> id in Regs(d, c, id).active && !gone)
  }

  /** All bits but pending and active ones are as they were. */
  ghost predicate SameButState(b: Bank, b': Bank) {
    b' == b.(pending := b'.pending, active := b'.active)
  }

  /** Ended interrupts are neither pending nor active any more, and nothing else has changed. */
  ghost predicate EndedIn(d: Dist, d': Dist, cpu: nat, lrs: seq<Lr>, i: nat) {
    && |d'.banked| == |d.banked| && d'.ctlr == d.ctlr && d'.target == d.target && d'.own == d.own
    && SameButState(d.shared, d'.shared)
    && (forall c :: 0 <= c < |d.banked| ==> SameButState(d.banked[c], d'.banked[c]))
    && (forall c, id: nat :: 0 <= c < |d.banked| ==> BitsEnd(d, d', cpu, c, id, Over(lrs, i, id)))
  }

  lemma EndOneBits(s: Local, cpu: nat, i: nat, c: nat, id: nat)
    requires Valid(s.d) && cpu < MAX_CPU_INTERFACES && i < |s.lrs| && c < MAX_CPU_INTERFACES
    ensures |s.d.banked| == MAX_CPU_INTERFACES == |EndOne(s, cpu, i).d.banked|
    ensures BitsEnd(s.d, EndOne(s, cpu, i).d, cpu, c, id, Ended(s.lrs[i]) && s.lrs[i].intId == id)
  {
  }

  lemma EndOneSame(s: Local, cpu: nat, i: nat)
    requires Valid(s.d) && cpu < MAX_CPU_INTERFACES && i < |s.lrs|
    ensures var d, d' := s.d, EndOne(s, cpu, i).d;
      && |d'.banked| == |d.banked| == MAX_CPU_INTERFACES
      && d'.ctlr == d.ctlr && d'.target == d.target && d'.own == d.own && SameButState(d.shared, d'.shared)
      && forall c :: 0 <= c < |d.banked| ==> SameButState(d.banked[c], d'.banked[c])
  {
  }

  /** The List Registers from `i + 1` on are those of before. */
  lemma OverStep(s: Local, cpu: nat, i: nat, id: nat)
    requires Valid(s.d) && cpu < MAX_CPU_INTERFACES && i < |s.lrs|
    ensures Over(s.lrs, i, id) <==>
      Over(EndOne(s, cpu, i).lrs, i + 1, id) || (Ended(s.lrs[i]) && s.lrs[i].intId == id)
  {
    hide SetPending, SetActive;
    var lrs := EndOne(s, cpu, i).lrs;
    assert |lrs| == |s.lrs| && forall k :: i < k < |lrs| ==> lrs[k] == s.lrs[k];
    if Over(s.lrs, i, id) && !(Ended(s.lrs[i]) && s.lrs[i].intId == id) {
      var k :| i <= k < |s.lrs| && Finished(s.lrs[k]) && s.lrs[k].intId == id;
      assert Finished(lrs[k]) && lrs[k].intId == id;
    }
    if Over(lrs, i + 1, id) {
      var k :| i + 1 <= k < |lrs| && Finished(lrs[k]) && lrs[k].intId == id;
      assert Finished(s.lrs[k]) && s.lrs[k].intId == id;
    }
  }

  lemma {:induction false} EndStep(s: Local, cpu: nat, i: nat, d': Dist)
    requires Valid(s.d) && cpu < MAX_CPU_INTERFACES && i < |s.lrs|
    requires var s1 := EndOne(s, cpu, i); EndedIn(s1.d, d', cpu, s1.lrs, i + 1)
    ensures EndedIn(s.d, d', cpu, s.lrs, i)
  {
    hide Valid, EndOne, Over, Ended;
    var s1 := EndOne(s, cpu, i);
    EndOneSame(s, cpu, i);
    forall c, id: nat | 0 <= c < |s.d.banked| ensures BitsEnd(s.d, d', cpu, c, id, Over(s.lrs, i, id)) {
      EndOneBits(s, cpu, i, c, id);
      OverStep(s, cpu, i, id);
      assert BitsEnd(s1.d, d', cpu, c, id, Over(s1.lrs, i + 1, id));
    }
  }
}
