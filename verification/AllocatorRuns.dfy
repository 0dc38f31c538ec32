/**
  Whole runs of the allocator. The abstract state is the free ranges together with the
  ranges its clients hold; `Client` shows that the real allocator, driven by any sequence
  of operations, takes exactly these steps.
 */
module AllocatorRuns {
  import opened Common
  import opened FreeRanges
  import opened AllocatorState
  import opened Alignment
  import opened MemoryAllocation

  datatype State = State(free: seq<Range>, held: seq<Range>, managed: nat)

  ghost predicate Overlap(r: Range, s: Range) {
    r.start <= s.end && s.start <= r.end
  }

  ghost predicate PairwiseDisjoint(rs: seq<Range>) {
    forall i, j :: 0 <= i < j < |rs| ==> !Overlap(rs[i], rs[j])
  }

  ghost predicate NoOverlap(rs: seq<Range>, ss: seq<Range>) {
    forall i, j :: 0 <= i < |rs| && 0 <= j < |ss| ==> !Overlap(rs[i], ss[j])
  }

  /** The free space is coalesced, held ranges are disjoint from it and from each other, no byte is lost. */
  ghost predicate Inv(s: State) {
    && Coalesced(s.free)
    && (forall i :: 0 <= i < |s.held| ==> s.held[i].start <= s.held[i].end)
    && PairwiseDisjoint(s.held)
    && NoOverlap(s.free, s.held)
    && Total(s.free) + Total(s.held) == s.managed
  }

  ghost predicate Init(s: State) {
    s == State([], [], 0)
  }

  /** A block is cut out of free range `i` and handed to a client. */
  ghost predicate Takes(s: State, s': State, i: nat, a: nat, b: nat) {
    && Inside(s.free, i, a, b)
    && s' == State(Carve(s.free, i, a, b), s.held + [Range(a, b)], s.managed)
  }

  /** Held range `k` goes back to the free space. */
  ghost predicate GivesBack(s: State, s': State, k: nat) {
    && k < |s.held|
    && s' == State(Insert(s.free, Below(s.free, s.held[k].start), s.held[k].start, s.held[k].end),
                   s.held[..k] + s.held[k + 1..], s.managed)
  }

  /** Memory nobody manages yet is handed to the allocator. */
  ghost predicate Donates(s: State, s': State, a: nat, b: nat) {
    && a <= b && DisjointFrom(s.free, a, b) && NoOverlap([Range(a, b)], s.held)
    && s' == State(Insert(s.free, Below(s.free, a), a, b), s.held, s.managed + (b - a + 1))
  }

  ghost predicate Step(s: State, s': State) {
    || s' == s
    || (exists i, a, b :: Takes(s, s', i, a, b))
    || (exists k :: GivesBack(s, s', k))
    || (exists a, b :: Donates(s, s', a, b))
  }

  ghost predicate Run(states: seq<State>) {
    && |states| > 0 && Init(states[0])
    && forall i :: 0 <= i < |states| - 1 ==> Step(states[i], states[i + 1])
  }

  // ---------------------------------------------------------------- the invariant is kept

  /** Whatever is clear of the free ranges overlaps none of them. */
  lemma CoverApart(rs: seq<Range>, ss: seq<Range>)
    requires (forall i :: 0 <= i < |rs| ==> rs[i].start <= rs[i].end)
      && (forall i :: 0 <= i < |ss| ==> ss[i].start <= ss[i].end)
    requires forall x :: !(Covers(rs, x) && Covers(ss, x))
    ensures NoOverlap(rs, ss)
  {
    forall i, j | 0 <= i < |rs| && 0 <= j < |ss|
      ensures !Overlap(rs[i], ss[j])
    {
      var x := if rs[i].start <= ss[j].start then ss[j].start else rs[i].start;
      assert rs[i].start <= x <= rs[i].end ==> Covers(rs, x);
      assert ss[j].start <= x <= ss[j].end ==> Covers(ss, x);
    }
  }

  lemma ApartCover(rs: seq<Range>, ss: seq<Range>, x: int)
    requires NoOverlap(rs, ss)
    ensures !(Covers(rs, x) && Covers(ss, x))
  {
  }

  lemma CoversOne(r: Range, x: int)
    ensures Covers([r], x) <==> r.start <= x <= r.end
  {
    assert r.start <= x <= r.end ==> [r][0].start <= x <= [r][0].end;
  }

  lemma TakesKeeps(s: State, s': State, i: nat, a: nat, b: nat)
    requires Inv(s) && Takes(s, s', i, a, b)
    ensures Inv(s')
  {
    hide Carve, Coalesced;
    CarveCoalesced(s.free, i, a, b);
    CarveTotal(s.free, i, a, b);
    TotalConcat(s.held, [Range(a, b)]);
    assert Total([Range(a, b)]) == b - a + 1;
    CoalescedProper(s'.free);
    forall x
      ensures !(Covers(s'.free, x) && Covers(s'.held, x))
    {
      CarveCovers(s.free, i, a, b, x);
      CoversConcat(s.held, [Range(a, b)], x);
      CoversOne(Range(a, b), x);
      ApartCover(s.free, s.held, x);
    }
    CoverApart(s'.free, s'.held);
    forall j | 0 <= j < |s.held|
      ensures !Overlap(s.held[j], Range(a, b))
    {
      assert !Overlap(s.free[i], s.held[j]);
    }
  }

  lemma CoalescedProper(rs: seq<Range>)
    requires Coalesced(rs)
    ensures forall i :: 0 <= i < |rs| ==> rs[i].start <= rs[i].end
  {
  }

  /** A held range is never partly free, so freeing it is always a legal call. */
  lemma HeldIsDisjoint(s: State, k: nat)
    requires Inv(s) && k < |s.held|
    ensures DisjointFrom(s.free, s.held[k].start, s.held[k].end) && s.held[k].start <= s.held[k].end
  {
  }

  lemma InvCoalesced(s: State)
    requires Inv(s)
    ensures Coalesced(s.free)
  {
  }

  lemma GivesBackKeeps(s: State, s': State, k: nat)
    requires Inv(s) && GivesBack(s, s', k)
    ensures Inv(s')
  {
    var r := s.held[k];
    var p := Below(s.free, r.start);
    HeldIsDisjoint(s, k);
    BelowFits(s.free, r.start, r.end);
    hide Insert, Coalesced, Below, Fits;
    InsertCoalesced(s.free, p, r.start, r.end);
    InsertTotal(s.free, p, r.start, r.end);
    TotalSplit(s.held, k);
    TotalConcat(s.held[..k], s.held[k + 1..]);
    CoalescedProper(s'.free);
    forall x
      ensures !(Covers(s'.free, x) && Covers(s'.held, x))
    {
      InsertCovers(s.free, p, r.start, r.end, x);
      ApartCover(s.free, s.held, x);
      RestCovers(s.held, k, x);
    }
    CoverApart(s'.free, s'.held);
  }

  /** The other held ranges cover nothing of range `k`. */
  lemma RestCovers(held: seq<Range>, k: nat, x: int)
    requires PairwiseDisjoint(held) && k < |held|
    ensures Covers(held[..k] + held[k + 1..], x) ==> Covers(held, x) && !(held[k].start <= x <= held[k].end)
  {
  }

  lemma DonatesKeeps(s: State, s': State, a: nat, b: nat)
    requires Inv(s) && Donates(s, s', a, b)
    ensures Inv(s')
  {
    var p := Below(s.free, a);
    BelowFits(s.free, a, b);
    hide Insert, Coalesced, Below, Fits, DisjointFrom;
    InsertCoalesced(s.free, p, a, b);
    InsertTotal(s.free, p, a, b);
    CoalescedProper(s'.free);
    forall x
      ensures !(Covers(s'.free, x) && Covers(s'.held, x))
    {
      InsertCovers(s.free, p, a, b, x);
      ApartCover(s.free, s.held, x);
      ApartCover([Range(a, b)], s.held, x);
      CoversOne(Range(a, b), x);
    }
    CoverApart(s'.free, s'.held);
  }

  lemma StepKeeps(s: State, s': State)
    requires Inv(s) && Step(s, s')
    ensures Inv(s')
  {
    hide Inv, Takes, GivesBack, Donates;
    if exists i, a, b :: Takes(s, s', i, a, b) {
      var i, a, b :| Takes(s, s', i, a, b);
      TakesKeeps(s, s', i, a, b);
    } else if exists k :: GivesBack(s, s', k) {
      var k :| GivesBack(s, s', k);
      GivesBackKeeps(s, s', k);
    } else if exists a, b :: Donates(s, s', a, b) {
      var a, b :| Donates(s, s', a, b);
      DonatesKeeps(s, s', a, b);
    }
  }

  /** In every state of every run, live allocations overlap neither each other nor the free space. */
  lemma {:induction false} LiveAllocationsNeverOverlap(states: seq<State>, n: nat)
    requires Run(states) && n < |states|
    ensures Inv(states[n])
  {
    if n > 0 {
      LiveAllocationsNeverOverlap(states, n - 1);
      StepKeeps(states[n - 1], states[n]);
    }
  }

  /** Freeing a block right after allocating it succeeds, even with a full pool, and undoes it exactly. */
  lemma FreeUndoesAllocate(rs: seq<Range>, i: nat, a: nat, size: nat)
    requires Coalesced(rs) && |rs| <= POOL_SIZE && size > 0 && Inside(rs, i, a, a + size - 1)
    ensures var cs := Carve(rs, i, a, a + size - 1);
      && DisjointFrom(cs, a, a + size - 1)
      && FreeOutcome(cs, a, size) == Ok(())
      && Insert(cs, Below(cs, a), a, a + size - 1) == rs
      && Total(cs) + size == Total(rs)
  {
    hide Coalesced, Carve, Insert, Below, JoinsLeft, JoinsRight, DisjointFrom, Contains;
    var b := a + size - 1;
    var cs := Carve(rs, i, a, b);
    var p := Below(cs, a);
    CarveThenInsert(rs, i, a, b);
    CarveTotal(rs, i, a, b);
    NotBoth(cs, a, b);
    InsertLonger(cs, p, a, b);
  }

  lemma InsertLonger(rs: seq<Range>, p: nat, a: nat, b: nat)
    requires p <= |rs|
    ensures !JoinsLeft(rs, p, a) && !JoinsRight(rs, p, b) ==> |Insert(rs, p, a, b)| == |rs| + 1
  {
  }

  // ---------------------------------------------------------------- the allocator takes these steps

  class Client {
    const allocator: MemoryAllocator
    ghost var held: seq<Range>
    ghost var managed: nat

    ghost predicate Valid()
      reads this, allocator, allocator.pool, allocator.freeList
    {
      allocator.Valid() && Inv(Abstract())
    }

    ghost function Abstract(): State
      requires allocator.Valid()
      reads this, allocator, allocator.pool, allocator.freeList
    {
      State(allocator.Ranges(), held, managed)
    }

    constructor ()
      ensures Valid() && Init(Abstract())
      ensures fresh(allocator) && fresh(allocator.pool) && fresh(allocator.freeList)
    {
      allocator := new MemoryAllocator();
      held, managed := [], 0;
    }

    method Allocate(size: nat, alignOrder: nat, limit: nat) returns (r: Result<nat, MemoryError>)
      requires Valid() && alignOrder < 64
      modifies this, allocator, allocator.pool, allocator.freeList
      ensures Valid() && Step(old(Abstract()), Abstract())
      ensures r.Ok? ==> size > 0
      ensures held == if r.Ok? && size > 0 then old(held) + [Range(r.value, r.value + size - 1)] else old(held)
    {
      hide MemoryAllocator.Indexed, Inv, Carve;
      ghost var s := Abstract();
      ghost var i;
      r, i := allocator.AllocateBelow(size, alignOrder, limit);
      if r.Ok? {
        held := held + [Range(r.value, r.value + size - 1)];
        assert Takes(s, Abstract(), i, r.value, r.value + size - 1);
        TakesKeeps(s, Abstract(), i, r.value, r.value + size - 1);
      } else {
        assert Abstract() == s;
      }
    }

    method Reserve(start: nat, size: nat, alignOrder: nat) returns (r: Result<(), MemoryError>)
      requires Valid() && start < WORD && alignOrder < 64
      requires size > 0 ==> RoundUp(start + size, Pow2(alignOrder)) < WORD
      modifies this, allocator, allocator.pool, allocator.freeList
      ensures Valid() && Step(old(Abstract()), Abstract())
      ensures r.Err? ==> Abstract() == old(Abstract())
    {
      hide MemoryAllocator.Indexed, Inv, Carve, Total;
      ghost var s := Abstract();
      ghost var i;
      r, i := allocator.ReserveMemory(start, size, alignOrder);
      if r.Ok? {
        ghost var (a, n) := AlignAddressAndSize(start, size, alignOrder);
        ghost var b := ClippedEnd(s.free[i], a, n);
        held := held + [Range(a, b)];
        assert Takes(s, Abstract(), i, a, b);
        TakesKeeps(s, Abstract(), i, a, b);
      } else {
        assert Abstract() == s;
      }
    }

    /** Frees held block `k`; only a full pool can refuse it, and then nothing changes. */
    method Free(start: nat, size: nat, ghost k: nat) returns (r: Result<(), MemoryError>)
      requires Valid() && size > 0 && start + size < WORD
      requires k < |held| && held[k] == Range(start, start + size - 1)
      modifies this, allocator, allocator.pool, allocator.freeList
      ensures Valid() && Step(old(Abstract()), Abstract())
      ensures r.Ok? ==> GivesBack(old(Abstract()), Abstract(), k)
      ensures r.Err? ==> r.error == NoEntry && |Abstract().free| == POOL_SIZE && Abstract() == old(Abstract())
    {
      hide MemoryAllocator.Valid, Inv, Insert, Below, Coalesced, DisjointFrom, Contains, JoinsLeft, JoinsRight,
        FreedPart, Freeable;
      ghost var s := Abstract();
      HeldIsDisjoint(s, k);
      InvCoalesced(s);
      NotBoth(s.free, start, start + size - 1);
      DisjointParts(s.free, start, start + size - 1);
      r := allocator.Free(start, size);
      if r.Ok? {
        held := held[..k] + held[k + 1..];
        assert GivesBack(s, Abstract(), k);
        GivesBackKeeps(s, Abstract(), k);
      } else {
        assert Abstract() == s;
      }
    }

    /** Freeing a block right after allocating it always succeeds and restores the allocator. */
    method AllocateThenFree(size: nat, alignOrder: nat, limit: nat)
      returns (r: Result<nat, MemoryError>, f: Result<(), MemoryError>)
      requires Valid() && alignOrder < 64
      modifies allocator, allocator.pool, allocator.freeList
      ensures Valid() && (r.Ok? ==> f == Ok(()))
      ensures allocator.Ranges() == old(allocator.Ranges()) && allocator.freeSize == old(allocator.freeSize)
    {
      hide MemoryAllocator.Indexed, Inv, Carve, Insert, Below, Coalesced, Contains, FreedPart, Freeable, DisjointFrom,
        FreeOutcome, Total;
      ghost var rs := Abstract().free;
      ghost var i;
      FreeFacts();
      r, i := allocator.AllocateBelow(size, alignOrder, limit);
      f := Ok(());
      if r.Ok? {
        FreeUndoesAllocate(rs, i, r.value, size);
        DisjointParts(Abstract().free, r.value, r.value + size - 1);
        f := allocator.Free(r.value, size);
        FreeFacts();
      }
    }

    lemma FreeFacts()
      requires allocator.Valid()
      ensures var rs := Abstract().free;
        && Coalesced(rs) && |rs| <= POOL_SIZE && allocator.freeSize == Total(rs)
        && forall i :: 0 <= i < |rs| ==> rs[i].end < WORD - 1
    {
      hide Coalesced, MemoryAllocator.ListsValid;
      allocator.RangesCoalesced();
      PoolFull(allocator.pool[..], allocator.firstEntry, allocator.chain);
    }

    /** Hands unmanaged memory to the allocator. */
    method Donate(start: nat, size: nat) returns (r: Result<(), MemoryError>)
      requires Valid() && size > 0 && start + size < WORD
      requires DisjointFrom(allocator.Ranges(), start, start + size - 1)
        && NoOverlap([Range(start, start + size - 1)], held)
      modifies this, allocator, allocator.pool, allocator.freeList
      ensures Valid() && Step(old(Abstract()), Abstract())
      ensures r.Err? ==> Abstract() == old(Abstract())
    {
      hide MemoryAllocator.Indexed, Inv, Insert, Below, Coalesced, Contains, FreedPart, Freeable;
      ghost var s := Abstract();
      DisjointParts(s.free, start, start + size - 1);
      r := allocator.Free(start, size);
      if r.Ok? {
        managed := managed + size;
        assert Donates(s, Abstract(), start, start + size - 1);
        DonatesKeeps(s, Abstract(), start, start + size - 1);
      } else {
        assert Abstract() == s;
      }
    }
  }
}
