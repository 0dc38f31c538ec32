/** The free-memory allocator, updating its pool and both link structures in place. */
module MemoryAllocation {
  import opened Common
  import opened FreeRanges
  import opened IntrusiveList
  import opened AllocatorState
  import opened Alignment

  /** The size class of a block, found by the doubling loop. */
  method SizeToPageOrder(size: nat) returns (order: nat)
    ensures order == PageOrder(size)
  {
    order := 0;
    while size > Pow2(order + PAGE_SHIFT)
      invariant order < NUM_OF_FREE_LIST - 1
      invariant OrderFrom(size, order) == PageOrder(size)
      decreases NUM_OF_FREE_LIST - order
    {
      order := order + 1;
      if order == NUM_OF_FREE_LIST - 1 { return; }
    }
  }

  class MemoryAllocator {
    var freeSize: nat
    var firstEntry: Option<nat>
    const freeList: array<Option<nat>>
    const pool: array<Entry>
    ghost var chain: seq<nat>
    ghost var lists: seq<seq<nat>>

    ghost predicate Shape() {
      pool.Length == POOL_SIZE && freeList.Length == NUM_OF_FREE_LIST
    }

    ghost predicate ChainValid()
      reads this`firstEntry, this`chain, pool
    {
      Shape() && Chained(pool[..], firstEntry, chain)
    }

    ghost predicate ListsValid(dirty: set<nat>)
      reads this`lists, pool, freeList
    {
      && Shape() && |lists| == NUM_OF_FREE_LIST
      && Family(ListLinks(pool[..]), freeList[..], lists)
      && Filed(pool[..], lists, dirty)
    }

    /** The free space, in address order. */
    ghost function Ranges(): seq<Range>
      requires ChainValid()
      reads this`firstEntry, this`chain, pool
    {
      RangesOf(pool[..], chain)
    }

    /** Both link structures hold exactly the enabled slots. */
    ghost predicate Indexed()
      reads this`firstEntry, this`chain, this`lists, pool, freeList
    {
      ChainValid() && ListsValid({})
    }

    ghost predicate Valid()
      reads this, pool, freeList
    {
      && Indexed()
      && freeSize == Total(Ranges())
    }

    /**
      What every operation keeps, read off the fields: the chain holds exactly the enabled
      slots, in address order, disjoint and coalesced; a slot is on the free list of its own
      size class and on no other; lists ascend by size; `freeSize` is the sum of the sizes.
     */
    lemma IndexesAgree()
      requires Valid()
      ensures Coalesced(Ranges()) && freeSize == Total(Ranges())
      ensures forall x: nat :: x < POOL_SIZE ==> (pool[x].enabled <==> x in chain)
      ensures forall x: nat, o: nat :: x < POOL_SIZE && o < NUM_OF_FREE_LIST ==>
        (x in lists[o] <==> pool[x].enabled && PageOrder(SizeOf(pool[x])) == o)
      ensures forall o: nat, i: nat, j: nat :: o < NUM_OF_FREE_LIST && i < j < |lists[o]| ==>
        lists[o][i] < POOL_SIZE && lists[o][j] < POOL_SIZE && SizeOf(pool[lists[o][i]]) <= SizeOf(pool[lists[o][j]])
    {
    }

    constructor ()
      ensures Valid() && Ranges() == [] && freeSize == 0
      ensures fresh(pool) && fresh(freeList)
    {
      freeSize := 0;
      firstEntry := None;
      freeList := new Option<nat>[NUM_OF_FREE_LIST](_ => None);
      pool := new Entry[POOL_SIZE](_ => NEW_ENTRY);
      chain := [];
      lists := seq(NUM_OF_FREE_LIST, _ => []);
      new;
      assert RangesOf(pool[..], chain) == [];
    }

    method Put(i: nat, e: Entry)
      requires i < pool.Length
      modifies pool
      ensures pool[..] == old(pool[..])[i := e]
    {
      pool[i] := e;
    }

    /** Takes the first slot that is not in use. */
    method CreateMemoryEntry() returns (r: Result<nat, MemoryError>)
      requires Shape()
      modifies pool
      ensures r.Err? <==> forall x :: 0 <= x < POOL_SIZE ==> old(pool[..])[x].enabled
      ensures r.Err? ==> r.error == NoEntry && unchanged(pool)
      ensures r.Ok? ==>
        && r.value < POOL_SIZE
        && !old(pool[..])[r.value].enabled
        && pool[..] == old(pool[..])[r.value := NEW_ENTRY.(id := r.value, enabled := true)]
    {
      var i := 0;
      while i < POOL_SIZE
        invariant 0 <= i <= POOL_SIZE
        invariant unchanged(pool)
        invariant forall x :: 0 <= x < i ==> pool[x].enabled
      {
        if !pool[i].enabled {
          Put(i, NEW_ENTRY.(id := i, enabled := true));
          return Ok(i);
        }
        i := i + 1;
      }
      return Err(NoEntry);
    }

    // -------------------------------------------------------------- free lists

    /** Joins the free-list neighbours of `id` and clears its own free-list links. */
    method UnchainFromFreelist(id: nat)
      requires Shape() && id < POOL_SIZE
      requires pool[id].list.prev != Some(id) && pool[id].list.next != Some(id)
      requires pool[id].list.prev.Some? ==> pool[id].list.prev != pool[id].list.next
      modifies pool
      ensures SameCore(old(pool[..]), pool[..])
      ensures ListLinks(pool[..]) == Unlink(ListLinks(old(pool[..])), id)
    {
      var links := pool[id].list;
      if links.prev.Some? && links.prev.value < POOL_SIZE {
        var p := links.prev.value;
        Put(p, pool[p].(list := pool[p].list.(next := links.next)));
      }
      if links.next.Some? && links.next.value < POOL_SIZE {
        var n := links.next.value;
        Put(n, pool[n].(list := pool[n].list.(prev := links.prev)));
      }
      Put(id, pool[id].(list := UNLINKED));
      assert ListLinks(pool[..]) == Unlink(ListLinks(old(pool[..])), id);
    }

    /** Takes `id` off the free list of class `order`, moving the list head if need be. */
    method UnchainEntryFromFreeList(id: nat, order: nat, ghost dirty: set<nat>)
      requires ListsValid(dirty) && id < POOL_SIZE && order < NUM_OF_FREE_LIST
      requires id in dirty && id in lists[order]
      modifies this`lists, pool, freeList
      ensures SameCore(old(pool[..]), pool[..])
      ensures ListsValid(dirty) && Nowhere(lists, id) && pool[id].list == UNLINKED
      ensures SameMembers(lists, old(lists), id) && UnfiledKeep(old(pool[..]), pool[..], old(lists), id)
    {
      hide Family, Filed, PageOrder;
      ghost var k :| 0 <= k < |lists[order]| && lists[order][k] == id;
      ghost var p := pool[..];
      ListNeighboursOk(p, freeList[..], lists, order, k);
      if freeList[order] == Some(id) {
        freeList[order] := pool[id].list.next;
      }
      UnchainFromFreelist(id);
      UnfileStep(p, pool[..], old(freeList[..]), lists, order, k, dirty);
      lists := lists[order := RemoveAt(lists[order], k)];
      assert freeList[..] == if old(freeList[..])[order] == Some(id) then old(freeList[..])[order := p[id].list.next]
        else old(freeList[..]);
    }

    /** Writes the links that put `id` between `prev` and `next`. */
    method LinkInto(id: nat, prev: Option<nat>, next: Option<nat>)
      requires Shape() && id < POOL_SIZE && prev != Some(id) && next != Some(id) && (prev.Some? ==> prev != next)
      requires pool[id].list == UNLINKED
      requires prev.Some? ==> prev.value < POOL_SIZE
      requires next.Some? ==> next.value < POOL_SIZE
      modifies pool
      ensures SameCore(old(pool[..]), pool[..])
      ensures ListLinks(pool[..]) == LinkBetween(ListLinks(old(pool[..])), prev, next, id)
    {
      if prev.Some? {
        Put(prev.value, pool[prev.value].(list := pool[prev.value].list.(next := Some(id))));
        Put(id, pool[id].(list := pool[id].list.(prev := prev)));
      }
      if next.Some? {
        Put(id, pool[id].(list := pool[id].list.(next := next)));
        Put(next.value, pool[next.value].(list := pool[next.value].list.(prev := Some(id))));
      }
      assert ListLinks(pool[..]) == LinkBetween(ListLinks(old(pool[..])), prev, next, id);
    }

    /** Scans the free list of `id`'s class for the first entry at least as big as `id`. */
    method FindPlace(id: nat, order: nat, ghost dirty: set<nat>)
      returns (prev: Option<nat>, next: Option<nat>, ghost k: nat)
      requires ListsValid(dirty) && id < POOL_SIZE && pool[id].start <= pool[id].end
      requires order < NUM_OF_FREE_LIST && id !in lists[order]
      requires IdsOk(pool[..])
      ensures k <= |lists[order]| && prev == Before(lists[order], k) && next == After(lists[order], k)
      ensures prev != Some(id) && next != Some(id) && (prev.Some? ==> prev != next)
      ensures prev.Some? ==> prev.value < POOL_SIZE
      ensures next.Some? ==> next.value < POOL_SIZE
      ensures ScanStops(pool[..], lists[order], k, SizeOf(pool[id]))
    {
      ghost var l := lists[order];
      ghost var m := ListLinks(pool[..]);
      assert Dll(m, freeList[order], l) && ListFiled(pool[..], order, l, dirty);
      prev, next, k := None, freeList[order], 0;
      while next.Some? && SizeOf(pool[next.value]) < SizeOf(pool[id])
        invariant k <= |l| && prev == Before(l, k) && next == After(l, k)
        invariant next.Some? ==> next.value < POOL_SIZE
        invariant forall j :: 0 <= j < k ==> SizeOf(pool[l[j]]) < SizeOf(pool[id])
        decreases |l| - k
      {
        assert NodeOk(m, l, k);
        assert l[k] in l;
        assert InClass(pool[..], order, l[k], dirty);
        prev, next, k := Some(pool[next.value].id), pool[next.value].list.next, k + 1;
        assert k < |l| ==> NodeOk(m, l, k);
      }
      assert k > 0 ==> l[k - 1] in l;
      assert k < |l| ==> l[k] in l;
    }

    /** Files an unfiled entry in the free list of its size class, keeping the list ascending. */
    method FileEntry(id: nat, ghost dirty: set<nat>)
      requires ListsValid(dirty) && id < POOL_SIZE && id in dirty && Nowhere(lists, id)
      requires pool[id].enabled && pool[id].list == UNLINKED
      requires IdsOk(pool[..])
      modifies this`lists, pool, freeList
      ensures SameCore(old(pool[..]), pool[..])
      ensures ListsValid(Cleaned(old(lists), dirty, id)) && id in lists[PageOrder(SizeOf(pool[id]))]
      ensures SameMembers(lists, old(lists), id) && UnfiledKeep(old(pool[..]), pool[..], old(lists), id)
    {
      hide Family, Filed, PageOrder;
      var order := SizeToPageOrder(pool[id].end - pool[id].start + 1);
      var prev, next, k := FindPlace(id, order, dirty);
      ghost var l := lists[order];
      LinkInto(id, prev, next);
      FileStep(old(pool[..]), pool[..], old(freeList[..]), lists, order, k, id, dirty);
      if prev.None? {
        freeList[order] := Some(id);
      }
      lists := lists[order := InsertAt(l, k, id)];
      assert freeList[..] == if k == 0 then old(freeList[..])[order := Some(id)] else old(freeList[..]);
    }

    /**
      Files an entry whose range was just set: a new one, or one that is still filed
      under its old size.
     */
    method ChainEntryToFreeList(id: nat, oldSize: Option<nat>, ghost dirty: set<nat>)
      requires Shape() && id < POOL_SIZE && pool[id].enabled && id in dirty
      requires IdsOk(pool[..])
      requires ListsValid(dirty)
      requires oldSize.None? ==> Nowhere(lists, id) && pool[id].list == UNLINKED
      requires oldSize.Some? ==> id in lists[PageOrder(oldSize.value)]
      modifies this`lists, pool, freeList
      ensures SameCore(old(pool[..]), pool[..])
      ensures oldSize.Some? && oldSize.value == SizeOf(pool[id]) ==>
        unchanged(this) && unchanged(pool) && unchanged(freeList)
      ensures oldSize.None? || oldSize.value != SizeOf(pool[id]) ==> ListsValid(Cleaned(old(lists), dirty, id))
      ensures id in lists[PageOrder(SizeOf(pool[id]))]
      ensures SameMembers(lists, old(lists), id) && UnfiledKeep(old(pool[..]), pool[..], old(lists), id)
    {
      hide Family, Filed, PageOrder;
      if oldSize.Some? {
        if oldSize.value == SizeOf(pool[id]) {
          return;
        }
        var oldOrder := SizeToPageOrder(oldSize.value);
        UnchainEntryFromFreeList(id, oldOrder, dirty);
      }
      FileEntry(id, dirty);
    }

    // -------------------------------------------------------------- taking memory

    /** Finds the chain entry holding `address`, if any. */
    method SearchEntryContainingAddress(address: nat) returns (r: Option<nat>, ghost i: nat)
      requires ChainValid()
      ensures r.Some? ==> i < |chain| && chain[i] == r.value && Inside(Ranges(), i, address, address)
      ensures r.None? ==> !Covers(Ranges(), address)
    {
      hide Coalesced;
      i := 0;
      ghost var rs := Ranges();
      if firstEntry.None? {
        return None, 0;
      }
      var entry := firstEntry.value;
      while pool[entry].start < address && pool[entry].end < address
        invariant i < |chain| && chain[i] == entry && entry < POOL_SIZE
        invariant forall j :: 0 <= j < i ==> rs[j].end < address
        decreases |chain| - i
      {
        assert NodeOk(ChainLinks(pool[..]), chain, i);
        assert rs[i].end < address;
        if pool[entry].chain.next.Some? {
          entry := pool[entry].chain.next.value;
          i := i + 1;
        } else {
          return None, 0;
        }
      }
      if pool[entry].start <= address <= pool[entry].end {
        r := Some(entry);
      } else {
        NotCoveredBefore(rs, i, address);
        r := None;
      }
    }

    /** Moves an entry from the free list of its old size to that of its new size. */
    method Refile(entry: nat, oldSize: nat)
      requires ChainValid() && ListsValid({entry}) && entry < POOL_SIZE && pool[entry].enabled
      requires entry in lists[PageOrder(oldSize)] && oldSize != SizeOf(pool[entry])
      modifies this`lists, pool, freeList
      ensures Indexed() && Ranges() == old(Ranges())
    {
      hide Family, Filed, PageOrder, Coalesced, Dll, SameMembers, UnfiledKeep;
      CleanedLast(lists, entry);
      ChainEntryToFreeList(entry, Some(oldSize), {entry});
      SameCoreChained(old(pool[..]), pool[..], firstEntry, chain);
    }

    /** Gives an entry a new range and refiles it. */
    method Resize(entry: nat, ghost i: nat, a: nat, b: nat)
      requires Indexed() && i < |chain| && chain[i] == entry && a <= b < WORD - 1
      requires Coalesced(Ranges()[i := Range(a, b)])
      modifies this`lists, pool, freeList
      ensures Indexed()
      ensures Ranges() == old(Ranges())[i := Range(a, b)]
    {
      hide Family, Filed, PageOrder, Coalesced, Dll;
      ghost var p := pool[..];
      ChainPlace(p, firstEntry, chain, i);
      var oldSize: nat := pool[entry].end - pool[entry].start + 1;
      ChainResize(p, firstEntry, chain, i, a, b);
      EntryFiled(p, lists, entry);
      Put(entry, pool[entry].(start := a, end := b));
      FiledFrame(p, pool[..], lists, {}, {entry});
      ghost var q := pool[..];
      CleanedLast(lists, entry);
      ChainEntryToFreeList(entry, Some(oldSize), {entry});
      assert SizeOf(pool[entry]) == b - a + 1;
      if oldSize == b - a + 1 {
        assert pool[..] == q;
        FiledFrame(p, q, lists, {}, {});
        assert Indexed();
      } else {
        assert ListsValid({});
      }
      SameCoreChained(q, pool[..], firstEntry, chain);
    }

    /** Unlinks an entry from the address chain and marks its slot unused. */
    method DeleteEntry(entry: nat)
      requires Shape() && entry < POOL_SIZE
      requires var l := pool[entry].chain;
        && l.prev != Some(entry) && l.next != Some(entry) && (l.prev.Some? ==> l.prev != l.next)
        && (l.prev.Some? ==> l.prev.value < POOL_SIZE && pool[l.prev.value].id == l.prev.value)
        && (l.next.Some? ==> l.next.value < POOL_SIZE && pool[l.next.value].id == l.next.value)
      modifies pool
      ensures SameOutside(old(pool[..]), pool[..], entry)
      ensures pool[entry] == old(pool[entry]).(chain := UNLINKED, enabled := false)
      ensures ChainLinks(pool[..]) == Unlink(ChainLinks(old(pool[..])), entry)
    {
      var l := pool[entry].chain;
      if l.prev.Some? {
        var p := l.prev.value;
        if l.next.Some? {
          var n := l.next.value;
          Put(p, pool[p].(chain := pool[p].chain.(next := Some(pool[n].id))));
          Put(n, pool[n].(chain := pool[n].chain.(prev := Some(pool[p].id))));
        } else {
          Put(p, pool[p].(chain := pool[p].chain.(next := None)));
        }
      } else if l.next.Some? {
        var n := l.next.value;
        Put(n, pool[n].(chain := pool[n].chain.(prev := None)));
      }
      Put(entry, pool[entry].(chain := UNLINKED, enabled := false));
      assert ChainLinks(pool[..]) == Unlink(ChainLinks(old(pool[..])), entry);
    }

    /** Takes an entry off its free list and out of the chain. */
    method Delete(entry: nat, ghost i: nat)
      requires Indexed() && i < |chain| && chain[i] == entry
      modifies this, pool, freeList
      ensures Indexed() && freeSize == old(freeSize)
      ensures Ranges() == old(Ranges())[..i] + old(Ranges())[i + 1..]
    {
      hide Family, Filed, PageOrder, Chained, Nowhere, SameMembers, UnfiledKeep, SameCore, SameOutside;
      ghost var p := pool[..];
      SameCoreSelf(p);
      DeleteReady(p, p, firstEntry, chain, i);
      EntryFiled(p, lists, entry);
      FiledFrame(p, p, lists, {}, {entry});
      if pool[entry].chain.prev.None? {
        firstEntry := pool[entry].chain.next;
      }
      var order := SizeToPageOrder(pool[entry].end - pool[entry].start + 1);
      UnchainEntryFromFreeList(entry, order, {entry});
      ghost var q := pool[..];
      DeleteReady(p, q, old(firstEntry), chain, i);
      DeleteEntry(entry);
      DeleteChain(q, pool[..], old(firstEntry), chain, i);
      DeleteLists(q, pool[..], entry, freeList[..], lists);
      chain := RemoveAt(chain, i);
    }

    /** Links slot `b` after slot `a` in the address chain. */
    method ChainAfter(a: nat, b: nat)
      requires Shape() && a < POOL_SIZE && b < POOL_SIZE && a != b && pool[a].id == a && pool[b].id == b
      modifies pool
      ensures pool[..] == old(pool[..])[a := old(pool[a]).(chain := old(pool[a]).chain.(next := Some(b)))]
                                       [b := old(pool[b]).(chain := old(pool[b]).chain.(prev := Some(a)))]
    {
      Put(a, pool[a].(chain := pool[a].chain.(next := Some(pool[b].id))));
      Put(b, pool[b].(chain := pool[b].chain.(prev := Some(pool[a].id))));
    }

    /**
      Cuts an entry down to the part below `start` and links the created slot `n` after
      it with the part above `b`. `p` is the pool before `n` was created.
     */
    method LinkUpperPart(entry: nat, n: nat, start: nat, b: nat, ghost p: seq<Entry>)
      requires Shape() && n < POOL_SIZE && entry < POOL_SIZE && entry != n && |p| == POOL_SIZE
      requires pool[..] == p[n := NEW_ENTRY.(id := n, enabled := true)]
      requires p[entry].id == entry && 0 < start && b < p[entry].end
      requires var next := p[entry].chain.next;
        next.Some? ==>
          && next.value < POOL_SIZE && next.value != n && next.value != entry
          && p[next.value].id == next.value
      modifies pool
      ensures Spliced(p[entry := p[entry].(end := start - 1)], pool[..], Some(entry), p[entry].chain.next, n)
      ensures pool[n].start == b + 1 && pool[n].end == p[entry].end
      ensures pool[entry].start == p[entry].start && pool[entry].end == start - 1 && pool[n].list == UNLINKED
    {
      Put(n, pool[n].(start := b + 1, end := pool[entry].end));
      Put(entry, pool[entry].(end := start - 1));
      var next := pool[entry].chain.next;
      if next.Some? {
        ChainAfter(n, next.value);
      }
      ChainAfter(entry, n);
    }

    /** Files both parts of a split entry. */
    method FileParts(entry: nat, n: nat, oldSize: nat)
      requires entry < POOL_SIZE && n < POOL_SIZE && entry != n
      requires ChainValid() && ListsValid({entry, n}) && pool[entry].enabled && pool[n].enabled
      requires entry in lists[PageOrder(oldSize)] && oldSize != SizeOf(pool[entry])
      requires Nowhere(lists, n) && pool[n].list == UNLINKED
      modifies this`lists, pool, freeList
      ensures Indexed() && Ranges() == old(Ranges())
    {
      hide Family, Filed, PageOrder, Coalesced, Dll;
      CleanedPair(lists, entry, n);
      ChainEntryToFreeList(entry, Some(oldSize), {entry, n});
      CleanedLast(lists, n);
      ChainEntryToFreeList(n, None, {n});
      SameCoreChained(old(pool[..]), pool[..], firstEntry, chain);
    }

    /** Splits an entry around start..b, the upper part going to a new pool slot. */
    method Split(entry: nat, ghost i: nat, start: nat, b: nat) returns (r: Result<(), MemoryError>)
      requires Indexed() && i < |chain| && chain[i] == entry
      requires Ranges()[i].start < start <= b < Ranges()[i].end
      modifies this, pool, freeList
      ensures Indexed() && freeSize == old(freeSize)
      ensures r.Err? ==> r.error == NoEntry && unchanged(this) && unchanged(pool) && unchanged(freeList)
      ensures r.Err? <==> |old(Ranges())| == POOL_SIZE
      ensures r.Ok? ==> Ranges() == Carve(old(Ranges()), i, start, b)
    {
      hide Family, Filed, PageOrder, Carve, Chained, Spliced, Nowhere;
      ghost var p := pool[..];
      PoolFull(p, firstEntry, chain);
      ReadEntry(entry, i);
      var created := CreateMemoryEntry();
      if created.Err? {
        return Err(NoEntry);
      }
      var n := created.value;
      FreshSlot(p, firstEntry, chain, i, n);
      var oldSize: nat := pool[entry].end - pool[entry].start + 1;
      LinkUpperPart(entry, n, start, b, p);
      ghost var p' := p[entry := p[entry].(end := start - 1)];
      SplitChain(p, p', pool[..], firstEntry, chain, i, n, start, b);
      SplitLists(p, p', pool[..], entry, n, freeList[..], lists);
      chain := InsertAt(chain, i + 1, n);
      FileParts(entry, n, oldSize);
      r := Ok(());
    }

    /** Deletes, shrinks or splits an entry to take start..start + size - 1, which it holds, out of it. */
    method TakeOut(entry: nat, start: nat, size: nat, ghost i: nat) returns (r: Result<(), MemoryError>)
      requires Indexed() && size > 0
      requires i < |chain| && chain[i] == entry && Inside(Ranges(), i, start, start + size - 1)
      modifies this, pool, freeList
      ensures Indexed() && freeSize == old(freeSize)
      ensures r.Err? ==> r.error == NoEntry && unchanged(this) && unchanged(pool) && unchanged(freeList)
      ensures r.Ok? ==> Ranges() == Carve(old(Ranges()), i, start, start + size - 1)
      ensures r.Err? <==> |old(Ranges())| == POOL_SIZE && Splits(old(Ranges())[i], start, size)
    {
      hide ListsValid, Chained, Coalesced, Carve, Ranges;
      ghost var rs := Ranges();
      RangesCoalesced();
      CarveCoalesced(rs, i, start, start + size - 1);
      CarveShapes(rs, i, start, start + size - 1);
      ReadEntry(entry, i);
      r := Ok(());
      if pool[entry].start == start {
        if pool[entry].end == start + size - 1 {
          Delete(entry, i);
        } else {
          Resize(entry, i, start + size, pool[entry].end);
        }
      } else if pool[entry].end == start {
        Resize(entry, i, pool[entry].start, start - 1);  // one byte, as the request fits
      } else if pool[entry].end == start + size - 1 {
        Resize(entry, i, pool[entry].start, start - 1);
      } else {
        r := Split(entry, i, start, start + size - 1);
      }
    }

    lemma ReadEntry(entry: nat, i: nat)
      requires ChainValid() && i < |chain| && chain[i] == entry
      ensures entry < POOL_SIZE && Ranges()[i] == Range(pool[entry].start, pool[entry].end)
        && pool[entry].end < WORD - 1
    {
    }

    /**
      Takes start..start + size - 1 out of `entry`, clipped at the end of that entry.
      The one failure is a split with no free pool slot.
     */
    method UseFrom(entry: nat, start: nat, size: nat, ghost i: nat) returns (r: Result<(), MemoryError>)
      requires Valid() && size > 0
      requires i < |chain| && chain[i] == entry && Inside(Ranges(), i, start, start)
      modifies this, pool, freeList
      ensures Valid()
      ensures r.Err? ==> r.error == NoEntry && unchanged(this) && unchanged(pool) && unchanged(freeList)
      ensures r.Ok? ==> Ranges() == Carve(old(Ranges()), i, start, ClippedEnd(old(Ranges())[i], start, size))
      ensures r.Err? <==> |old(Ranges())| == POOL_SIZE && Splits(old(Ranges())[i], start, size)
    {
      hide Family, Filed, PageOrder, Coalesced, Dll, Carve;
      ghost var rs := Ranges();
      ghost var b := ClippedEnd(rs[i], start, size);
      CarveCoalesced(rs, i, start, b);
      CarveTotal(rs, i, start, b);
      CoalescedTotal(Carve(rs, i, start, b));
      ChainPlace(pool[..], firstEntry, chain, i);
      hide Chained, Total, ListsValid;
      var size' := if pool[entry].end < start + size - 1 then pool[entry].end - start + 1 else size;
      r := TakeOut(entry, start, size', i);
      if r.Ok? {
        freeSize := freeSize - size';
      }
    }

    // -------------------------------------------------------------- allocating and reserving

    /** Scans one free list, smallest entries first, for an entry that holds the block. */
    method ScanList(order: nat, size: nat, alignOrder: nat, limit: nat)
      returns (found: Option<nat>, address: nat, ghost k: nat)
      requires Indexed() && order < NUM_OF_FREE_LIST && size > 0 && alignOrder < 64
      ensures k <= |lists[order]| && Bounded(lists[order], POOL_SIZE)
      ensures forall j :: 0 <= j < k ==> !HoldsBlock(RangeAt(pool[..], lists[order][j]), size, Pow2(alignOrder), limit)
      ensures found.None? ==> k == |lists[order]|
      ensures found.Some? ==> k < |lists[order]| && lists[order][k] == found.value && pool[found.value].enabled
      ensures found.Some? ==> PlaceIn(RangeAt(pool[..], found.value), size, alignOrder, limit) == Some(address)
    {
      hide PageOrder, Coalesced;
      ghost var l := lists[order];
      assert Dll(ListLinks(pool[..]), freeList[order], l) && ListFiled(pool[..], order, l, {});
      var entry := freeList[order];
      k := 0;
      while entry.Some?
        invariant k <= |l| && entry == After(l, k)
        invariant forall j :: 0 <= j < k ==> !HoldsBlock(RangeAt(pool[..], l[j]), size, Pow2(alignOrder), limit)
        decreases |l| - k
      {
        var e := entry.value;
        assert NodeOk(ListLinks(pool[..]), l, k) && l[k] in l && InClass(pool[..], order, l[k], {});
        var place := PlaceIn(Range(pool[e].start, pool[e].end), size, alignOrder, limit);
        PlaceInCorrect(Range(pool[e].start, pool[e].end), size, alignOrder, limit);
        if place.Some? {
          return Some(e), place.value, k;
        }
        entry, k := pool[e].list.next, k + 1;
      }
      return None, 0, k;
    }

    /** Takes an explicit range, from the given entry or from the one that holds its start. */
    method DefineUsedMemory(start: nat, size: nat, alignOrder: nat, target: Option<nat>, ghost t: nat)
      returns (r: Result<(), MemoryError>, ghost i: nat)
      requires Valid() && start < WORD && alignOrder < 64
      requires size > 0 ==> RoundUp(start + size, Pow2(alignOrder)) < WORD
      requires target.Some? ==>
        alignOrder == 0 && t < |chain| && chain[t] == target.value && Inside(Ranges(), t, start, start)
      modifies this, pool, freeList
      ensures Valid()
      ensures r.Err? ==> unchanged(this) && unchanged(pool) && unchanged(freeList)
      ensures size == 0 ==> r == Err(InvalidRequest)
      ensures size > 0 ==>
        var (a, n) := AlignAddressAndSize(start, size, alignOrder);
        var rs := old(Ranges());
        && (target.Some? ==> i == t)
        && (Total(rs) >= n && Covers(rs, a) ==> Inside(rs, i, a, a))
        && r == UseOutcome(rs, i, a, n)
        && (r.Ok? ==> Ranges() == Carve(rs, i, a, ClippedEnd(rs[i], a, n)))
      decreases alignOrder
    {
      hide PageOrder, Coalesced, Carve, Total, Dll, Filed, Family, Chained, ListsValid;
      i := t;
      if size == 0 {
        return Err(InvalidRequest), t;
      }
      AlignedRange(start, size, alignOrder);
      if freeSize < size {
        return Err(NoMemory), t;
      }
      if alignOrder != 0 {
        var (alignedStart, alignedSize) := AlignAddressAndSize(start, size, alignOrder);
        AlignedByOne(alignedStart, alignedSize);
        r, i := DefineUsedMemory(alignedStart, alignedSize, 0, target, t);
        return;
      }
      AlignedByOne(start, size);
      var entry := 0;
      if target.Some? {
        entry, i := target.value, t;
      } else {
        var found;
        found, i := SearchEntryContainingAddress(start);
        if found.None? {
          return Err(InvalidRequest), 0;
        }
        entry := found.value;
      }
      r := UseFrom(entry, start, size, i);
      assert r.Ok? ==> r.value == ();
    }

    /** Finds a block of `size` bytes ending below `limit`, scanning the size classes upward. */
    method FindBlock(size: nat, alignOrder: nat, limit: nat)
      returns (found: Option<nat>, address: nat, ghost i: nat)
      requires Indexed() && size > 0 && alignOrder < 64
      ensures found.None? <==> forall j :: 0 <= j < |Ranges()| ==>
        !HoldsBlock(Ranges()[j], size, Pow2(alignOrder), limit)
      ensures found.Some? ==>
        && i < |chain| && chain[i] == found.value && address + size < WORD
        && Inside(Ranges(), i, address, address + size - 1)
        && HoldsBlock(Ranges()[i], size, Pow2(alignOrder), limit)
        && address == RoundUp(Ranges()[i].start, Pow2(alignOrder)) && address + size <= EffectiveLimit(limit)
        && (alignOrder == 0 && limit == WORD - 1 ==> SmallestFit(Ranges(), i, size))
    {
      hide PageOrder, Coalesced, Dll, Filed, Family;
      ghost var p := pool[..];
      var pageOrder := SizeToPageOrder(size);
      var order := pageOrder;
      while order < NUM_OF_FREE_LIST
        invariant pageOrder <= order <= NUM_OF_FREE_LIST
        invariant forall o :: pageOrder <= o < order ==> NoneHolds(p, lists[o], size, Pow2(alignOrder), limit)
      {
        ghost var k;
        found, address, k := ScanList(order, size, alignOrder, limit);
        if found.Some? {
          i := ChainIndex(p, firstEntry, chain, found.value);
          BlockFound(p, firstEntry, chain, lists, pageOrder, order, k, i, size, alignOrder, limit, address);
          assert HoldsBlock(Ranges()[i], size, Pow2(alignOrder), limit);
          ChainPlace(p, firstEntry, chain, i);
          return;
        }
        order := order + 1;
      }
      NoBlock(p, firstEntry, chain, lists, pageOrder, size, alignOrder, limit);
      return None, 0, 0;
    }

    /** Allocates `size` bytes ending below `limit`; `i` is the free range the block is cut from. */
    method AllocateWithAddressLimit(size: nat, alignOrder: nat, limit: nat)
      returns (r: Result<nat, MemoryError>, ghost i: nat)
      requires Valid() && alignOrder < 64
      modifies this, pool, freeList
      ensures Valid()
      ensures r.Err? ==> unchanged(this) && unchanged(pool) && unchanged(freeList)
      ensures size == 0 ==> r == Err(InvalidRequest)
      ensures size > 0 ==> AllocationOutcome(old(Ranges()), size, alignOrder, limit, i, r)
      ensures r.Ok? ==> Ranges() == Carve(old(Ranges()), i, r.value, r.value + size - 1)
      ensures r.Ok? && alignOrder == 0 && limit == WORD - 1 ==> SmallestFit(old(Ranges()), i, size)
    {
      hide Coalesced, Carve, Total, Dll, ListsValid, SmallestFit, RoundUp, HoldsBlock, Pow2;
      i := 0;
      ghost var rs := Ranges();
      if size == 0 {
        return Err(InvalidRequest), 0;
      }
      if freeSize < size {
        NoneBigEnough(rs, size, Pow2(alignOrder), limit);
        return Err(NoMemory), 0;
      }
      var found, address;
      found, address, i := FindBlock(size, alignOrder, limit);
      if found.None? {
        return Err(NoMemory), 0;
      }
      AlignedByOne(address, size);
      hide Chained, Covers;
      var used;
      used, i := DefineUsedMemory(address, size, 0, found, i);
      r := if used.Ok? then Ok(address) else Err(used.error);
    }

    // -------------------------------------------------------------- freeing

    /**
      Finds the chain entry before `address`: with k entries starting below it, the
      k-th one, unless that is the last one and reaches past `address`, when it is the
      one before.
     */
    method SearchEntryPreviousAddress(address: nat) returns (r: Option<nat>)
      requires ChainValid()
      ensures var k := Below(Ranges(), address);
        r == if k < |chain| || k == 0 || Ranges()[k - 1].end <= address then Before(chain, k) else Before(chain, k - 1)
    {
      hide Coalesced, Chained, Below;
      ghost var rs := Ranges();
      FirstIsHead(pool[..], firstEntry, chain);
      if firstEntry.None? {
        BelowIs(rs, address, 0);
        return None;
      }
      var entry := firstEntry.value;
      ghost var k: nat := 0;
      EntryView(pool[..], firstEntry, chain, 0);
      while pool[entry].start < address
        invariant k < |chain| && chain[k] == entry && entry < POOL_SIZE
        invariant forall j :: 0 <= j < k ==> rs[j].start < address
        decreases |chain| - k
      {
        EntryView(pool[..], firstEntry, chain, k);
        if pool[entry].chain.next.Some? {
          entry := pool[entry].chain.next.value;
          k := k + 1;
          EntryView(pool[..], firstEntry, chain, k);
        } else {
          r := if pool[entry].end <= address then Some(entry) else pool[entry].chain.prev;
          k := k + 1;
          BelowIs(rs, address, k);
          return;
        }
      }
      EntryView(pool[..], firstEntry, chain, k);
      BelowIs(rs, address, k);
      r := pool[entry].chain.prev;
    }

    /**
      Between the steps of a merge, nothing but the ranges of `entry` and `next` (and
      free-list links) differs from the pool `p` before it, and those two wait to be refiled.
     */
    ghost predicate Merging(p: seq<Entry>, entry: nat, next: nat)
      reads this`lists, pool, freeList
    {
      && ListsValid({entry, next}) && ChangedRanges(p, pool[..], entry, next)
      && entry < POOL_SIZE && next < POOL_SIZE && entry != next
      && p[entry].enabled && p[next].enabled
      && pool[entry].start == p[entry].start && pool[next].end == p[next].end
    }

    method SetRange(x: nat, a: nat, b: nat, ghost p: seq<Entry>, ghost entry: nat, ghost next: nat)
      requires Merging(p, entry, next) && (x == entry || x == next) && a <= b
      requires x == entry ==> a == p[entry].start
      requires x == next ==> b == p[next].end
      modifies pool
      ensures Merging(p, entry, next)
      ensures pool[..] == old(pool[..])[x := old(pool[x]).(start := a, end := b)]
    {
      hide Family, Filed, PageOrder;
      Put(x, pool[x].(start := a, end := b));
      assert ListLinks(pool[..]) == ListLinks(old(pool[..]));
      FiledFrame(old(pool[..]), pool[..], lists, {entry, next}, {entry, next});
    }

    /** Refiles the stretched `next` past an `entry` that is still on the list of its old size. */
    method RefileNext(entry: nat, next: nat, oldSize: nat, nextOldSize: nat, ghost p: seq<Entry>)
      requires Merging(p, entry, next) && IdsOk(pool[..])
      requires entry in lists[PageOrder(oldSize)] && next in lists[PageOrder(nextOldSize)]
      requires nextOldSize != SizeOf(pool[next])
      modifies this`lists, pool, freeList
      ensures Merging(p, entry, next) && IdsOk(pool[..])
      ensures pool[entry].end == old(pool[entry].end) && pool[next].start == old(pool[next].start)
      ensures entry in lists[PageOrder(oldSize)] && next in lists[PageOrder(SizeOf(pool[next]))]
    {
      hide Family, Filed, PageOrder, SameMembers, UnfiledKeep;
      CleanedBlocked(lists, next, entry, PageOrder(oldSize));
      ChainEntryToFreeList(next, Some(nextOldSize), {entry, next});
      SameMembersAt(lists, old(lists), next, PageOrder(oldSize), entry);
    }

    /** Takes `next` off its free list and out of the chain, leaving only `entry` to be refiled. */
    method UnfileAndDelete(entry: nat, next: nat, oldSize: nat, ghost p: seq<Entry>, ghost j: nat)
      requires Merging(p, entry, next) && pool[next].start <= pool[next].end
      requires Chained(p, firstEntry, chain) && j < |chain| && chain[j] == next
      requires entry in lists[PageOrder(oldSize)] && next in lists[PageOrder(SizeOf(pool[next]))]
      modifies this`lists, pool, freeList
      ensures ListsValid({entry}) && entry in lists[PageOrder(oldSize)]
      ensures Dropped(old(pool[..]), pool[..], next)
    {
      hide Family, Filed, PageOrder, Nowhere, SameMembers, UnfiledKeep, Coalesced, Dll;
      NeighboursOk(p, firstEntry, chain, j);
      var order := SizeToPageOrder(pool[next].end - pool[next].start + 1);
      UnchainEntryFromFreeList(next, order, {entry, next});
      SameMembersAt(lists, old(lists), next, PageOrder(oldSize), entry);
      ghost var q := pool[..];
      DeleteEntry(next);
      FamilyFrame(q, pool[..], freeList[..], lists, next);
      FiledDisable(q, pool[..], lists, next, {entry, next});
      assert {entry, next} - {next} == {entry};
      DroppedSteps(old(pool[..]), q, pool[..], next);
    }

    /**
      The freed range closes the gap between `entry` and `next`: both are stretched over
      it, `next` is refiled, `entry` takes over its end, `next` is dropped and `entry`
      refiled at last.
     */
    method MergeBoth(entry: nat, next: nat, ghost j: nat, start: nat, end: nat)
      requires Indexed() && j + 1 < |chain| && chain[j] == entry && chain[j + 1] == next
      requires Ranges()[j].end + 1 == start && start <= end && Ranges()[j + 1].start == end + 1
      modifies this`chain, this`lists, pool, freeList
      ensures Indexed()
      ensures var rs := old(Ranges());
        Ranges() == (rs[..j + 1] + rs[j + 2..])[j := Range(rs[j].start, rs[j + 1].end)]
    {
      hide Family, Filed, PageOrder, Coalesced, Dll;
      ghost var p := pool[..];
      MergeStart(p, firstEntry, chain, lists, j);
      var oldSize: nat := pool[entry].end - pool[entry].start + 1;
      var nextOldSize: nat := pool[next].end - pool[next].start + 1;
      SetRange(entry, pool[entry].start, end, p, entry, next);
      SetRange(next, start, pool[next].end, p, entry, next);
      MergeIds(p, pool[..], entry, next);
      hide Chained, IdsOk, ChangedRanges;
      RefileNext(entry, next, oldSize, nextOldSize, p);
      SetRange(entry, pool[entry].start, Max(pool[entry].end, pool[next].end), p, entry, next);
      ghost var q := pool[..];
      UnfileAndDelete(entry, next, oldSize, p, j + 1);
      DroppedAt(q, pool[..], next, entry);
      MergedEnabled(p, q, entry, next);
      MergeDropped(p, q, pool[..], firstEntry, chain, j);
      chain := RemoveAt(chain, j + 1);
      Refile(entry, oldSize);
    }

    /** Links the created slot `n` in front of the chain or after `entry`, with its range set. */
    method LinkNew(n: nat, entry: nat, start: nat, end: nat, ghost p: seq<Entry>)
      requires Shape() && n < POOL_SIZE && entry < POOL_SIZE && entry != n && |p| == POOL_SIZE
      requires pool[..] == p[n := NEW_ENTRY.(id := n, enabled := true)]
      requires p[entry].id == entry && start <= end
      requires end < p[entry].start ==> p[entry].chain.prev.None?
      requires var next := p[entry].chain.next;
        next.Some? ==>
          && next.value < POOL_SIZE && next.value != n && next.value != entry
          && p[next.value].id == next.value
      modifies this`firstEntry, pool
      ensures firstEntry == if end < p[entry].start then Some(n) else old(firstEntry)
      ensures Spliced(p, pool[..], if end < p[entry].start then None else Some(entry),
                      if end < p[entry].start then Some(entry) else p[entry].chain.next, n)
      ensures pool[n].start == start && pool[n].end == end
    {
      Put(n, pool[n].(start := start, end := end));
      if pool[n].end < pool[entry].start {
        firstEntry := Some(pool[n].id);
        ChainAfter(n, entry);
      } else {
        if pool[entry].chain.next.Some? {
          ChainAfter(n, pool[entry].chain.next.value);
        }
        ChainAfter(entry, n);
      }
    }

    /** Puts a range that touches no free range into the chain and the free lists. */
    method InsertNew(entry: nat, start: nat, end: nat, ghost k: nat) returns (r: Result<(), MemoryError>)
      requires Indexed() && end < WORD - 1 && Fits(Ranges(), k, start, end)
      requires !JoinsLeft(Ranges(), k, start) && !JoinsRight(Ranges(), k, end)
      requires chain != [] && entry == chain[if k == 0 then 0 else k - 1]
      modifies this, pool, freeList
      ensures Indexed() && freeSize == old(freeSize)
      ensures r.Err? ==> r.error == NoEntry && unchanged(this) && unchanged(pool) && unchanged(freeList)
      ensures r.Err? <==> |old(Ranges())| == POOL_SIZE
      ensures r.Ok? ==> Ranges() == Insert(old(Ranges()), k, start, end)
    {
      hide Family, Filed, PageOrder, Chained, Spliced, Insert, Fits, JoinsLeft, JoinsRight, Nowhere;
      ghost var p := pool[..];
      RangesCoalesced();
      InsertAlone(Ranges(), k, start, end);
      InsertPlace(p, firstEntry, chain, k, start, end);
      PoolFull(p, firstEntry, chain);
      var created := CreateMemoryEntry();
      if created.Err? {
        return Err(NoEntry);
      }
      var n := created.value;
      LinkNew(n, entry, start, end, p);
      SpliceNew(p, pool[..], old(firstEntry), chain, k, n);
      SplicedLists(p, pool[..], Before(chain, k), After(chain, k), n, freeList[..], lists, {});
      assert {} + {n} == {n};
      chain := InsertAt(chain, k, n);
      FileNew(n);
      r := Ok(());
    }

    /** Files a new entry. */
    method FileNew(n: nat)
      requires ChainValid() && ListsValid({n}) && n < POOL_SIZE && pool[n].enabled
      requires Nowhere(lists, n) && pool[n].list == UNLINKED
      modifies this`lists, pool, freeList
      ensures Indexed() && Ranges() == old(Ranges())
    {
      hide Family, Filed, PageOrder, Coalesced, Dll, SameMembers, UnfiledKeep;
      CleanedLast(lists, n);
      ChainEntryToFreeList(n, None, {n});
      SameCoreChained(old(pool[..]), pool[..], firstEntry, chain);
    }

    /** Which neighbours a freed range start..end touches, seen from the entry found for it. */
    method Touching(entry: nat, start: nat, end: nat, ghost e: nat)
      returns (next: Option<nat>, joinsEntry: bool, joinsFirst: bool, joinsNext: bool)
      requires ChainValid() && e < |chain| && chain[e] == entry
      ensures entry < POOL_SIZE && Ranges()[e] == Range(pool[entry].start, pool[entry].end)
        && pool[entry].end < WORD - 1
      ensures joinsEntry <==> Ranges()[e].end + 1 == start
      ensures joinsFirst <==> e == 0 && Ranges()[e].start == end + 1
      ensures joinsNext <==> JoinsNext(Ranges(), e, end)
      ensures joinsNext ==>
        && e + 1 < |chain| && next == Some(chain[e + 1]) && chain[e + 1] < POOL_SIZE
        && Ranges()[e + 1] == Range(pool[chain[e + 1]].start, pool[chain[e + 1]].end)
        && Ranges()[e + 1].start == end + 1 && pool[chain[e + 1]].end < WORD - 1
    {
      hide Coalesced, Dll;
      EntryView(pool[..], firstEntry, chain, e);
      next := pool[entry].chain.next;
      joinsEntry := pool[entry].end + 1 == start;
      joinsFirst := pool[entry].chain.prev.None? && pool[entry].start == end + 1;
      joinsNext := next.Some? && pool[next.value].start == end + 1;
    }

    /** Grows, merges or adds entries so that start..end, clear of the free space, becomes free. */
    method PutBack(entry: nat, start: nat, end: nat, ghost k: nat) returns (r: Result<(), MemoryError>)
      requires Indexed() && start <= end < WORD - 1 && Ranges() != [] && DisjointFrom(Ranges(), start, end)
      requires k == Below(Ranges(), start) && chain[SearchIndex(Ranges(), start)] == entry
      modifies this, pool, freeList
      ensures Indexed() && freeSize == old(freeSize)
      ensures r.Err? ==> r.error == NoEntry && unchanged(this) && unchanged(pool) && unchanged(freeList)
      ensures r.Err? <==>
        && |old(Ranges())| == POOL_SIZE && !JoinsLeft(old(Ranges()), k, start)
        && !JoinsRight(old(Ranges()), k, end)
      ensures r.Ok? ==> Ranges() == Insert(old(Ranges()), k, start, end)
    {
      hide ListsValid, Chained, Coalesced, Insert, Below, SearchIndex, Fits, JoinsLeft, JoinsRight, JoinsNext,
        DisjointFrom, Ranges;
      ghost var rs := Ranges();
      ghost var e := SearchIndex(rs, start);
      RangesCoalesced();
      FreeCases(rs, start, end);
      var next, joinsEntry, joinsFirst, joinsNext := Touching(entry, start, end, e);
      r := Ok(());
      if joinsNext {
        if joinsEntry {
          MergeBoth(entry, next.value, e, start, end);
        } else {
          Resize(next.value, e + 1, start, pool[next.value].end);
        }
      } else if joinsEntry {
        Resize(entry, e, pool[entry].start, end);
      } else if joinsFirst {
        Resize(entry, e, start, pool[entry].end);
      } else {
        r := InsertNew(entry, start, end, k);
      }
    }

    lemma RangesCoalesced()
      requires ChainValid()
      ensures Coalesced(Ranges()) && |Ranges()| == |chain|
      ensures forall j :: 0 <= j < |Ranges()| ==> Ranges()[j].start <= Ranges()[j].end < WORD - 1
    {
    }

    /** The entry found before `start`, or else the first one. */
    method EntryNear(start: nat) returns (entry: nat)
      requires ChainValid() && Ranges() != []
      ensures SearchIndex(Ranges(), start) < |chain| && entry == chain[SearchIndex(Ranges(), start)]
    {
      hide Coalesced;
      FirstIsHead(pool[..], firstEntry, chain);
      var found := SearchEntryPreviousAddress(start);
      entry := if found.Some? then found.value else firstEntry.value;
    }

    /** Finds the entry next to start..end and tells how the range lies to it and to the one after it. */
    method Locate(start: nat, end: nat) returns (entry: nat, next: Option<nat>, spot: Spot)
      requires ChainValid() && Ranges() != [] && start <= end
      requires Contains(Ranges(), start, end) || Freeable(Ranges(), start, end)
      ensures var e := SearchIndex(Ranges(), start);
        && e < |chain| == |Ranges()| && entry == chain[e] && SpotMeans(Ranges(), start, end, e, spot)
        && entry < POOL_SIZE && pool[entry].start == Ranges()[e].start && pool[entry].end == Ranges()[e].end
        && (spot.StartsInNext? ==> next.Some? && next.value < POOL_SIZE && pool[next.value].end == Ranges()[e + 1].end)
    {
      hide Coalesced, DisjointFrom, Contains, Dll, Below, JoinsLeft, JoinsRight, Fits, SearchIndex, SpotMeans,
        Freeable, Chained;
      ghost var rs := Ranges();
      RangesCoalesced();
      SearchFreeable(rs, start, end);
      entry := EntryNear(start);
      EntryView(pool[..], firstEntry, chain, SearchIndex(rs, start));
      next := pool[entry].chain.next;
      if pool[entry].start <= start && pool[entry].end >= end {
        return entry, next, Taken;
      }
      if pool[entry].end >= start && pool[entry].chain.prev.Some? {
        assert false;
      }
      if pool[entry].end == end {
        return entry, next, EndsWithFirst;
      }
      if next.Some? && pool[next.value].start <= start {
        return entry, next, if pool[next.value].end >= end then Taken else StartsInNext;
      }
      spot := Clear;
    }

    /**
      Frees a range that is wholly free already, which is refused, or one of those that can be
      freed. A range that starts or ends with a free one is cut to what is missing; every other
      overlap with the free space would leave overlapping entries or a wrong free size.
     */
    method DefineFreeMemory(start: nat, size: nat) returns (r: Result<(), MemoryError>)
      requires Valid() && Ranges() != []
      requires size > 0 ==> start + size < WORD
      requires size > 0 ==> Contains(Ranges(), start, start + size - 1) || Freeable(Ranges(), start, start + size - 1)
      modifies this, pool, freeList
      ensures Valid()
      ensures r.Err? ==> unchanged(this) && unchanged(pool) && unchanged(freeList)
      ensures FreeDone(old(Ranges()), start, size, r, Ranges())
      decreases size
    {
      hide ListsValid, Chained, Coalesced, Insert, Below, SearchIndex, JoinsLeft, JoinsRight, DisjointFrom, Contains,
        Ranges, Total,
        Freeable, FreedPart, FreeDone;
      if size == 0 {
        NothingToFree(Ranges(), start);
        return Err(InvalidRequest);
      }
      ghost var rs := Ranges();
      var end := start + size - 1;
      RangesCoalesced();
      var entry, next, spot := Locate(start, end);
      match spot {
        case Taken =>
          TakenPart(rs, start, size);
          return Err(InvalidRequest);
        case EndsWithFirst =>
          DisjointParts(rs, start, pool[entry].start - 1);
          r := DefineFreeMemory(start, size - (pool[entry].end - pool[entry].start + 1));
          FreeDonePart(rs, start, size, start, rs[0].start - start, r, Ranges());
        case StartsInNext =>
          DisjointParts(rs, pool[next.value].end + 1, end);
          ghost var c := pool[next.value].end + 1;
          r := DefineFreeMemory(pool[next.value].end + 1, end - pool[next.value].end);
          FreeDonePart(rs, start, size, c, end + 1 - c, r, Ranges());
        case Clear =>
          BelowFits(rs, start, end);
          InsertTotal(rs, Below(rs, start), start, end);
          r := PutBack(entry, start, end, Below(rs, start));
          if r.Ok? {
            freeSize := freeSize + size;
          }
          assert r.Ok? ==> r.value == ();
          FreeDoneClear(rs, start, size, r, Ranges());
      }
    }

    /** Gives memory back, starting the first entry when nothing is free. */
    method Free(start: nat, size: nat) returns (r: Result<(), MemoryError>)
      requires Valid()
      requires size == 0 ==> freeSize > 0  // otherwise the range of the first entry would be inverted
      requires size > 0 ==> start + size < WORD
      requires size > 0 ==> Contains(Ranges(), start, start + size - 1) || Freeable(Ranges(), start, start + size - 1)
      modifies this, pool, freeList
      ensures Valid()
      ensures r.Err? ==> unchanged(this) && unchanged(pool) && unchanged(freeList)
      ensures FreeDone(old(Ranges()), start, size, r, Ranges())
    {
      hide ListsValid, Chained, Coalesced, Ranges, Freeable, FreeDone, Contains;
      RangesCoalesced();
      CoalescedTotal(Ranges());
      if freeSize == 0 {
        FirstPart(Ranges(), start, size);
        r := FreeFirst(start, size);
      } else {
        r := DefineFreeMemory(start, size);
      }
    }

    /** The first range ever freed, or the first after everything was taken. */
    method FreeFirst(start: nat, size: nat) returns (r: Result<(), MemoryError>)
      requires Valid() && Ranges() == [] && size > 0 && start + size < WORD
      modifies this, pool, freeList
      ensures Valid() && r == Ok(()) && Ranges() == [Range(start, start + size - 1)]
    {
      hide Family, Filed, PageOrder, Coalesced, Dll, Spliced;
      ghost var p := pool[..];
      PoolFull(p, firstEntry, chain);
      var created := CreateMemoryEntry();
      assert created.Ok?;
      var n := created.value;
      Put(n, pool[n].(start := start, end := start + size - 1));
      SpliceFirst(p, pool[..], firstEntry, chain, n);
      SplicedLists(p, pool[..], None, None, n, freeList[..], lists, {});
      assert {} + {n} == {n};
      firstEntry := Some(n);
      chain := [n];
      FileNew(n);
      freeSize := size;
      assert Total([Range(start, start + size - 1)]) == size;
      r := Ok(());
    }

    // -------------------------------------------------------------- public operations

    method Allocate(size: nat, alignOrder: nat) returns (r: Result<nat, MemoryError>, ghost i: nat)
      requires Valid() && alignOrder < 64
      modifies this, pool, freeList
      ensures Valid()
      ensures r.Err? ==> unchanged(this) && unchanged(pool) && unchanged(freeList)
      ensures size == 0 ==> r == Err(InvalidRequest)
      ensures size > 0 ==> AllocationOutcome(old(Ranges()), size, alignOrder, WORD - 1, i, r)
      ensures r.Ok? ==> Ranges() == Carve(old(Ranges()), i, r.value, r.value + size - 1)
      ensures r.Ok? && alignOrder == 0 ==> SmallestFit(old(Ranges()), i, size)
    {
      r, i := AllocateWithAddressLimit(size, alignOrder, WORD - 1);
    }

    /** The block lies below the limit, except that limit 0 behaves as limit 1. */
    method AllocateBelow(size: nat, alignOrder: nat, limit: nat) returns (r: Result<nat, MemoryError>, ghost i: nat)
      requires Valid() && alignOrder < 64
      modifies this, pool, freeList
      ensures Valid()
      ensures r.Err? ==> unchanged(this) && unchanged(pool) && unchanged(freeList)
      ensures size == 0 ==> r == Err(InvalidRequest)
      ensures size > 0 ==> AllocationOutcome(old(Ranges()), size, alignOrder, limit, i, r)
      ensures r.Ok? ==> Ranges() == Carve(old(Ranges()), i, r.value, r.value + size - 1)
      ensures r.Ok? ==> (r.value + size <= limit <==> limit > 0)
    {
      r, i := AllocateWithAddressLimit(size, alignOrder, limit);
    }

    /** Takes an explicit range out of the free range that holds its (aligned) start, clipped to it. */
    method ReserveMemory(start: nat, size: nat, alignOrder: nat) returns (r: Result<(), MemoryError>, ghost i: nat)
      requires Valid() && start < WORD && alignOrder < 64
      requires size > 0 ==> RoundUp(start + size, Pow2(alignOrder)) < WORD
      modifies this, pool, freeList
      ensures Valid()
      ensures r.Err? ==> unchanged(this) && unchanged(pool) && unchanged(freeList)
      ensures size == 0 ==> r == Err(InvalidRequest)
      ensures size > 0 ==>
        var (a, n) := AlignAddressAndSize(start, size, alignOrder);
        var rs := old(Ranges());
        && (Total(rs) >= n && Covers(rs, a) ==> Inside(rs, i, a, a))
        && r == UseOutcome(rs, i, a, n)
        && (r.Ok? ==> Ranges() == Carve(rs, i, a, ClippedEnd(rs[i], a, n)))
    {
      r, i := DefineUsedMemory(start, size, alignOrder, None, 0);
    }
  }
}
