/**
  The allocator's data: pool entries, the two link structures threaded through
  them, and the invariant that ties every index to the same set of free ranges.
 */
module AllocatorState {
  import opened Common
  import opened FreeRanges
  import opened IntrusiveList
  import opened Alignment

  const POOL_SIZE: nat := 64
  const NUM_OF_FREE_LIST: nat := 12
  const PAGE_SHIFT: nat := 12

  datatype MemoryError = NoEntry | InvalidEntry | NoMemory | InvalidRequest

  /** One pool slot; `end` is inclusive. */
  datatype Entry = Entry(chain: Links, list: Links, start: nat, end: nat, enabled: bool, id: nat)

  const NEW_ENTRY := Entry(UNLINKED, UNLINKED, 0, 0, false, 0)

  function SizeOf(e: Entry): int { e.end - e.start + 1 }

  // ---------------------------------------------------------------- size classes

  function OrderFrom(size: int, order: nat): (r: nat)
    requires order < NUM_OF_FREE_LIST
    ensures order <= r < NUM_OF_FREE_LIST
    decreases NUM_OF_FREE_LIST - order
  {
    if order == NUM_OF_FREE_LIST - 1 || size <= Pow2(order + PAGE_SHIFT) then order
    else OrderFrom(size, order + 1)
  }

  /** The size class of a block: the first one whose page-power bound holds it, or the last. */
  function PageOrder(size: int): (r: nat)
    ensures r < NUM_OF_FREE_LIST
  {
    OrderFrom(size, 0)
  }

  /** A bigger block never has a smaller class. */
  lemma PageOrderMonotone(s: int, t: int)
    requires s <= t
    ensures PageOrder(s) <= PageOrder(t)
  {
  }

  /** A smaller class means a smaller block. */
  lemma PageOrderSeparates(s: int, t: int)
    requires PageOrder(s) < PageOrder(t)
    ensures s < t
  {
  }

  // ---------------------------------------------------------------- projections of the pool

  ghost function ChainLinks(p: seq<Entry>): (m: seq<Links>)
    ensures |m| == |p| && forall i :: 0 <= i < |p| ==> m[i] == p[i].chain
  {
    seq(|p|, i requires 0 <= i < |p| => p[i].chain)
  }

  ghost function ListLinks(p: seq<Entry>): (m: seq<Links>)
    ensures |m| == |p| && forall i :: 0 <= i < |p| ==> m[i] == p[i].list
  {
    seq(|p|, i requires 0 <= i < |p| => p[i].list)
  }

  ghost function RangesOf(p: seq<Entry>, chain: seq<nat>): (rs: seq<Range>)
    requires Bounded(chain, |p|)
    ensures |rs| == |chain|
    ensures forall i :: 0 <= i < |chain| ==> rs[i] == Range(p[chain[i]].start, p[chain[i]].end)
  {
    seq(|chain|, i requires 0 <= i < |chain| => Range(p[chain[i]].start, p[chain[i]].end))
  }

  /** `q` is `p` up to free-list links. */
  ghost predicate SameCore(p: seq<Entry>, q: seq<Entry>) {
    |q| == |p| && forall i :: 0 <= i < |p| ==> q[i] == p[i].(list := q[i].list)
  }

  // ---------------------------------------------------------------- the invariant

  /**
    The enabled slots are exactly the address chain, which is well linked and whose
    ranges are sorted, disjoint and fully coalesced.
   */
  ghost predicate Chained(p: seq<Entry>, first: Option<nat>, chain: seq<nat>) {
    && |p| == POOL_SIZE
    && Dll(ChainLinks(p), first, chain)
    && (forall x: nat :: x < POOL_SIZE ==> (p[x].enabled <==> x in chain))
    && (forall x: nat :: x < POOL_SIZE && p[x].enabled ==> p[x].id == x && p[x].start <= p[x].end < WORD - 1)
    && Coalesced(RangesOf(p, chain))
  }

  /** Enabled slots know their own number and hold a proper range. */
  ghost predicate IdsOk(p: seq<Entry>) {
    forall x: nat :: x < |p| && p[x].enabled ==> p[x].id == x && p[x].start <= p[x].end
  }

  ghost predicate Sorted(p: seq<Entry>, l: seq<nat>, dirty: set<nat>) {
    forall i, j :: 0 <= i < j < |l| && l[i] < |p| && l[j] < |p| && l[i] !in dirty && l[j] !in dirty
      ==> SizeOf(p[l[i]]) <= SizeOf(p[l[j]])
  }

  ghost predicate InClass(p: seq<Entry>, o: nat, x: nat, dirty: set<nat>) {
    x < |p| && p[x].enabled && (x !in dirty ==> PageOrder(SizeOf(p[x])) == o)
  }

  /** One free list: enabled entries of class `o` in ascending order of size, setting `dirty` aside. */
  ghost predicate ListFiled(p: seq<Entry>, o: nat, l: seq<nat>, dirty: set<nat>) {
    && (forall x :: x in l ==> InClass(p, o, x, dirty))
    && Sorted(p, l, dirty)
  }

  /** Every enabled entry outside `dirty` is on the free list of its own size class. */
  ghost predicate Complete(p: seq<Entry>, lists: seq<seq<nat>>, dirty: set<nat>)
    requires |lists| == NUM_OF_FREE_LIST
  {
    forall x: nat :: x < |p| && p[x].enabled && x !in dirty ==> x in lists[PageOrder(SizeOf(p[x]))]
  }

  ghost predicate Filed(p: seq<Entry>, lists: seq<seq<nat>>, dirty: set<nat>) {
    && |lists| == NUM_OF_FREE_LIST
    && (forall o :: 0 <= o < |lists| ==> ListFiled(p, o, lists[o], dirty))
    && Complete(p, lists, dirty)
  }

  lemma SameCoreChained(p: seq<Entry>, q: seq<Entry>, first: Option<nat>, chain: seq<nat>)
    requires Chained(p, first, chain) && SameCore(p, q)
    ensures Chained(q, first, chain)
    ensures RangesOf(q, chain) == RangesOf(p, chain)
  {
    assert ChainLinks(q) == ChainLinks(p);
    assert RangesOf(q, chain) == RangesOf(p, chain);
  }

  /** Two pools agree on which entries are enabled and, outside `dirty`, on their ranges. */
  ghost predicate AgreeExcept(p: seq<Entry>, q: seq<Entry>, dirty: set<nat>) {
    |q| == |p| && forall x: nat :: x < |p| ==>
      q[x].enabled == p[x].enabled && (x !in dirty ==> SizeOf(q[x]) == SizeOf(p[x]))
  }

  /** Changing the ranges of some entries leaves those to be refiled, and nothing else. */
  lemma FiledFrame(p: seq<Entry>, q: seq<Entry>, lists: seq<seq<nat>>, dirty: set<nat>, dirty': set<nat>)
    requires Filed(p, lists, dirty) && AgreeExcept(p, q, dirty') && dirty <= dirty'
    ensures Filed(q, lists, dirty')
  {
  }

  lemma FiledUnlink(p: seq<Entry>, lists: seq<seq<nat>>, o: nat, k: nat, dirty: set<nat>)
    requires Filed(p, lists, dirty)
    requires o < |lists| && k < |lists[o]| && lists[o][k] in dirty && Distinct(lists[o])
    ensures Filed(p, lists[o := RemoveAt(lists[o], k)], dirty)
  {
  }

  /** `k` is where an ascending scan of `l` stops for a block of `size` bytes. */
  ghost predicate ScanStops(p: seq<Entry>, l: seq<nat>, k: nat, size: int) {
    && k <= |l|
    && (forall j :: 0 <= j < k && l[j] < |p| ==> SizeOf(p[l[j]]) < size)
    && (k < |l| && l[k] < |p| ==> SizeOf(p[l[k]]) >= size)
  }

  /** `id` is the only one of `dirty` that may be on a list. */
  ghost predicate OnlyDirty(lists: seq<seq<nat>>, dirty: set<nat>, id: nat) {
    forall d :: d in dirty && d != id ==> Nowhere(lists, d)
  }

  /** What is left to file after `id`: filing past a dirty entry does not count. */
  ghost function Cleaned(lists: seq<seq<nat>>, dirty: set<nat>, id: nat): set<nat> {
    if OnlyDirty(lists, dirty, id) then dirty - {id} else dirty
  }

  lemma SortedInsert(p: seq<Entry>, l: seq<nat>, k: nat, id: nat, dirty: set<nat>, dirty': set<nat>)
    requires id < |p| && id in dirty && id !in l && Bounded(l, |p|)
    requires Sorted(p, l, dirty) && ScanStops(p, l, k, SizeOf(p[id]))
    requires dirty' == dirty || (dirty' == dirty - {id} && forall x :: x in l ==> x !in dirty)
    ensures Sorted(p, InsertAt(l, k, id), dirty')
  {
  }

  lemma ListFiledInsert(p: seq<Entry>, o: nat, l: seq<nat>, k: nat, id: nat, dirty: set<nat>, dirty': set<nat>)
    requires id < |p| && p[id].enabled && id in dirty && id !in l && Distinct(l) && Bounded(l, |p|)
    requires o == PageOrder(SizeOf(p[id])) && ListFiled(p, o, l, dirty) && ScanStops(p, l, k, SizeOf(p[id]))
    requires dirty' == dirty || (dirty' == dirty - {id} && forall x :: x in l ==> x !in dirty)
    ensures ListFiled(p, o, InsertAt(l, k, id), dirty')
  {
    hide PageOrder;
    SortedInsert(p, l, k, id, dirty, dirty');
    DistinctInsert(l, k, id);
    forall x | x in InsertAt(l, k, id)
      ensures InClass(p, o, x, dirty')
    {
      assert x != id ==> InClass(p, o, x, dirty);
    }
  }

  lemma ListFiledShrink(p: seq<Entry>, o: nat, l: seq<nat>, id: nat, dirty: set<nat>)
    requires ListFiled(p, o, l, dirty) && id !in l
    ensures ListFiled(p, o, l, dirty - {id})
  {
  }

  lemma FiledLink(p: seq<Entry>, lists: seq<seq<nat>>, o: nat, k: nat, id: nat, dirty: set<nat>)
    requires Filed(p, lists, dirty)
    requires id < |p| && p[id].enabled && id in dirty && Nowhere(lists, id)
    requires forall o :: 0 <= o < |lists| ==> Distinct(lists[o]) && Bounded(lists[o], |p|)
    requires o == PageOrder(SizeOf(p[id])) && ScanStops(p, lists[o], k, SizeOf(p[id]))
    ensures Filed(p, lists[o := InsertAt(lists[o], k, id)], Cleaned(lists, dirty, id))
  {
    hide PageOrder;
    var lists' := lists[o := InsertAt(lists[o], k, id)];
    var dirty' := Cleaned(lists, dirty, id);
    DistinctInsert(lists[o], k, id);
    forall o' | 0 <= o' < |lists'|
      ensures ListFiled(p, o', lists'[o'], dirty')
    {
      assert ListFiled(p, o', lists[o'], dirty);
      if o' == o {
        ListFiledInsert(p, o, lists[o], k, id, dirty, dirty');
      } else if OnlyDirty(lists, dirty, id) {
        ListFiledShrink(p, o', lists[o'], id, dirty);
      }
    }
  }

  /** Free lists `a` and `b` agree on every member but `id`. */
  ghost predicate SameMembers(a: seq<seq<nat>>, b: seq<seq<nat>>, id: nat) {
    |a| == |b| && forall o, x :: 0 <= o < |a| && x != id ==> (x in a[o] <==> x in b[o])
  }

  /** Slots on no list, other than `id`, keep their free-list links. */
  ghost predicate UnfiledKeep(p: seq<Entry>, q: seq<Entry>, lists: seq<seq<nat>>, id: nat) {
    |q| == |p| && forall x: nat :: x < |p| && x != id && Nowhere(lists, x) ==> q[x].list == p[x].list
  }

  /** Linking `id` in where the scan stopped files it. */
  lemma FileStep(p: seq<Entry>, q: seq<Entry>, heads: seq<Option<nat>>, lists: seq<seq<nat>>, o: nat, k: nat, id: nat,
                 dirty: set<nat>)
    requires Family(ListLinks(p), heads, lists) && Filed(p, lists, dirty)
    requires id < |p| && p[id].enabled && id in dirty && Nowhere(lists, id)
    requires o == PageOrder(SizeOf(p[id])) && ScanStops(p, lists[o], k, SizeOf(p[id]))
    requires SameCore(p, q)
    requires ListLinks(q) == LinkBetween(ListLinks(p), Before(lists[o], k), After(lists[o], k), id)
    ensures var lists' := lists[o := InsertAt(lists[o], k, id)];
      && Family(ListLinks(q), if k == 0 then heads[o := Some(id)] else heads, lists')
      && Filed(q, lists', Cleaned(lists, dirty, id))
      && id in lists'[o]
      && SameMembers(lists', lists, id)
      && UnfiledKeep(p, q, lists, id)
  {
    assert o < |lists|;
    hide PageOrder, Filed, UnfiledKeep, SameMembers, Cleaned;
    LinkFamily(ListLinks(p), heads, lists, o, k, id);
    assert forall o :: 0 <= o < |lists| ==> Dll(ListLinks(p), heads[o], lists[o]);
    FiledLink(p, lists, o, k, id, dirty);
    DistinctInsert(lists[o], k, id);
    InsertMembers(lists, o, k, id);
    var dirty' := Cleaned(lists, dirty, id);
    FiledFrame(p, q, lists[o := InsertAt(lists[o], k, id)], dirty', dirty');
    LinkKeeps(p, q, lists, o, k, id);
  }

  lemma InsertMembers(lists: seq<seq<nat>>, o: nat, k: nat, id: nat)
    requires o < |lists| && k <= |lists[o]|
    ensures SameMembers(lists[o := InsertAt(lists[o], k, id)], lists, id)
  {
  }

  lemma LinkKeeps(p: seq<Entry>, q: seq<Entry>, lists: seq<seq<nat>>, o: nat, k: nat, id: nat)
    requires o < |lists| && k <= |lists[o]| && id < |p| == |q| && Bounded(lists[o], |p|)
    requires ListLinks(q) == LinkBetween(ListLinks(p), Before(lists[o], k), After(lists[o], k), id)
    ensures UnfiledKeep(p, q, lists, id)
  {
    forall x: nat | x < |p| && x != id && Nowhere(lists, x)
      ensures q[x].list == p[x].list
    {
      LinkElsewhere(ListLinks(p), lists[o], k, id, x);
      assert ListLinks(q)[x] == ListLinks(p)[x];
    }
  }

  lemma CleanedLast(lists: seq<seq<nat>>, id: nat)
    ensures Cleaned(lists, {id}, id) == {}
  {
  }

  lemma CleanedPair(lists: seq<seq<nat>>, id: nat, n: nat)
    requires id != n && Nowhere(lists, n)
    ensures Cleaned(lists, {id, n}, id) == {n}
  {
  }

  /** Unlinking `id` takes it off its list and touches no other membership. */
  lemma UnfileStep(p: seq<Entry>, q: seq<Entry>, heads: seq<Option<nat>>, lists: seq<seq<nat>>, o: nat, k: nat,
                   dirty: set<nat>)
    requires Family(ListLinks(p), heads, lists) && Filed(p, lists, dirty)
    requires o < |lists| && k < |lists[o]| && lists[o][k] in dirty && lists[o][k] < |p|
    requires SameCore(p, q) && ListLinks(q) == Unlink(ListLinks(p), lists[o][k])
    ensures var id := lists[o][k];
      var lists' := lists[o := RemoveAt(lists[o], k)];
      && Family(ListLinks(q), if heads[o] == Some(id) then heads[o := p[id].list.next] else heads, lists')
      && Filed(q, lists', dirty)
      && Nowhere(lists', id) && q[id].list == UNLINKED
      && SameMembers(lists', lists, id)
      && UnfiledKeep(p, q, lists, id)
  {
    hide PageOrder, Filed;
    UnlinkFamily(ListLinks(p), heads, lists, o, k);
    assert Dll(ListLinks(p), heads[o], lists[o]);
    FiledUnlink(p, lists, o, k, dirty);
    DistinctRemove(lists[o], k);
    FiledFrame(p, q, lists[o := RemoveAt(lists[o], k)], dirty, dirty);
    assert ListLinks(q)[lists[o][k]] == UNLINKED;
    assert NodeOk(ListLinks(p), lists[o], k);
    forall x: nat | x < |p| && x != lists[o][k] && Nowhere(lists, x)
      ensures q[x].list == p[x].list
    {
      UnlinkElsewhere(ListLinks(p), lists[o], k, x);
      assert ListLinks(q)[x] == ListLinks(p)[x];
    }
  }

  /** The free-list neighbours of an entry are other slots. */
  lemma ListNeighboursOk(p: seq<Entry>, heads: seq<Option<nat>>, lists: seq<seq<nat>>, o: nat, k: nat)
    requires Family(ListLinks(p), heads, lists) && o < |lists| && k < |lists[o]| && lists[o][k] < |p|
    ensures var l := p[lists[o][k]].list;
      l.prev != Some(lists[o][k]) && l.next != Some(lists[o][k]) && (l.prev.Some? ==> l.prev != l.next)
  {
    assert Dll(ListLinks(p), heads[o], lists[o]);
    assert NodeOk(ListLinks(p), lists[o], k);
  }

  // ---------------------------------------------------------------- changes to the address chain

  /** Resizing the `i`th entry of the chain in place. */
  lemma ChainResize(p: seq<Entry>, first: Option<nat>, chain: seq<nat>, i: nat, a: nat, b: nat)
    requires Chained(p, first, chain) && i < |chain| && a <= b < WORD - 1
    requires Coalesced(RangesOf(p, chain)[i := Range(a, b)])
    ensures chain[i] < |p|
    ensures var q := p[chain[i] := p[chain[i]].(start := a, end := b)];
      && Chained(q, first, chain)
      && RangesOf(q, chain) == RangesOf(p, chain)[i := Range(a, b)]
      && ListLinks(q) == ListLinks(p)
  {
    var q := p[chain[i] := p[chain[i]].(start := a, end := b)];
    assert ChainLinks(q) == ChainLinks(p);
    assert RangesOf(q, chain) == RangesOf(p, chain)[i := Range(a, b)];
  }

  /** `q` is `p` with slot `id` rewritten and chain links changed elsewhere. */
  ghost predicate SameOutside(p: seq<Entry>, q: seq<Entry>, id: nat) {
    |q| == |p| && forall x: nat :: x < |p| && x != id ==> q[x] == p[x].(chain := q[x].chain)
  }

  lemma ChainDelete(p: seq<Entry>, q: seq<Entry>, first: Option<nat>, chain: seq<nat>, i: nat)
    requires Chained(p, first, chain) && i < |chain| && chain[i] < |p|
    requires SameOutside(p, q, chain[i]) && !q[chain[i]].enabled
    requires ChainLinks(q) == Unlink(ChainLinks(p), chain[i])
    ensures Bounded(RemoveAt(chain, i), |q|)
    ensures RangesOf(q, RemoveAt(chain, i)) == RangesOf(p, chain)[..i] + RangesOf(p, chain)[i + 1..]
    ensures Chained(q, if first == Some(chain[i]) then p[chain[i]].chain.next else first, RemoveAt(chain, i))
  {
    var r := RemoveAt(chain, i);
    UnlinkDll(ChainLinks(p), first, chain, i);
    DistinctRemove(chain, i);
    var rs := RangesOf(p, chain);
    forall j | 0 <= j < |r|
      ensures RangesOf(q, r)[j] == (rs[..i] + rs[i + 1..])[j]
    {
      assert r[j] == chain[if j < i then j else j + 1];
      assert r[j] in r;
    }
    assert RangesOf(q, r) == rs[..i] + rs[i + 1..];
    SpliceOut(rs, i);
  }

  lemma SpliceOut(rs: seq<Range>, i: nat)
    requires Coalesced(rs) && i < |rs|
    ensures Coalesced(rs[..i] + rs[i + 1..])
  {
  }

  lemma RangesInsert(p: seq<Entry>, q: seq<Entry>, chain: seq<nat>, k: nat, id: nat)
    requires Bounded(chain, |p|) && k <= |chain| && id < |p| && id !in chain && SameOutside(p, q, id)
    ensures Bounded(InsertAt(chain, k, id), |q|)
    ensures RangesOf(q, InsertAt(chain, k, id))
         == RangesOf(p, chain)[..k] + [Range(q[id].start, q[id].end)] + RangesOf(p, chain)[k..]
  {
  }

  lemma ChainInsert(p: seq<Entry>, q: seq<Entry>, first: Option<nat>, chain: seq<nat>, k: nat, id: nat)
    requires Chained(p, first, chain) && k <= |chain| && id < POOL_SIZE && !p[id].enabled
    requires SameOutside(p, q, id) && q[id].enabled && q[id].id == id && q[id].start <= q[id].end < WORD - 1
    requires ChainLinks(q) == LinkBetween(ChainLinks(p), Before(chain, k), After(chain, k), id)
    requires Coalesced(RangesOf(p, chain)[..k] + [Range(q[id].start, q[id].end)] + RangesOf(p, chain)[k..])
    ensures Bounded(InsertAt(chain, k, id), |q|)
    ensures RangesOf(q, InsertAt(chain, k, id))
         == RangesOf(p, chain)[..k] + [Range(q[id].start, q[id].end)] + RangesOf(p, chain)[k..]
    ensures Chained(q, if k == 0 then Some(id) else first, InsertAt(chain, k, id))
  {
    hide Coalesced, InsertAt, LinkBetween;
    LinkDll(ChainLinks(p), first, chain, k, id);
    RangesInsert(p, q, chain, k, id);
    EnabledInsert(p, q, chain, k, id);
  }

  lemma EnabledInsert(p: seq<Entry>, q: seq<Entry>, chain: seq<nat>, k: nat, id: nat)
    requires Distinct(chain) && k <= |chain| && id < |p| && id !in chain && SameOutside(p, q, id) && q[id].enabled
    requires forall x: nat :: x < |p| ==> (p[x].enabled <==> x in chain)
    ensures forall x: nat :: x < |p| ==> (q[x].enabled <==> x in InsertAt(chain, k, id))
  {
  }

  // ---------------------------------------------------------------- enabling and disabling slots

  /** `q` is `p` except for slot `id`, as far as the free lists can tell. */
  ghost predicate SameElsewhere(p: seq<Entry>, q: seq<Entry>, id: nat) {
    |q| == |p| && forall x: nat :: x < |p| && x != id ==>
      q[x].enabled == p[x].enabled && SizeOf(q[x]) == SizeOf(p[x]) && q[x].list == p[x].list
  }

  lemma FamilyFrame(p: seq<Entry>, q: seq<Entry>, heads: seq<Option<nat>>, lists: seq<seq<nat>>, id: nat)
    requires Family(ListLinks(p), heads, lists) && Nowhere(lists, id)
    requires |q| == |p| && forall x: nat :: x < |p| && x != id ==> q[x].list == p[x].list
    ensures Family(ListLinks(q), heads, lists)
  {
    forall o | 0 <= o < |lists|
      ensures Dll(ListLinks(q), heads[o], lists[o])
    {
      DllFrame(ListLinks(p), ListLinks(q), heads[o], lists[o]);
    }
  }

  lemma SameCoreSelf(p: seq<Entry>)
    ensures SameCore(p, p)
  {
  }

  lemma FiledDisable(p: seq<Entry>, q: seq<Entry>, lists: seq<seq<nat>>, id: nat, dirty: set<nat>)
    requires Filed(p, lists, dirty) && SameElsewhere(p, q, id) && id < |p| && Nowhere(lists, id) && !q[id].enabled
    ensures Filed(q, lists, dirty - {id})
  {
  }

  lemma FiledEnable(p: seq<Entry>, q: seq<Entry>, lists: seq<seq<nat>>, id: nat, dirty: set<nat>)
    requires Filed(p, lists, dirty) && SameElsewhere(p, q, id) && id < |p| && !p[id].enabled && q[id].enabled
    ensures Filed(q, lists, dirty + {id}) && Nowhere(lists, id)
  {
  }

  /** An enabled entry is on the list of its class. */
  lemma EntryFiled(p: seq<Entry>, lists: seq<seq<nat>>, id: nat)
    requires Filed(p, lists, {}) && id < |p| && p[id].enabled
    ensures id in lists[PageOrder(SizeOf(p[id]))]
  {
  }

  /** The chain neighbours of an entry are other, enabled slots that know their own number. */
  lemma NeighboursOk(p: seq<Entry>, first: Option<nat>, chain: seq<nat>, i: nat)
    requires Chained(p, first, chain) && i < |chain|
    ensures chain[i] < POOL_SIZE
    ensures var l := p[chain[i]].chain;
      && l.prev != Some(chain[i]) && l.next != Some(chain[i]) && (l.prev.Some? ==> l.prev != l.next)
      && (l.prev.Some? ==> l.prev.value < POOL_SIZE && p[l.prev.value].id == l.prev.value)
      && (l.next.Some? ==> l.next.value < POOL_SIZE && p[l.next.value].id == l.next.value)
  {
    assert NodeOk(ChainLinks(p), chain, i);
    assert forall j :: 0 <= j < |chain| ==> chain[j] in chain;
  }

  // ---------------------------------------------------------------- carving and inserting, entry by entry

  /** Where a request of `size` bytes at `start` ends once clipped to the range that holds its start. */
  ghost function ClippedEnd(r: Range, start: nat, size: nat): nat
    requires size > 0
  {
    if r.end < start + size - 1 then r.end else start + size - 1
  }

  /** The request leaves free bytes on both sides. */
  ghost predicate Splits(r: Range, start: nat, size: nat) {
    r.start < start && start + size - 1 < r.end
  }

  lemma NotCoveredBefore(rs: seq<Range>, i: nat, x: nat)
    requires Coalesced(rs) && i < |rs| && x < rs[i].start
    requires forall j :: 0 <= j < i ==> rs[j].end < x
    ensures !Covers(rs, x)
  {
  }

  lemma CarveShapes(rs: seq<Range>, i: nat, a: nat, b: nat)
    requires Inside(rs, i, a, b)
    ensures rs[i].start == a && b == rs[i].end ==> Carve(rs, i, a, b) == rs[..i] + rs[i + 1..]
    ensures rs[i].start == a && b < rs[i].end ==> Carve(rs, i, a, b) == rs[i := Range(b + 1, rs[i].end)]
    ensures rs[i].start < a && b == rs[i].end ==> Carve(rs, i, a, b) == rs[i := Range(rs[i].start, a - 1)]
    ensures rs[i].start < a && b < rs[i].end ==>
      Carve(rs, i, a, b) == rs[i := Range(rs[i].start, a - 1)][..i + 1] + [Range(b + 1, rs[i].end)]
                            + rs[i := Range(rs[i].start, a - 1)][i + 1..]
  {
  }

  /** `q` is `p` with slot `n` brought into use between chain neighbours `prev` and `next`. */
  ghost predicate Spliced(p: seq<Entry>, q: seq<Entry>, prev: Option<nat>, next: Option<nat>, n: nat) {
    && |q| == |p| && n < |p|
    && (prev.Some? ==> prev.value < |p| && prev.value != n && prev != next)
    && (next.Some? ==> next.value < |p| && next.value != n)
    && q[n].enabled && q[n].id == n && q[n].list == UNLINKED && q[n].chain == Links(prev, next)
    && (forall x: nat :: x < |p| && x != n ==>
          q[x] == p[x].(chain := Links(if next == Some(x) then Some(n) else p[x].chain.prev,
                                       if prev == Some(x) then Some(n) else p[x].chain.next)))
  }

  lemma SplicedLinks(p: seq<Entry>, q: seq<Entry>, prev: Option<nat>, next: Option<nat>, n: nat)
    requires Spliced(p, q, prev, next, n)
    ensures ChainLinks(q) == LinkBetween(ChainLinks(p), prev, next, n)
  {
  }

  lemma SplicedLists(p: seq<Entry>, q: seq<Entry>, prev: Option<nat>, next: Option<nat>, n: nat,
                     heads: seq<Option<nat>>, lists: seq<seq<nat>>, dirty: set<nat>)
    requires Spliced(p, q, prev, next, n) && !p[n].enabled
    requires Family(ListLinks(p), heads, lists) && Filed(p, lists, dirty)
    ensures Family(ListLinks(q), heads, lists) && Filed(q, lists, dirty + {n}) && Nowhere(lists, n)
  {
    hide Family, Filed, PageOrder;
    FiledEnable(p, q, lists, n, dirty);
    FamilyFrame(p, q, heads, lists, n);
  }

  /** The pool has no unused slot exactly when there are as many free ranges as slots. */
  lemma PoolFull(p: seq<Entry>, first: Option<nat>, chain: seq<nat>)
    requires Chained(p, first, chain)
    ensures |chain| <= POOL_SIZE
    ensures |chain| == POOL_SIZE <==> forall x :: 0 <= x < POOL_SIZE ==> p[x].enabled
  {
    FullPool(chain, POOL_SIZE);
  }

  /** What chain links say about the place after the `i`th entry. */
  lemma ChainPlace(p: seq<Entry>, first: Option<nat>, chain: seq<nat>, i: nat)
    requires Chained(p, first, chain) && i < |chain|
    ensures Bounded(chain, POOL_SIZE) && chain[i] < POOL_SIZE && p[chain[i]].enabled
    ensures p[chain[i]].chain.next == After(chain, i + 1) && Before(chain, i + 1) == Some(chain[i])
    ensures p[chain[i]].chain.prev == Before(chain, i)
    ensures forall j :: 0 <= j < |chain| ==> p[chain[j]].enabled
  {
    assert NodeOk(ChainLinks(p), chain, i);
    assert forall j :: 0 <= j < |chain| ==> chain[j] in chain;
  }

  lemma SplitParts(rs: seq<Range>, i: nat, a: nat, b: nat)
    requires Coalesced(rs) && i < |rs| && rs[i].start < a <= b < rs[i].end
    ensures Coalesced(rs[i := Range(rs[i].start, a - 1)])
    ensures var us := rs[i := Range(rs[i].start, a - 1)];
      && Carve(rs, i, a, b) == us[..i + 1] + [Range(b + 1, rs[i].end)] + us[i + 1..]
      && Coalesced(us[..i + 1] + [Range(b + 1, rs[i].end)] + us[i + 1..])
  {
  }

  /** An enabled slot that is not in use by the chain entry `i` or its successor. */
  lemma FreshSlot(p: seq<Entry>, first: Option<nat>, chain: seq<nat>, i: nat, n: nat)
    requires Chained(p, first, chain) && i < |chain| && n < POOL_SIZE && |p| == POOL_SIZE && !p[n].enabled
    ensures chain[i] < POOL_SIZE && chain[i] != n && p[chain[i]].id == chain[i] && p[chain[i]].enabled
    ensures p[chain[i]].start <= p[chain[i]].end
    ensures var next := p[chain[i]].chain.next;
      next.Some? ==>
        && next.value < POOL_SIZE && next.value != n && next.value != chain[i]
        && p[next.value].id == next.value
  {
    ChainPlace(p, first, chain, i);
    NeighboursOk(p, first, chain, i);
    if p[chain[i]].chain.next.Some? { ChainPlaceNext(p, first, chain, i); }
  }

  lemma ChainPlaceNext(p: seq<Entry>, first: Option<nat>, chain: seq<nat>, i: nat)
    requires Chained(p, first, chain) && i < |chain| && chain[i] < POOL_SIZE && p[chain[i]].chain.next.Some?
    ensures i + 1 < |chain| && p[chain[i]].chain.next.value == chain[i + 1] < POOL_SIZE && p[chain[i + 1]].enabled
  {
    ChainPlace(p, first, chain, i);
  }

  /** The chain after a split around a..b. */
  lemma SplitChain(p: seq<Entry>, p': seq<Entry>, q: seq<Entry>, first: Option<nat>, chain: seq<nat>, i: nat, n: nat,
                   a: nat, b: nat)
    requires Chained(p, first, chain) && i < |chain| && n < POOL_SIZE && !p[n].enabled
    requires chain[i] < POOL_SIZE && RangesOf(p, chain)[i].start < a <= b < RangesOf(p, chain)[i].end
    requires p' == p[chain[i] := p[chain[i]].(end := a - 1)]
    requires Spliced(p', q, Some(chain[i]), p[chain[i]].chain.next, n)
    requires q[n].start == b + 1 && q[n].end == p[chain[i]].end
    ensures Bounded(InsertAt(chain, i + 1, n), |q|)
    ensures Chained(q, first, InsertAt(chain, i + 1, n))
    ensures RangesOf(q, InsertAt(chain, i + 1, n)) == Carve(RangesOf(p, chain), i, a, b)
  {
    hide Carve, Coalesced;
    var rs := RangesOf(p, chain);
    ChainPlace(p, first, chain, i);
    SplitParts(rs, i, a, b);
    ChainResize(p, first, chain, i, rs[i].start, a - 1);
    assert p' == p[chain[i] := p[chain[i]].(start := rs[i].start, end := a - 1)];
    SplicedLinks(p', q, Some(chain[i]), p[chain[i]].chain.next, n);
    SplicedOutside(p', q, Some(chain[i]), p[chain[i]].chain.next, n);
    hide Spliced;
    ChainInsert(p', q, first, chain, i + 1, n);
  }

  /** The free lists after a split: both parts wait to be filed, the new one is on no list. */
  lemma SplitLists(p: seq<Entry>, p': seq<Entry>, q: seq<Entry>, e: nat, n: nat, heads: seq<Option<nat>>,
                   lists: seq<seq<nat>>)
    requires e < |p| && n < |p| && e != n && p[e].enabled && !p[n].enabled
    requires |p'| == |p| && p' == p[e := p[e].(end := p'[e].end)]
    requires Spliced(p', q, Some(e), p[e].chain.next, n)
    requires Family(ListLinks(p), heads, lists) && Filed(p, lists, {})
    ensures Family(ListLinks(q), heads, lists) && Filed(q, lists, {e, n}) && Nowhere(lists, n)
    ensures e in lists[PageOrder(SizeOf(p[e]))] && q[e].enabled && q[n].enabled
  {
    hide Family, Filed, PageOrder;
    EntryFiled(p, lists, e);
    FiledFrame(p, p', lists, {}, {e});
    assert ListLinks(p') == ListLinks(p);
    SplicedLists(p', q, Some(e), p[e].chain.next, n, heads, lists, {e});
    assert {e} + {n} == {e, n};
  }

  lemma SplicedOutside(p: seq<Entry>, q: seq<Entry>, prev: Option<nat>, next: Option<nat>, n: nat)
    requires Spliced(p, q, prev, next, n)
    ensures SameOutside(p, q, n) && q[n].enabled && q[n].id == n
  {
  }

  // ---------------------------------------------------------------- choosing a block

  /** The exclusive upper bound a request is really held to: limit 0 is treated as limit 1. */
  function EffectiveLimit(limit: nat): nat {
    if limit == 0 then 1 else limit
  }

  /** Range `r` holds an aligned block of `size` bytes below the limit. */
  ghost predicate HoldsBlock(r: Range, size: nat, a: nat, limit: nat)
    requires a > 0
  {
    exists x: nat :: r.start <= x && x % a == 0 && x + size <= r.end + 1 && x + size <= EffectiveLimit(limit)
  }

  /** Where the scan places a block in one free entry, if it fits there. */
  function PlaceIn(r: Range, size: nat, alignOrder: nat, limit: nat): Option<nat>
    requires r.start < WORD
  {
    var bound := if limit == 0 then 0 else limit - 1;
    var end := if r.end < bound then r.end else bound;
    var available := if end >= r.start then end - r.start + 1 else 0;
    if available < size then None
    else if alignOrder == 0 then Some(r.start)
    else
      var (address, left) := AlignAddressAndAvailableSize(r.start, available, alignOrder);
      if left < size then None else Some(address)
  }

  /** The scan accepts an entry exactly when it holds a suitable block, and takes the lowest one. */
  lemma PlaceInCorrect(r: Range, size: nat, alignOrder: nat, limit: nat)
    requires r.start <= r.end < WORD - 1 && size > 0 && alignOrder < 64
    ensures PlaceIn(r, size, alignOrder, limit).Some? <==> HoldsBlock(r, size, Pow2(alignOrder), limit)
    ensures var p := PlaceIn(r, size, alignOrder, limit);
      p.Some? ==>
        && p.value == RoundUp(r.start, Pow2(alignOrder))
        && p.value + size <= r.end + 1 && p.value + size <= EffectiveLimit(limit)
  {
    var a := Pow2(alignOrder);
    var bound := if limit == 0 then 0 else limit - 1;
    var end := if r.end < bound then r.end else bound;
    var available := if end >= r.start then end - r.start + 1 else 0;
    assert end + 1 <= r.end + 1 && end + 1 <= EffectiveLimit(limit);
    assert HoldsBlock(r, size, a, limit) <==> HoldsAligned(r.start, available, a, size) by {
      if HoldsBlock(r, size, a, limit) {
        var x: nat :| r.start <= x && x % a == 0 && x + size <= r.end + 1 && x + size <= EffectiveLimit(limit);
        assert r.start <= x && x % a == 0 && x + size <= r.start + available;
      }
      if HoldsAligned(r.start, available, a, size) {
        var x: nat :| r.start <= x && x % a == 0 && x + size <= r.start + available;
        assert x + size <= r.end + 1;
      }
    }
    AvailableSizeCorrect(r.start, available, alignOrder, size);
    if alignOrder == 0 {
      assert RoundUp(r.start, 1) == r.start;
      assert available >= size ==> HoldsAligned(r.start, available, 1, size) by {
        assert r.start % 1 == 0;
      }
    }
  }

  ghost function RangeAt(p: seq<Entry>, x: nat): Range {
    if x < |p| then Range(p[x].start, p[x].end) else Range(0, 0)
  }

  lemma AlignedByOne(start: nat, size: nat)
    requires size > 0
    ensures AlignAddressAndSize(start, size, 0) == (start, size)
    ensures RoundUp(start + size, Pow2(0)) == start + size
  {
  }

  /** What taking `n` bytes at `a` must answer, `i` being the range that holds `a` if any does. */
  ghost function UseOutcome(rs: seq<Range>, i: nat, a: nat, n: nat): Result<(), MemoryError> {
    if Total(rs) < n then Err(NoMemory)
    else if !Inside(rs, i, a, a) then Err(InvalidRequest)
    else if |rs| == POOL_SIZE && Splits(rs[i], a, n) then Err(NoEntry)
    else Ok(())
  }

  /** What an allocation of `size` bytes must answer, `i` being the range it is cut from. */
  ghost predicate AllocationOutcome(rs: seq<Range>, size: nat, alignOrder: nat, limit: nat, i: nat, r: Result<nat,
                                    MemoryError>)
    requires size > 0
  {
    var a := Pow2(alignOrder);
    && (r == Err(NoMemory) <==> forall j :: 0 <= j < |rs| ==> !HoldsBlock(rs[j], size, a, limit))
    && (r.Ok? ==>
          && Inside(rs, i, r.value, r.value + size - 1)
          && r.value % a == 0 && r.value + size <= EffectiveLimit(limit)
          && r.value == RoundUp(rs[i].start, a))
    && (r.Err? && r.error != NoMemory ==>
          && r.error == NoEntry && |rs| == POOL_SIZE
          && i < |rs| && HoldsBlock(rs[i], size, a, limit) && Splits(rs[i], RoundUp(rs[i].start, a), size))
  }

  /** Range `i` is a smallest one of at least `size` bytes. */
  ghost predicate SmallestFit(rs: seq<Range>, i: nat, size: nat) {
    && i < |rs| && Size(rs[i]) >= size
    && forall j :: 0 <= j < |rs| && Size(rs[j]) >= size ==> Size(rs[i]) <= Size(rs[j])
  }

  ghost predicate NoneHolds(p: seq<Entry>, l: seq<nat>, size: nat, a: nat, limit: nat)
    requires a > 0
  {
    forall x :: x in l ==> !HoldsBlock(RangeAt(p, x), size, a, limit)
  }

  lemma NoneBigEnough(rs: seq<Range>, size: nat, a: nat, limit: nat)
    requires Coalesced(rs) && Total(rs) < size && a > 0
    ensures forall j :: 0 <= j < |rs| ==> !HoldsBlock(rs[j], size, a, limit)
  {
    forall j | 0 <= j < |rs|
      ensures !HoldsBlock(rs[j], size, a, limit)
    {
      TotalBounds(rs, j);
    }
  }

  ghost function ChainIndex(p: seq<Entry>, first: Option<nat>, chain: seq<nat>, x: nat): (i: nat)
    requires Chained(p, first, chain) && x < POOL_SIZE && p[x].enabled
    ensures i < |chain| && chain[i] == x
  {
    assert x in chain;
    var i :| 0 <= i < |chain| && chain[i] == x;
    i
  }

  /** An entry below the scanned classes is too small. */
  lemma SmallClassTooSmall(p: seq<Entry>, x: nat, size: nat, a: nat, limit: nat)
    requires x < |p| && a > 0 && p[x].start <= p[x].end && PageOrder(SizeOf(p[x])) < PageOrder(size)
    ensures !HoldsBlock(RangeAt(p, x), size, a, limit)
  {
    PageOrderSeparates(SizeOf(p[x]), size);
  }

  /** After scanning every class from the request's upward in vain, no free range holds the block. */
  lemma NoBlock(p: seq<Entry>, first: Option<nat>, chain: seq<nat>, lists: seq<seq<nat>>, pageOrder: nat,
                size: nat, alignOrder: nat, limit: nat)
    requires Chained(p, first, chain) && Filed(p, lists, {}) && pageOrder == PageOrder(size)
    requires forall o :: pageOrder <= o < NUM_OF_FREE_LIST ==> NoneHolds(p, lists[o], size, Pow2(alignOrder), limit)
    ensures forall j :: 0 <= j < |chain| ==> !HoldsBlock(RangesOf(p, chain)[j], size, Pow2(alignOrder), limit)
  {
    assert Bounded(chain, |p|);
    hide PageOrder, Coalesced, Dll;
    forall j | 0 <= j < |chain|
      ensures !HoldsBlock(RangesOf(p, chain)[j], size, Pow2(alignOrder), limit)
    {
      var x := chain[j];
      ChainPlace(p, first, chain, j);
      assert RangesOf(p, chain)[j] == RangeAt(p, x);
      if PageOrder(SizeOf(p[x])) < pageOrder {
        SmallClassTooSmall(p, x, size, Pow2(alignOrder), limit);
      } else {
        EntryFiled(p, lists, x);
        assert NoneHolds(p, lists[PageOrder(SizeOf(p[x]))], size, Pow2(alignOrder), limit);
      }
    }
  }

  /** What the first entry accepted by the scan satisfies. */
  lemma BlockFound(p: seq<Entry>, first: Option<nat>, chain: seq<nat>, lists: seq<seq<nat>>, pageOrder: nat,
                   order: nat, k: nat, i: nat, size: nat, alignOrder: nat, limit: nat, address: nat)
    requires Chained(p, first, chain) && Filed(p, lists, {}) && pageOrder == PageOrder(size) && size > 0
      && alignOrder < 64
    requires pageOrder <= order < NUM_OF_FREE_LIST && k < |lists[order]| && i < |chain| && chain[i] == lists[order][k]
    requires forall o :: pageOrder <= o < order ==> NoneHolds(p, lists[o], size, Pow2(alignOrder), limit)
    requires forall j :: 0 <= j < k ==> !HoldsBlock(RangeAt(p, lists[order][j]), size, Pow2(alignOrder), limit)
    requires lists[order][k] < |p| && p[lists[order][k]].enabled
    requires PlaceIn(RangeAt(p, lists[order][k]), size, alignOrder, limit) == Some(address)
    ensures var rs := RangesOf(p, chain);
      && Inside(rs, i, address, address + size - 1)
      && HoldsBlock(rs[i], size, Pow2(alignOrder), limit)
      && address == RoundUp(rs[i].start, Pow2(alignOrder)) && address + size <= EffectiveLimit(limit)
      && (alignOrder == 0 && limit == WORD - 1 ==> SmallestFit(rs, i, size))
  {
    var rs := RangesOf(p, chain);
    hide PageOrder, Coalesced, Dll, Filed;
    PlaceInCorrect(rs[i], size, alignOrder, limit);
    if alignOrder == 0 && limit == WORD - 1 {
      forall j | 0 <= j < |rs| && Size(rs[j]) >= size
        ensures Size(rs[i]) <= Size(rs[j])
      {
        ChainPlace(p, first, chain, j);
        EntryFiled(p, lists, chain[j]);
        FirstIsSmallest(p, lists, pageOrder, order, k, chain[j], size, limit);
      }
    }
  }

  lemma FirstIsSmallest(p: seq<Entry>, lists: seq<seq<nat>>, pageOrder: nat, order: nat, k: nat, x: nat, size: nat,
                        limit: nat)
    requires Filed(p, lists, {}) && pageOrder == PageOrder(size) && limit == WORD - 1
    requires pageOrder <= order < NUM_OF_FREE_LIST && k < |lists[order]| && lists[order][k] < |p|
    requires forall o :: pageOrder <= o < order ==> NoneHolds(p, lists[o], size, 1, limit)
    requires forall j :: 0 <= j < k ==> !HoldsBlock(RangeAt(p, lists[order][j]), size, 1, limit)
    requires x < |p| && p[x].end < WORD - 1 && SizeOf(p[x]) >= size && x in lists[PageOrder(SizeOf(p[x]))]
    ensures SizeOf(p[lists[order][k]]) <= SizeOf(p[x])
  {
    var o := PageOrder(SizeOf(p[x]));
    var e := lists[order][k];
    assert ListFiled(p, order, lists[order], {});
    assert InClass(p, order, e, {});
    PageOrderMonotone(size, SizeOf(p[x]));
    hide PageOrder;
    assert HoldsBlock(RangeAt(p, x), size, 1, limit) by {
      assert p[x].start % 1 == 0 && p[x].start + size <= p[x].end + 1;
    }
    if o > order {
      PageOrderSeparates(SizeOf(p[e]), SizeOf(p[x]));
    } else if o == order {
      var j :| 0 <= j < |lists[o]| && lists[o][j] == x;
      assert j >= k;
    }
  }

  /** What is known of a chain entry before it is unfiled and deleted, and after its unfiling. */
  lemma DeleteReady(p: seq<Entry>, q: seq<Entry>, first: Option<nat>, chain: seq<nat>, i: nat)
    requires Chained(p, first, chain) && i < |chain| && SameCore(p, q)
    ensures Chained(q, first, chain) && Bounded(chain, |p|) && RangesOf(q, chain) == RangesOf(p, chain)
    ensures chain[i] < POOL_SIZE && |p| == |q| == POOL_SIZE && q[chain[i]].chain == p[chain[i]].chain
    ensures p[chain[i]].enabled && p[chain[i]].start <= p[chain[i]].end
    ensures var l := q[chain[i]].chain;
      && l.prev != Some(chain[i]) && l.next != Some(chain[i]) && (l.prev.Some? ==> l.prev != l.next)
      && (l.prev.Some? ==> l.prev.value < POOL_SIZE && q[l.prev.value].id == l.prev.value)
      && (l.next.Some? ==> l.next.value < POOL_SIZE && q[l.next.value].id == l.next.value)
  {
    SameCoreChained(p, q, first, chain);
    NeighboursOk(q, first, chain, i);
    ChainPlace(p, first, chain, i);
  }

  /** The chain once an entry is unlinked and disabled. */
  lemma DeleteChain(p: seq<Entry>, q: seq<Entry>, first: Option<nat>, chain: seq<nat>, i: nat)
    requires Chained(p, first, chain) && i < |chain| && chain[i] < POOL_SIZE
    requires SameOutside(p, q, chain[i]) && q[chain[i]] == p[chain[i]].(chain := UNLINKED, enabled := false)
    requires ChainLinks(q) == Unlink(ChainLinks(p), chain[i])
    ensures Bounded(RemoveAt(chain, i), |q|) && Bounded(chain, |p|)
    ensures RangesOf(q, RemoveAt(chain, i)) == RangesOf(p, chain)[..i] + RangesOf(p, chain)[i + 1..]
    ensures Chained(q, if p[chain[i]].chain.prev.None? then p[chain[i]].chain.next else first, RemoveAt(chain, i))
  {
    hide Coalesced, Unlink, RemoveAt;
    ChainPlace(p, first, chain, i);
    FirstIsHead(p, first, chain);
    ChainDelete(p, q, first, chain, i);
  }

  /** The free lists once an entry on none of them is disabled. */
  lemma DeleteLists(p: seq<Entry>, q: seq<Entry>, id: nat, heads: seq<Option<nat>>, lists: seq<seq<nat>>)
    requires id < |p| && SameOutside(p, q, id) && q[id] == p[id].(chain := UNLINKED, enabled := false)
    requires Family(ListLinks(p), heads, lists) && Nowhere(lists, id) && Filed(p, lists, {id})
    ensures Family(ListLinks(q), heads, lists) && Filed(q, lists, {})
  {
    hide Family, Filed, PageOrder;
    FamilyFrame(p, q, heads, lists, id);
    FiledDisable(p, q, lists, id, {id});
    assert {id} - {id} == {};
  }

  // ---------------------------------------------------------------- freeing

  lemma CleanedBlocked(lists: seq<seq<nat>>, id: nat, d: nat, o: nat)
    requires id != d && o < |lists| && d in lists[o]
    ensures Cleaned(lists, {d, id}, id) == {d, id}
  {
  }

  lemma InsertShapes(rs: seq<Range>, p: nat, a: nat, b: nat)
    requires Fits(rs, p, a, b)
    ensures JoinsLeft(rs, p, a) && JoinsRight(rs, p, b) ==>
      Insert(rs, p, a, b) == (rs[..p] + rs[p + 1..])[p - 1 := Range(rs[p - 1].start, rs[p].end)]
    ensures JoinsLeft(rs, p, a) && !JoinsRight(rs, p, b) ==>
      Insert(rs, p, a, b) == rs[p - 1 := Range(rs[p - 1].start, b)]
    ensures !JoinsLeft(rs, p, a) && JoinsRight(rs, p, b) ==> Insert(rs, p, a, b) == rs[p := Range(a, rs[p].end)]
    ensures !JoinsLeft(rs, p, a) && !JoinsRight(rs, p, b) ==> Insert(rs, p, a, b) == rs[..p] + [Range(a, b)] + rs[p..]
  {
  }

  lemma SameMembersAt(a: seq<seq<nat>>, b: seq<seq<nat>>, id: nat, o: nat, x: nat)
    requires SameMembers(a, b, id) && o < |a| && x != id
    ensures x in a[o] <==> x in b[o]
  {
  }

  /** `q` is `p` with slot `n` disabled and unlinked from the chain, up to free-list links. */
  ghost predicate Dropped(p: seq<Entry>, q: seq<Entry>, n: nat) {
    && |q| == |p| && n < |p| && !q[n].enabled
    && (forall x: nat :: x < |p| && x != n ==>
          q[x].start == p[x].start && q[x].end == p[x].end && q[x].enabled == p[x].enabled && q[x].id == p[x].id)
    && ChainLinks(q) == Unlink(ChainLinks(p), n)
  }

  lemma DroppedAt(p: seq<Entry>, q: seq<Entry>, n: nat, x: nat)
    requires Dropped(p, q, n) && x < |p| && x != n
    ensures q[x].start == p[x].start && q[x].end == p[x].end && q[x].enabled == p[x].enabled
  {
  }

  lemma DroppedSteps(p: seq<Entry>, q: seq<Entry>, r: seq<Entry>, n: nat)
    requires SameCore(p, q) && n < |p| && SameOutside(q, r, n) && !r[n].enabled
    requires ChainLinks(r) == Unlink(ChainLinks(q), n)
    ensures Dropped(p, r, n)
  {
  }

  /** `q` is `p` up to free-list links and the ranges of two entries. */
  ghost predicate ChangedRanges(p: seq<Entry>, q: seq<Entry>, e: nat, n: nat) {
    |q| == |p| && forall x: nat :: x < |p| ==>
      && q[x].chain == p[x].chain && q[x].enabled == p[x].enabled && q[x].id == p[x].id
      && (x != e && x != n ==> q[x].start == p[x].start && q[x].end == p[x].end)
  }

  lemma MergedEnabled(p: seq<Entry>, q: seq<Entry>, e: nat, n: nat)
    requires ChangedRanges(p, q, e, n) && e < |p|
    ensures q[e].enabled == p[e].enabled
  {
  }

  lemma MergeIds(p: seq<Entry>, q: seq<Entry>, e: nat, n: nat)
    requires IdsOk(p) && ChangedRanges(p, q, e, n) && e < |p| && n < |p|
    requires q[e].start <= q[e].end && q[n].start <= q[n].end
    ensures IdsOk(q)
  {
  }

  /** What holds of two neighbours as a merge begins. */
  lemma MergeStart(p: seq<Entry>, first: Option<nat>, chain: seq<nat>, lists: seq<seq<nat>>, j: nat)
    requires Chained(p, first, chain) && Filed(p, lists, {}) && j + 1 < |chain|
    ensures var e, n := chain[j], chain[j + 1];
      && e < POOL_SIZE && n < POOL_SIZE && e != n && p[e].enabled && p[n].enabled
      && e in lists[PageOrder(SizeOf(p[e]))] && n in lists[PageOrder(SizeOf(p[n]))]
      && Filed(p, lists, {e, n}) && IdsOk(p)
  {
  }

  /** The chain once its entry number j + 1 is deleted and entry j stretched over it. */
  lemma MergeChain(p: seq<Entry>, q: seq<Entry>, first: Option<nat>, chain: seq<nat>, j: nat)
    requires Chained(p, first, chain) && j + 1 < |chain| && chain[j] < POOL_SIZE && chain[j + 1] < POOL_SIZE
      && |q| == |p|
    requires forall x: nat :: x < |p| && x != chain[j + 1] ==> q[x].enabled == p[x].enabled && q[x].id == p[x].id
    requires forall x: nat :: x < |p| && x != chain[j] && x != chain[j + 1] ==>
      q[x].start == p[x].start && q[x].end == p[x].end
    requires q[chain[j]].start == p[chain[j]].start && q[chain[j]].end == p[chain[j + 1]].end
      && !q[chain[j + 1]].enabled
    requires ChainLinks(q) == Unlink(ChainLinks(p), chain[j + 1])
    ensures var rs := RangesOf(p, chain);
      && Bounded(RemoveAt(chain, j + 1), |q|)
      && Chained(q, first, RemoveAt(chain, j + 1))
      && RangesOf(q, RemoveAt(chain, j + 1)) == (rs[..j + 1] + rs[j + 2..])[j := Range(rs[j].start, rs[j + 1].end)]
  {
    hide Coalesced, Unlink, Chained, RemoveAt, Restored;
    MergeEnds(p, first, chain, j);
    var e, n := chain[j], chain[j + 1];
    var rs := RangesOf(p, chain);
    var r := RemoveAt(chain, j + 1);
    var q0 := Restored(p, q, n);
    RestoredFacts(p, q, e, n, rs[j].start, rs[j + 1].end);
    ChainDelete(p, q0, first, chain, j + 1);
    MergeCoalesced(rs, j);
    ChainResize(q0, first, r, j, rs[j].start, rs[j + 1].end);
    SameCoreChained(q0[e := q0[e].(start := rs[j].start, end := rs[j + 1].end)], q, first, r);
  }

  lemma MergeEnds(p: seq<Entry>, first: Option<nat>, chain: seq<nat>, j: nat)
    requires Chained(p, first, chain) && j + 1 < |chain|
    ensures Bounded(chain, |p|)
    ensures var rs := RangesOf(p, chain);
      && first != Some(chain[j + 1]) && chain[j] != chain[j + 1] && RemoveAt(chain, j + 1)[j] == chain[j]
      && chain[j] < POOL_SIZE && chain[j + 1] < POOL_SIZE
      && rs[j].start == p[chain[j]].start && rs[j + 1].end == p[chain[j + 1]].end < WORD - 1
      && Coalesced(rs) && |RemoveAt(chain, j + 1)| == |chain| - 1
  {
  }

  /** `q` with the ranges and free-list links of `p` outside slot `n`. */
  ghost function Restored(p: seq<Entry>, q: seq<Entry>, n: nat): (r: seq<Entry>)
    requires |p| == |q| && n < |p|
    ensures |r| == |q|
    ensures forall x: nat :: x < |q| ==>
      r[x] == if x == n then q[n] else q[x].(start := p[x].start, end := p[x].end, list := p[x].list)
  {
    seq(|q|, x requires 0 <= x < |q| =>
      if x == n then q[n] else q[x].(start := p[x].start, end := p[x].end, list := p[x].list))
  }

  lemma RestoredFacts(p: seq<Entry>, q: seq<Entry>, e: nat, n: nat, a: nat, b: nat)
    requires |p| == |q| && n < |p| && e < |p| && e != n
    requires forall x: nat :: x < |p| && x != n ==> q[x].enabled == p[x].enabled && q[x].id == p[x].id
    requires forall x: nat :: x < |p| && x != e && x != n ==> q[x].start == p[x].start && q[x].end == p[x].end
    requires q[e].start == a && q[e].end == b
    ensures var r := Restored(p, q, n);
      && ChainLinks(r) == ChainLinks(q) && SameOutside(p, r, n) && r[n] == q[n]
      && SameCore(r[e := r[e].(start := a, end := b)], q)
  {
  }

  /** Merging, from the pool before either range changed. */
  lemma MergeDropped(p: seq<Entry>, q: seq<Entry>, r: seq<Entry>, first: Option<nat>, chain: seq<nat>, j: nat)
    requires Chained(p, first, chain) && j + 1 < |chain| && chain[j] < POOL_SIZE && chain[j + 1] < POOL_SIZE
    requires ChangedRanges(p, q, chain[j], chain[j + 1]) && Dropped(q, r, chain[j + 1])
    requires q[chain[j]].start == p[chain[j]].start && q[chain[j]].end == p[chain[j + 1]].end
    ensures var rs := RangesOf(p, chain);
      && Bounded(RemoveAt(chain, j + 1), |r|)
      && Chained(r, first, RemoveAt(chain, j + 1))
      && RangesOf(r, RemoveAt(chain, j + 1)) == (rs[..j + 1] + rs[j + 2..])[j := Range(rs[j].start, rs[j + 1].end)]
  {
    assert ChainLinks(q) == ChainLinks(p);
    assert chain[j] != chain[j + 1];
    hide Coalesced;
    MergeChain(p, r, first, chain, j);
  }

  lemma MergeCoalesced(rs: seq<Range>, j: nat)
    requires Coalesced(rs) && j + 1 < |rs|
    ensures rs[j].start <= rs[j + 1].end
    ensures Coalesced((rs[..j + 1] + rs[j + 2..])[j := Range(rs[j].start, rs[j + 1].end)])
  {
  }

  /** The chain with a new entry spliced in at place `k`. */
  lemma SpliceNew(p: seq<Entry>, q: seq<Entry>, first: Option<nat>, chain: seq<nat>, k: nat, n: nat)
    requires Chained(p, first, chain) && k <= |chain| && n < POOL_SIZE && !p[n].enabled
    requires Spliced(p, q, Before(chain, k), After(chain, k), n) && q[n].start <= q[n].end < WORD - 1
    requires Coalesced(RangesOf(p, chain)[..k] + [Range(q[n].start, q[n].end)] + RangesOf(p, chain)[k..])
    ensures Bounded(InsertAt(chain, k, n), |q|)
    ensures Chained(q, if k == 0 then Some(n) else first, InsertAt(chain, k, n))
    ensures RangesOf(q, InsertAt(chain, k, n))
         == RangesOf(p, chain)[..k] + [Range(q[n].start, q[n].end)] + RangesOf(p, chain)[k..]
    ensures q[n].enabled && q[n].list == UNLINKED
  {
    SplicedLinks(p, q, Before(chain, k), After(chain, k), n);
    SplicedOutside(p, q, Before(chain, k), After(chain, k), n);
    assert q[n].list == UNLINKED;
    hide Coalesced, Spliced, Dll;
    ChainInsert(p, q, first, chain, k, n);
  }

  /** The chain entry next to which a range with place `k` goes. */
  lemma InsertPlace(p: seq<Entry>, first: Option<nat>, chain: seq<nat>, k: nat, a: nat, b: nat)
    requires Chained(p, first, chain) && chain != [] && Fits(RangesOf(p, chain), k, a, b)
    ensures var e := chain[if k == 0 then 0 else k - 1];
      && e < POOL_SIZE && p[e].enabled && p[e].id == e
      && (b < p[e].start <==> k == 0)
      && (k == 0 ==> p[e].chain.prev.None?)
      && Before(chain, k) == (if k == 0 then None else Some(e))
      && After(chain, k) == (if k == 0 then Some(e) else p[e].chain.next)
      && (p[e].chain.next.Some? ==>
            var n := p[e].chain.next.value; n < POOL_SIZE && n != e && p[n].id == n && p[n].enabled)
  {
    var i := if k == 0 then 0 else k - 1;
    ChainPlace(p, first, chain, i);
    NeighboursOk(p, first, chain, i);
    if p[chain[i]].chain.next.Some? { ChainPlaceNext(p, first, chain, i); }
    assert RangesOf(p, chain)[i] == Range(p[chain[i]].start, p[chain[i]].end);
  }

  /** The ranges once a..b, which touches no free range, has its own entry. */
  lemma InsertAlone(rs: seq<Range>, k: nat, a: nat, b: nat)
    requires Coalesced(rs) && Fits(rs, k, a, b) && !JoinsLeft(rs, k, a) && !JoinsRight(rs, k, b)
    ensures Insert(rs, k, a, b) == rs[..k] + [Range(a, b)] + rs[k..]
    ensures Coalesced(rs[..k] + [Range(a, b)] + rs[k..]) && k <= |rs| && a <= b
  {
    InsertCoalesced(rs, k, a, b);
    InsertShapes(rs, k, a, b);
  }

  /** The chain index the search settles on before falling back to the first entry. */
  ghost function SearchIndex(rs: seq<Range>, a: nat): nat {
    var p := Below(rs, a);
    var k := if p < |rs| || p == 0 || rs[p - 1].end <= a then p else p - 1;
    if k == 0 then 0 else k - 1
  }

  /** For a range clear of the free space, the search finds its lower neighbour or the first entry. */
  lemma SearchDisjoint(rs: seq<Range>, a: nat, b: nat)
    requires Coalesced(rs) && rs != [] && a <= b && DisjointFrom(rs, a, b)
    ensures var p := Below(rs, a); var e := SearchIndex(rs, a);
      && Fits(rs, p, a, b) && e == (if p == 0 then 0 else p - 1)
      && !(rs[e].start <= a && b <= rs[e].end)
      && (rs[e].end >= a ==> p == 0)
      && rs[e].end != b
      && (e + 1 < |rs| ==> rs[e + 1].start > a)
      && (JoinsLeft(rs, p, a) <==> rs[e].end + 1 == a)
      && (JoinsRight(rs, p, b) <==> (e + 1 < |rs| && rs[e + 1].start == b + 1) || (e == 0 && rs[0].start == b + 1))
      && (p > 0 ==> rs[e].start != b + 1)
      && (p == 0 ==> rs[e].end + 1 != a && (e + 1 < |rs| ==> rs[e + 1].start != b + 1))
  {
    hide Coalesced, Below;
    BelowFits(rs, a, b);
    Neighbours(rs, SearchIndex(rs, a));
  }

  lemma Neighbours(rs: seq<Range>, i: nat)
    requires Coalesced(rs)
    ensures i < |rs| ==> rs[i].start <= rs[i].end
    ensures i + 1 < |rs| ==> rs[i].end + 1 < rs[i + 1].start
  {
  }

  /** For a range that is already free, the search finds the entry holding it or the one before. */
  lemma SearchContained(rs: seq<Range>, a: nat, b: nat)
    requires Coalesced(rs) && a <= b && Contains(rs, a, b)
    ensures var e := SearchIndex(rs, a);
      && e < |rs|
      && ((rs[e].start <= a && b <= rs[e].end)
          || (rs[e].end < a && rs[e].end != b && e + 1 < |rs| && rs[e + 1].start <= a && b <= rs[e + 1].end))
  {
  }

  /**
    a..b starts in range `i`, at its start, or inside it if it is the last; it ends beyond it
    and is otherwise clear of the free space.
   */
  ghost predicate StartsIn(rs: seq<Range>, i: nat, a: nat, b: nat) {
    && 0 < i < |rs| && rs[i].start <= a <= rs[i].end < b && (rs[i].start == a || (i == |rs| - 1 && a < rs[i].end))
    && DisjointFrom(rs, rs[i].end + 1, b)
  }

  /**
    The ranges a..b that can be freed: those clear of the free space, those that end with the
    first free range and start before it, and those that start in a free range as above.
   */
  ghost predicate Freeable(rs: seq<Range>, a: nat, b: nat) {
    || DisjointFrom(rs, a, b)
    || (rs != [] && a < rs[0].start && rs[0].end == b)
    || exists i: nat :: StartsIn(rs, i, a, b)
  }

  /** The part of a request of `size` bytes at `a` that is not free yet. */
  ghost function FreedPart(rs: seq<Range>, a: nat, size: nat): (nat, nat) {
    var e := SearchIndex(rs, a);
    if size == 0 || Contains(rs, a, a + size - 1) || DisjointFrom(rs, a, a + size - 1) then (a, size)
    else if rs != [] && a < rs[0].start then (a, rs[0].start - a)
    else if e + 1 < |rs| && rs[e + 1].end < a + size then (rs[e + 1].end + 1, a + size - 1 - rs[e + 1].end)
    else (a, size)
  }

  /**
    How a range to free lies to the free space: free already, ending with the first free range,
    starting in one, or clear of it.
   */
  datatype Spot = Taken | EndsWithFirst | StartsInNext | Clear

  /** What the entry found for start..end and its successor tell. */
  ghost function SpotOf(rs: seq<Range>, a: nat, b: nat): Spot
    requires rs != [] && SearchIndex(rs, a) < |rs|
  {
    var e := SearchIndex(rs, a);
    if rs[e].start <= a && b <= rs[e].end then Taken
    else if rs[e].end == b then EndsWithFirst
    else if e + 1 < |rs| && rs[e + 1].start <= a then if b <= rs[e + 1].end then Taken else StartsInNext
    else Clear
  }

  /** What that means for the range. */
  ghost predicate SpotMeans(rs: seq<Range>, a: nat, b: nat, e: nat, spot: Spot)
    requires e < |rs| && a <= b
  {
    var part := FreedPart(rs, a, b - a + 1);
    match spot
    case Taken => Contains(rs, a, b)
    case EndsWithFirst =>
      && e == 0 && rs[0].end == b && a < rs[0].start && DisjointFrom(rs, a, rs[0].start - 1) && !Contains(rs, a, b)
          && part == (a, rs[0].start - a)
    case StartsInNext =>
      && e + 1 < |rs| && a <= rs[e + 1].end < b && !Contains(rs, a, b) && DisjointFrom(rs, rs[e + 1].end + 1, b)
      && part == (rs[e + 1].end + 1, b - rs[e + 1].end)
    case Clear => DisjointFrom(rs, a, b) && !Contains(rs, a, b) && part == (a, b - a + 1)
  }

  /** The search finds the spot of a..b, and the branch for other overlaps is not taken. */
  ghost predicate Spotted(rs: seq<Range>, a: nat, b: nat)
    requires rs != [] && a <= b
  {
    var e := SearchIndex(rs, a);
    && e < |rs| && SpotMeans(rs, a, b, e, SpotOf(rs, a, b))
    && ((rs[e].start <= a && b <= rs[e].end) || rs[e].end < a || e == 0)
  }

  lemma TakenSpotted(rs: seq<Range>, a: nat, b: nat)
    requires Coalesced(rs) && rs != [] && a <= b && Contains(rs, a, b)
    ensures Spotted(rs, a, b)
  {
    hide Coalesced, Below, Contains, DisjointFrom, SearchIndex, FreedPart;
    SearchContained(rs, a, b);
  }

  lemma ClearSpotted(rs: seq<Range>, a: nat, b: nat)
    requires Coalesced(rs) && rs != [] && a <= b && DisjointFrom(rs, a, b)
    ensures Spotted(rs, a, b)
  {
    hide Coalesced, Below, Contains, DisjointFrom, SearchIndex, FreedPart, Fits, JoinsLeft, JoinsRight;
    SearchDisjoint(rs, a, b);
    NotBoth(rs, a, b);
    DisjointParts(rs, a, b);
    SearchIndexBound(rs, a);
  }

  lemma FirstSpotted(rs: seq<Range>, a: nat, b: nat)
    requires Coalesced(rs) && rs != [] && a < rs[0].start && rs[0].end == b
    ensures Spotted(rs, a, b)
  {
    hide Below, SearchIndex;
    BeforeFirst(rs, a);
  }

  lemma InsideSpotted(rs: seq<Range>, i: nat, a: nat, b: nat)
    requires Coalesced(rs) && rs != [] && a <= b && StartsIn(rs, i, a, b)
    ensures Spotted(rs, a, b)
  {
    hide Below, SearchIndex, Coalesced, Contains;
    SearchInside(rs, i, a, b);
  }

  /** What the search finds for a range that is free already or can be freed. */
  lemma SearchFreeable(rs: seq<Range>, a: nat, b: nat)
    requires Coalesced(rs) && rs != [] && a <= b && (Contains(rs, a, b) || Freeable(rs, a, b))
    ensures Spotted(rs, a, b)
  {
    hide Spotted, Coalesced, Contains, DisjointFrom, StartsIn;
    if Contains(rs, a, b) {
      TakenSpotted(rs, a, b);
    } else if DisjointFrom(rs, a, b) {
      ClearSpotted(rs, a, b);
    } else if a < rs[0].start && rs[0].end == b {
      FirstSpotted(rs, a, b);
    } else {
      var i: nat :| StartsIn(rs, i, a, b);
      InsideSpotted(rs, i, a, b);
    }
  }

  /** A range clear of the free space is freed as it is. */
  lemma DisjointParts(rs: seq<Range>, a: nat, b: nat)
    requires a <= b && DisjointFrom(rs, a, b)
    ensures Freeable(rs, a, b) && FreedPart(rs, a, b - a + 1) == (a, b - a + 1)
  {
  }

  /** The first range freed into an empty free space. */
  lemma FirstPart(rs: seq<Range>, a: nat, size: nat)
    requires rs == [] && size > 0
    ensures FreeDone(rs, a, size, Ok(()), [Range(a, a + size - 1)])
  {
    DisjointParts(rs, a, a + size - 1);
  }

  lemma NothingToFree(rs: seq<Range>, a: nat)
    ensures FreeDone(rs, a, 0, Err(InvalidRequest), rs)
  {
  }

  lemma TakenPart(rs: seq<Range>, a: nat, size: nat)
    requires size > 0 && Contains(rs, a, a + size - 1)
    ensures FreeDone(rs, a, size, Err(InvalidRequest), rs)
  {
  }

  lemma BeforeFirst(rs: seq<Range>, a: nat)
    requires Coalesced(rs) && rs != [] && a < rs[0].start
    ensures SearchIndex(rs, a) == 0 && DisjointFrom(rs, a, rs[0].start - 1) && (1 < |rs| ==> rs[1].start > a)
  {
  }

  lemma SearchInside(rs: seq<Range>, i: nat, a: nat, b: nat)
    requires Coalesced(rs) && StartsIn(rs, i, a, b)
    ensures SearchIndex(rs, a) == i - 1 && rs[i - 1].end + 1 < a && !Contains(rs, a, b) && !DisjointFrom(rs, a, b)
      && a >= rs[0].start
  {
    var p := Below(rs, a);
    assert rs[i].start == a ==> p == i;
    assert rs[i].start < a ==> p == i + 1;
    assert forall j :: 0 <= j < |rs| && rs[j].start <= a ==> rs[j].end < b;
  }

  ghost predicate JoinsNext(rs: seq<Range>, e: nat, b: nat) {
    e + 1 < |rs| && rs[e + 1].start == b + 1
  }

  /** The five ways a freed range a..b can meet the entry `e` found for it. */
  lemma FreeCases(rs: seq<Range>, a: nat, b: nat)
    requires Coalesced(rs) && rs != [] && a <= b && DisjointFrom(rs, a, b)
    ensures var p := Below(rs, a); var e := SearchIndex(rs, a); var ns := Insert(rs, p, a, b);
      && Coalesced(ns) && Fits(rs, p, a, b) && e < |rs|
      && (JoinsNext(rs, e, b) && rs[e].end + 1 == a ==>
            ns == (rs[..e + 1] + rs[e + 2..])[e := Range(rs[e].start, rs[e + 1].end)])
      && (JoinsNext(rs, e, b) && rs[e].end + 1 != a ==> ns == rs[e + 1 := Range(a, rs[e + 1].end)])
      && (!JoinsNext(rs, e, b) && rs[e].end + 1 == a ==> ns == rs[e := Range(rs[e].start, b)] && rs[e].start <= b)
      && (!JoinsNext(rs, e, b) && rs[e].end + 1 != a && e == 0 && rs[e].start == b + 1 ==>
            ns == rs[e := Range(a, rs[e].end)])
      && (JoinsLeft(rs, p, a) || JoinsRight(rs, p, b) <==>
            JoinsNext(rs, e, b) || rs[e].end + 1 == a || (e == 0 && rs[e].start == b + 1))
      && e == (if p == 0 then 0 else p - 1)
  {
    hide Coalesced, Insert, Below, SearchIndex, DisjointFrom, Fits, JoinsLeft, JoinsRight;
    var p := Below(rs, a);
    SearchDisjoint(rs, a, b);
    SearchIndexBound(rs, a);
    InsertShapes(rs, p, a, b);
    InsertCoalesced(rs, p, a, b);
  }

  lemma SearchIndexBound(rs: seq<Range>, a: nat)
    requires rs != []
    ensures SearchIndex(rs, a) < |rs|
  {
  }

  /** An entry of the chain and its successor, read through the pool. */
  lemma EntryView(p: seq<Entry>, first: Option<nat>, chain: seq<nat>, e: nat)
    requires Chained(p, first, chain) && e < |chain|
    ensures chain[e] < POOL_SIZE && Bounded(chain, |p|)
    ensures var x := p[chain[e]]; var rs := RangesOf(p, chain);
      && x.start == rs[e].start && x.end == rs[e].end < WORD - 1
      && (x.chain.prev.None? <==> e == 0) && x.chain.prev == Before(chain, e)
      && (x.chain.next.Some? <==> e + 1 < |rs|)
      && (x.chain.next.Some? ==>
            && x.chain.next.value == chain[e + 1] < POOL_SIZE
            && p[chain[e + 1]].start == rs[e + 1].start && p[chain[e + 1]].end == rs[e + 1].end < WORD - 1)
  {
    ChainPlace(p, first, chain, e);
    if p[chain[e]].chain.next.Some? { ChainPlaceNext(p, first, chain, e); }
  }

  /** What freeing `size` bytes at `a` must answer. */
  ghost function FreeOutcome(rs: seq<Range>, a: nat, size: nat): Result<(), MemoryError> {
    if size == 0 || Contains(rs, a, a + size - 1) then Err(InvalidRequest)
    else if |rs| == POOL_SIZE && !JoinsLeft(rs, Below(rs, a), a) && !JoinsRight(rs, Below(rs, a), a + size - 1)
      then Err(NoEntry)
    else Ok(())
  }

  /** Freeing answered and left the free space as it must: what is missing of the request has been put in. */
  ghost predicate FreeDone(rs: seq<Range>, a: nat, size: nat, r: Result<(), MemoryError>, rs': seq<Range>) {
    var (c, n) := FreedPart(rs, a, size);
    r == FreeOutcome(rs, c, n) && (r.Ok? ==> n > 0 && rs' == Insert(rs, Below(rs, c), c, c + n - 1))
  }

  lemma FreeDonePart(rs: seq<Range>, a: nat, size: nat, c: nat, n: nat, r: Result<(), MemoryError>, rs': seq<Range>)
    requires FreedPart(rs, a, size) == (c, n) == FreedPart(rs, c, n) && FreeDone(rs, c, n, r, rs')
    ensures FreeDone(rs, a, size, r, rs')
  {
    hide FreedPart, FreeOutcome, Insert, Below;
  }

  lemma FreeDoneClear(rs: seq<Range>, a: nat, size: nat, r: Result<(), MemoryError>, rs': seq<Range>)
    requires size > 0 && FreedPart(rs, a, size) == (a, size) && r == FreeOutcome(rs, a, size)
    requires r.Ok? ==> rs' == Insert(rs, Below(rs, a), a, a + size - 1)
    ensures FreeDone(rs, a, size, r, rs')
  {
    hide FreedPart, FreeOutcome, Insert, Below;
  }

  lemma NotBoth(rs: seq<Range>, a: nat, b: nat)
    requires a <= b && Coalesced(rs) && DisjointFrom(rs, a, b)
    ensures !Contains(rs, a, b)
  {
  }

  lemma SpliceFirst(p: seq<Entry>, q: seq<Entry>, first: Option<nat>, chain: seq<nat>, n: nat)
    requires Chained(p, first, chain) && chain == [] && n < POOL_SIZE && !p[n].enabled && |q| == |p|
    requires forall x: nat :: x < |p| && x != n ==> q[x] == p[x]
    requires q[n].enabled && q[n].id == n && q[n].list == UNLINKED && q[n].chain == UNLINKED
    requires q[n].start <= q[n].end < WORD - 1
    ensures Spliced(p, q, None, None, n)
    ensures Chained(q, Some(n), [n]) && RangesOf(q, [n]) == [Range(q[n].start, q[n].end)]
  {
  }

  lemma FirstIsHead(p: seq<Entry>, first: Option<nat>, chain: seq<nat>)
    requires Chained(p, first, chain)
    ensures first == HeadOf(chain)
  {
  }
}
