/** The recursive in-place builder of Stage 2 translation tables. */
module Stage2Build {
  import opened Common
  import opened Arith
  import opened Stage2Descriptors
  import opened Stage2Walk
  import opened Stage2Map

  /** Pages lo..hi of table `t`, out of lo..end asked for, were mapped linearly, and what that did to the others. */
  ghost predicate Maps(mem0: Memory, info0: map<nat, Place>, mem: Memory, info: map<nat, Place>, t: nat,
                       lo: nat, hi: nat, end: nat, frame: nat, perm: bv64, attr: bv64)
    requires Wf(mem0, info0) && t in mem0 && PlaceOk(info0[t])
  {
    && Wf(mem, info) && Grows(mem0, info0, mem, info, t) && t in info && info[t] == info0[t]
    && Linear(mem, info, t, lo, hi, frame, perm, attr)
    && KeepsOthers(mem0, mem, info0, t, lo, hi, end)
  }

  lemma TableLength(mem: Memory, info: map<nat, Place>, t: nat)
    requires Wf(mem, info) && t in mem
    ensures t in info && PlaceOk(info[t]) && |mem[t]| == info[t].count
  {
  }

  lemma MapsPlace(m0: Memory, i0: map<nat, Place>, m1: Memory, i1: map<nat, Place>, t: nat,
                  lo: nat, hi: nat, end: nat, frame: nat, perm: bv64, attr: bv64)
    requires Wf(m0, i0) && t in m0 && PlaceOk(i0[t]) && Maps(m0, i0, m1, i1, t, lo, hi, end, frame, perm, attr)
    ensures t in i1 && i1[t] == i0[t] && Wf(m1, i1)
  {
  }

  lemma MapsNothing(mem: Memory, info: map<nat, Place>, t: nat, at: nat, end: nat, frame: nat, perm: bv64, attr: bv64)
    requires Wf(mem, info) && t in mem && PlaceOk(info[t])
    ensures Maps(mem, info, mem, info, t, at, at, end, frame, perm, attr)
  {
    hide Walk, Belongs;
  }

  lemma GrowsTrans(m0: Memory, i0: map<nat, Place>, m1: Memory, i1: map<nat, Place>, m2: Memory, i2: map<nat, Place>,
                   t: nat)
    requires Wf(m0, i0) && Wf(m1, i1) && t in m0 && t in m1
    requires Grows(m0, i0, m1, i1, t) && Grows(m1, i1, m2, i2, t)
    ensures Grows(m0, i0, m2, i2, t)
  {
  }

  /** Two changes to the fate of a page, one after the other. */
  lemma ComposePage(w0: Translation, w1: Translation, w2: Translation, x: nat, lo: nat, mid: nat, hi: nat, end1: nat,
                    end2: nat, end: nat)
    requires KeepsPage(w0, w1, x, lo, mid, end1) && KeepsPage(w1, w2, x, mid, hi, end2)
    requires lo <= mid <= hi && end1 <= end && end2 <= end
    ensures KeepsPage(w0, w2, x, lo, hi, end)
  {
    hide First, Coord;
    if w0.Mapped? { FirstGrows(Coord(x, w0.level), w0.level); }
  }

  lemma FirstGrows(c: nat, level: nat)
    ensures First(c, level) < First(c + 1, level)
  {
  }

  /** Work done through the next descriptor extends the mapped range. */
  lemma Compose(m0: Memory, i0: map<nat, Place>, m1: Memory, i1: map<nat, Place>, m2: Memory, i2: map<nat, Place>,
                t: nat, i: nat,
                lo: nat, mid: nat, hi: nat, end1: nat, end2: nat, end: nat, frame: nat, perm: bv64, attr: bv64)
    requires Wf(m0, i0) && t in m0 && PlaceOk(i0[t]) && lo <= mid <= hi && end1 <= end && end2 <= end
    requires Maps(m0, i0, m1, i1, t, lo, mid, end1, frame, perm, attr) && t in m1
    requires Maps(m1, i1, m2, i2, t, mid, hi, end2, frame + (mid - lo), perm, attr) && KeepsSlots(m1, m2, i1, t, i)
    requires forall x: nat :: lo <= x < mid ==> Belongs(x, i0[t]) && Slot(x, i0[t]) != i
    ensures Maps(m0, i0, m2, i2, t, lo, hi, end, frame, perm, attr)
  {
    hide Walk, KeepsPage, Belongs, Slot, Wf;
    TableLength(m0, i0, t);
    GrowsTrans(m0, i0, m1, i1, m2, i2, t);
    forall x: nat | lo <= x < hi
      ensures GoesTo(WalkFrom(m2, i2, t, x), frame + (x - lo), perm, attr)
    {
      if x < mid {
        assert GoesTo(WalkFrom(m1, i1, t, x), frame + (x - lo), perm, attr);
        assert WalkFrom(m2, i1, t, x) == WalkFrom(m1, i1, t, x);
      } else {
        assert GoesTo(WalkFrom(m2, i2, t, x), frame + (mid - lo) + (x - mid), perm, attr);
      }
    }
    forall x: nat | Belongs(x, i0[t]) && !(lo <= x < hi)
      ensures KeepsPage(WalkFrom(m0, i0, t, x), WalkFrom(m2, i0, t, x), x, lo, hi, end)
    {
      ComposePage(WalkFrom(m0, i0, t, x), WalkFrom(m1, i0, t, x), WalkFrom(m2, i1, t, x), x, lo, mid, hi, end1, end2,
        end);
    }
  }

  /** One past the last page of a table. */
  ghost function EndOf(p: Place): nat
  {
    First(p.number * p.count + p.count, p.level)
  }

  /** Pages before block `c`, in the same table, are read through other descriptors. */
  lemma EarlierSlots(p: Place, i: nat, lo: nat, mid: nat)
    requires PlaceOk(p) && i < p.count && Belongs(lo, p) && lo <= mid
    requires lo == mid || mid == First(p.number * p.count + i, p.level)
    ensures forall x: nat :: lo <= x < mid ==> Belongs(x, p) && Slot(x, p) != i
  {
    hide Coord, First, Pages, Belongs, Slot;
    var c := p.number * p.count + i;
    var a := Coord(lo, p.level);
    forall x: nat | lo <= x < mid
      ensures Belongs(x, p) && Slot(x, p) != i
    {
      var b := Coord(x, p.level);
      CoordRange(lo, p.level, a);
      CoordRange(x, p.level, b);
      CoordMonotone(a, b, c, p.level, lo, x);
      TableStart(lo, p);
      InTable(x, p, b - p.number * p.count);
    }
  }

  lemma TableStart(x: nat, p: Place)
    requires p.count > 0 && Belongs(x, p)
    ensures p.number * p.count <= Coord(x, p.level)
  {
    var b := Coord(x, p.level);
    assert b == p.count * (b / p.count) + b % p.count;
  }

  lemma InTable(x: nat, p: Place, k: nat)
    requires p.count > 0 && k < p.count && Coord(x, p.level) == p.number * p.count + k
    ensures Belongs(x, p) && Slot(x, p) == k
  {
    DivStep(p.number, k, p.count);
  }

  lemma CoordMonotone(a: nat, b: nat, c: nat, level: nat, lo: nat, x: nat)
    requires level <= 3 && First(a, level) <= lo <= x < First(b + 1, level) && First(b, level) <= x < First(c, level)
    ensures a <= b < c
  {
  }

  /** The block that descriptor `i` of a table covers. */
  lemma SlotRange(p: Place, i: nat, x: nat)
    requires PlaceOk(p) && i < p.count
    ensures var c := p.number * p.count + i;
      (Belongs(x, p) && Slot(x, p) == i <==> First(c, p.level) <= x < First(c + 1, p.level))
  {
    hide Coord, First, Pages;
    var c := p.number * p.count + i;
    CoordRange(x, p.level, c);
    DivStep(p.number, i, p.count);
    assert Coord(x, p.level) == p.count * (Coord(x, p.level) / p.count) + Coord(x, p.level) % p.count;
  }

  /** The leaf of a page lies within its block of any higher level. */
  lemma BlockNest(x: nat, level: nat, leaf: nat)
    requires level <= leaf <= 3
    ensures First(Coord(x, level), level) <= First(Coord(x, leaf), leaf)
    ensures First(Coord(x, leaf) + 1, leaf) <= First(Coord(x, level) + 1, level)
    decreases leaf
  {
    hide Coord, First, Pages;
    if level < leaf {
      BlockNest(x, level, leaf - 1);
      NestStep(x, leaf - 1);
    }
  }

  lemma NestStep(x: nat, level: nat)
    requires level < 3
    ensures First(Coord(x, level), level) <= First(Coord(x, level + 1), level + 1)
    ensures First(Coord(x, level + 1) + 1, level + 1) <= First(Coord(x, level) + 1, level)
  {
    hide Coord, First, Pages;
    var b, c := Coord(x, level + 1), Coord(x, level);
    CoordUp(x, level);
    assert 512 * c <= b < 512 * (c + 1);
    FirstDown(c, level);
    FirstDown(c + 1, level);
    FirstMonotone(512 * c, b, level + 1);
    FirstMonotone(b + 1, 512 * (c + 1), level + 1);
  }

  lemma FirstDown(c: nat, level: nat)
    requires level < 3
    ensures First(c, level) == First(512 * c, level + 1)
  {
  }

  /** So it meets no other block of a table it is read through. */
  lemma SiblingNotCut(p: Place, i: nat, x: nat, w: Translation, lo: nat, hi: nat)
    requires PlaceOk(p) && i < p.count && Belongs(x, p) && Slot(x, p) != i && (w.Mapped? ==> p.level <= w.level <= 3)
    requires First(p.number * p.count + i, p.level) <= lo && hi <= First(p.number * p.count + i + 1, p.level)
    ensures !Cut(w, x, lo, hi)
  {
    hide Coord, First, Pages;
    if w.Mapped? {
      BlockNest(x, p.level, w.level);
      OtherBlock(p, i, x);
    }
  }

  lemma OtherBlock(p: Place, i: nat, x: nat)
    requires PlaceOk(p) && i < p.count && Belongs(x, p) && Slot(x, p) != i
    ensures var c, b := p.number * p.count + i, Coord(x, p.level);
      First(b + 1, p.level) <= First(c, p.level) || First(c + 1, p.level) <= First(b, p.level)
  {
    SlotRange(p, i, x);
    var c, b := p.number * p.count + i, Coord(x, p.level);
    assert b != c by { DivStep(p.number, i, p.count); }
    FirstMonotone(b + 1, c, p.level);
    FirstMonotone(c + 1, b, p.level);
  }

  lemma FirstMonotone(a: nat, b: nat, level: nat)
    ensures a <= b ==> First(a, level) <= First(b, level)
  {
  }

  lemma LeafMaps(mem: Memory, info: map<nat, Place>, mem': Memory, t: nat, i: nat, frame: nat, perm: bv64, attr: bv64)
    requires Wf(mem, info) && Wf(mem', info) && t in mem && PlaceOk(info[t]) && i < info[t].count
    requires Grows(mem, info, mem', info, t) && KeepsSlots(mem, mem', info, t, i)
    requires var c := info[t].number * info[t].count + i;
      Linear(mem', info, t, First(c, info[t].level), First(c + 1, info[t].level), frame, perm, attr)
    ensures var c := info[t].number * info[t].count + i;
      Maps(mem, info, mem', info, t, First(c, info[t].level), First(c + 1, info[t].level),
        First(c + 1, info[t].level), frame, perm, attr)
  {
    hide Walk, Wf, Grows, Linear, Belongs, First, Slot, Cut;
    TableLength(mem, info, t);
    var p := info[t];
    var c := p.number * p.count + i;
    var lo, hi := First(c, p.level), First(c + 1, p.level);
    forall x: nat | Belongs(x, p) && !(lo <= x < hi)
      ensures KeepsPage(WalkFrom(mem, info, t, x), WalkFrom(mem', info, t, x), x, lo, hi, hi)
    {
      SlotRange(p, i, x);
      SiblingNotCut(p, i, x, WalkFrom(mem, info, t, x), lo, hi);
    }
  }

  /** A fresh empty table under a descriptor changes a walk only by taking away the leaf that was there. */
  lemma AddTableMaps(mem: Memory, info: map<nat, Place>, t: nat, i: nat, page: nat, at: nat, end: nat, frame: nat,
                     perm: bv64, attr: bv64)
    requires Wf(mem, info) && t in mem && i < |mem[t]| && PlaceOk(info[t]) && info[t].level < 3 && page !in mem
      && page < FRAME_LIMIT
    requires !IsTable(mem[t][i]) && Belongs(at, info[t]) && Slot(at, info[t]) == i && at < end
    ensures var mem' := mem[page := ZEROS][t := mem[t][i := TableWord(page * PAGE_SIZE)]];
      var info' := info[page := ChildPlace(info[t], i)];
      Maps(mem, info, mem', info', t, at, at, end, frame, perm, attr) && KeepsSlots(mem, mem', info, t, i)
  {
    hide Walk, Grows, Slot, First, Coord, Belongs, IsTable, TableWord;
    var mem' := mem[page := ZEROS][t := mem[t][i := TableWord(page * PAGE_SIZE)]];
    var info' := info[page := ChildPlace(info[t], i)];
    AddTable(mem, info, t, i, page);
    assert TableOk(mem, info, t);
    forall x: nat | Belongs(x, info[t])
      ensures KeepsPage(WalkFrom(mem, info, t, x), WalkFrom(mem', info, t, x), x, at, at, end)
    {
      if Slot(x, info[t]) == i {
        NoTableLeaf(mem, info, t, x);
        SameBlock(info[t], i, x, at);
        assert WalkFrom(mem', info', t, x) == Fault;
      }
    }
  }

  lemma SameBlock(p: Place, i: nat, x: nat, at: nat)
    requires PlaceOk(p) && i < p.count && Belongs(x, p) && Slot(x, p) == i && Belongs(at, p) && Slot(at, p) == i
    ensures First(Coord(x, p.level), p.level) <= at < First(Coord(x, p.level) + 1, p.level)
  {
    SlotRange(p, i, x);
    SlotRange(p, i, at);
    CoordRange(x, p.level, p.number * p.count + i);
  }

  /** What was mapped in a child table is mapped, through its descriptor, in the parent. */
  lemma ChildMaps(mem: Memory, info: map<nat, Place>, mem': Memory, info': map<nat, Place>, t: nat, i: nat, c: nat,
                  lo: nat, hi: nat, end: nat, frame: nat, perm: bv64, attr: bv64)
    requires Wf(mem, info) && t in mem && i < |mem[t]| && PlaceOk(info[t]) && info[t].level < 3
    requires IsTable(mem[t][i]) && Target(mem[t][i]) == c && c in mem && info[c] == ChildPlace(info[t], i)
      && PlaceOk(info[c])
    requires Maps(mem, info, mem', info', c, lo, hi, end, frame, perm, attr)
    requires t in info && |mem[t]| == info[t].count && c in info
    requires forall x: nat :: lo <= x < hi ==> Belongs(x, info[c])
    requires var b := info[t].number * info[t].count + i;
      First(b, info[t].level) <= lo && hi <= First(b + 1, info[t].level)
    ensures Maps(mem, info, mem', info', t, lo, hi, end, frame, perm, attr)
    ensures KeepsSlots(mem, mem', info, t, i) && t in mem' && mem'[t] == mem[t]
  {
    hide Wf, Walk, TableOk, Grows, ChildPlace, Belongs, Coord, Pages, First, IsTable, Target, Slot, Cut;
    var p := info[t];
    ChildKeepsSlots(mem, info, mem', info', t, i, c);
    forall x: nat | lo <= x < hi
      ensures GoesTo(WalkFrom(mem', info', t, x), frame + (x - lo), perm, attr)
    {
      Through(mem', info, t, i, c, x);
      assert GoesTo(WalkFrom(mem', info', c, x), frame + (x - lo), perm, attr);
    }
    forall x: nat | Belongs(x, p) && !(lo <= x < hi)
      ensures KeepsPage(WalkFrom(mem, info, t, x), WalkFrom(mem', info, t, x), x, lo, hi, end)
    {
      if Slot(x, p) == i {
        BelongsInto(x, p, i);
        Through(mem', info, t, i, c, x);
        Through(mem, info, t, i, c, x);
        assert KeepsPage(WalkFrom(mem, info, c, x), WalkFrom(mem', info, c, x), x, lo, hi, end);
      } else {
        SiblingNotCut(p, i, x, WalkFrom(mem, info, t, x), lo, hi);
      }
    }
  }

  lemma BelongsInto(x: nat, p: Place, i: nat)
    requires PlaceOk(p) && p.level < 3 && Belongs(x, p) && Slot(x, p) == i
    ensures Belongs(x, ChildPlace(p, i))
  {
    BelongsDown(x, p);
  }

  /** A page of a child table is translated there. */
  lemma Through(mem: Memory, info: map<nat, Place>, t: nat, i: nat, c: nat, x: nat)
    requires t in mem && t in info && PlaceOk(info[t]) && info[t].level < 3 && |mem[t]| == info[t].count && i < |mem[t]|
    requires IsTable(mem[t][i]) && Target(mem[t][i]) == c && c in info && info[c] == ChildPlace(info[t], i)
    requires Belongs(x, info[c])
    ensures WalkFrom(mem, info, t, x) == WalkFrom(mem, info, c, x)
  {
    BelongsUp(x, info[t], i);
  }

  /** In a level 3 table descriptors are pages. */
  lemma PageNumber(p: Place, x: nat)
    requires PlaceOk(p) && p.level == 3 && Belongs(x, p)
    ensures x == p.number * p.count + Coord(x, 3) % p.count && x < EndOf(p)
  {
    assert x == p.count * (x / p.count) + x % p.count;
  }

  lemma KeepsSelf(mem: Memory, info: map<nat, Place>, t: nat, i: nat)
    requires t in info && PlaceOk(info[t])
    ensures KeepsSlots(mem, mem, info, t, i)
  {
  }

  lemma KeepsSlotsTrans(m0: Memory, m1: Memory, m2: Memory, i0: map<nat, Place>, i1: map<nat, Place>, t: nat, i: nat)
    requires t in i0 && t in i1 && i0[t] == i1[t] && PlaceOk(i0[t])
    requires KeepsSlots(m0, m1, i0, t, i) && KeepsSlots(m1, m2, i1, t, i)
    ensures KeepsSlots(m0, m2, i0, t, i)
  {
  }

  lemma BlockHolds(p: Place, i: nat, ipa: nat, rem: nat)
    requires PlaceOk(p) && i < p.count && Belongs(ipa, p) && Slot(ipa, p) == i && rem > 0
    ensures First(p.number * p.count + i, p.level) <= ipa < BlockStop(p, i, ipa, rem)
  {
    SlotRange(p, i, ipa);
  }

  /** The child table under descriptor `i` covers exactly its block. */
  lemma ChildRange(p: Place, i: nat, ipa: nat, rem: nat)
    requires PlaceOk(p) && i < p.count && p.level < 3 && Belongs(ipa, p) && Slot(ipa, p) == i
    ensures ChildPlace(p, i).level == p.level + 1 && ChildPlace(p, i).count == 512
    ensures Belongs(ipa, ChildPlace(p, i))
    ensures Stage2Tables.Stop(ChildPlace(p, i), ipa, rem) == BlockStop(p, i, ipa, rem)
    ensures forall x: nat :: ipa <= x < BlockStop(p, i, ipa, rem) ==> Belongs(x, ChildPlace(p, i))
  {
    var c := p.number * p.count + i;
    BelongsDown(ipa, p);
    assert First(c * 512 + 512, p.level + 1) == First(c + 1, p.level);
    SlotRange(p, i, ipa);
    forall x: nat | ipa <= x < BlockStop(p, i, ipa, rem)
      ensures Belongs(x, ChildPlace(p, i))
    {
      SlotRange(p, i, x);
      BelongsDown(x, p);
    }
  }

  /** The end of a block is the start of the next one, or the end of the table. */
  lemma NextSlot(p: Place, i: nat)
    requires PlaceOk(p) && i < p.count
    ensures var next := First(p.number * p.count + i + 1, p.level);
      && (i + 1 < p.count ==> Belongs(next, p) && Slot(next, p) == i + 1)
      && (i + 1 == p.count ==> next == EndOf(p))
  {
    if i + 1 < p.count {
      FirstIs(p.number * p.count + i + 1, p.level);
      SlotRange(p, i + 1, First(p.number * p.count + (i + 1), p.level));
    }
  }

  /** A block of a table ends within it. */
  lemma BlockInTable(p: Place, i: nat, ipa: nat, rem: nat)
    requires PlaceOk(p) && i < p.count
    ensures First(p.number * p.count + i + 1, p.level) <= EndOf(p)
    ensures BlockStop(p, i, ipa, rem) <= Stage2Tables.Stop(p, ipa, rem)
  {
  }

  /** An aligned address in a block is its first page, and a whole block of it is wanted. */
  lemma BlockStart(p: Place, i: nat, ipa: nat, rem: nat)
    requires PlaceOk(p) && i < p.count && Belongs(ipa, p) && Slot(ipa, p) == i
    requires ipa % Pages(p.level) == 0 && rem >= Pages(p.level)
    ensures var c := p.number * p.count + i;
      && First(c, p.level) == ipa && First(c + 1, p.level) == ipa + Pages(p.level)
      && BlockStop(p, i, ipa, rem) == ipa + Pages(p.level)
  {
    var c := p.number * p.count + i;
    SlotRange(p, i, ipa);
    CoordRange(ipa, p.level, c);
    FirstIs(c, p.level);
  }

  function Cleared(count: nat): (ws: seq<bv64>)
    ensures |ws| == count && forall i :: 0 <= i < count ==> ws[i] == 0
  {
    seq(count, _ => 0)
  }

  class Stage2Tables {
    var mem: Memory
    /** Pages the memory allocator will hand out, in order. */
    var pages: seq<nat>
    ghost var info: map<nat, Place>

    ghost predicate Valid()
      reads this
    {
      && Wf(mem, info)
      && (forall k :: 0 <= k < |pages| ==> pages[k] !in mem && pages[k] < FRAME_LIMIT)
      && (forall j, k :: 0 <= j < k < |pages| ==> pages[j] != pages[k])
    }

    /** A first table with every descriptor clear. */
    constructor (root: nat, place: Place, freePages: seq<nat>)
      requires PlaceOk(place) && root !in freePages && forall page :: page in freePages ==> page < FRAME_LIMIT
      requires forall j, k :: 0 <= j < k < |freePages| ==> freePages[j] != freePages[k]
      ensures Valid() && root in mem && root in info && info[root] == place && pages == freePages
      ensures mem == map[root := Cleared(place.count)]
    {
      assert forall k :: 0 <= k < |freePages| ==> freePages[k] in freePages;
      NoKind();
      mem := map[root := Cleared(place.count)];
      pages := freePages;
      info := map[root := place];
    }

    /** A fresh page for a new table, if there is one. */
    method AllocatePage() returns (page: Option<nat>)
      requires Valid()
      modifies this`pages
      ensures Valid()
      ensures page.None? <==> old(pages) == []
      ensures pages == if page.None? then [] else old(pages)[1..]
      ensures page.Some? ==> page.value !in mem && page.value !in pages && page.value < FRAME_LIMIT
    {
      if pages == [] {
        return None;
      }
      page := Some(pages[0]);
      pages := pages[1..];
    }

    /** Descriptor `i` became a leaf and the others are as before. */
    static ghost predicate LeafPut(old': seq<bv64>, new': seq<bv64>, i: nat, frame: nat, perm: bv64, device: bool,
                                   level: nat) {
      i < |old'| && new' == old'[i := LeafWord(frame * PAGE_SIZE, perm, device, level)]
    }

    /** The whole block of descriptor `i` was mapped, and nothing else changed. */
    static ghost predicate MapsBlock(mem0: Memory, mem: Memory, info: map<nat, Place>, t: nat, i: nat, frame: nat,
                                     perm: bv64, attr: bv64)
      requires Wf(mem0, info) && t in mem0 && t in info && PlaceOk(info[t])
    {
      var c, level := info[t].number * info[t].count + i, info[t].level;
      Maps(mem0, info, mem, info, t, First(c, level), First(c + 1, level), First(c + 1, level), frame, perm, attr)
    }

    /** Writes leaf descriptor number `i` of table `t`. */
    method PutLeaf(t: nat, i: nat, frame: nat, perm: bv64, device: bool, level: nat)
      requires Valid() && t in mem && t in info && i < |mem[t]| && info[t].level == level && PlaceOk(info[t])
        && level >= 1
      requires frame % Pages(level) == 0 && frame < FRAME_LIMIT && TwoBits(perm)
      modifies this`mem
      ensures Valid()
      ensures t in mem && mem == old(mem)[t := mem[t]] && LeafPut(old(mem)[t], mem[t], i, frame, perm, device, level)
      ensures KeepsSlots(old(mem), mem, info, t, i)
      ensures MapsBlock(old(mem), mem, info, t, i, frame, perm, AttributeFor(device))
    {
      hide Linear, Grows, KeepsSlots, First, Maps, LeafWord, TwoBits, Fields, IsTable, Target;
      assert TableOk(mem, info, t);
      WriteLeaf(mem, info, t, i, frame, perm, device, info[t].number * info[t].count + i);
      mem := mem[t := mem[t][i := LeafWord(frame * PAGE_SIZE, perm, device, level)]];
      LeafMaps(old(mem), info, mem, t, i, frame, perm, AttributeFor(device));
    }

    /** Where a request of `rem` pages from `ipa` leaves the pages of a table. */
    static ghost function Stop(p: Place, ipa: nat, rem: nat): nat {
      if ipa + rem < EndOf(p) then ipa + rem else EndOf(p)
    }

    /** Everything a call on table `t` promises, whether it succeeded or ran out of memory. */
    ghost predicate Done(mem0: Memory, info0: map<nat, Place>, t: nat, pa: nat, ipa: nat, rem: nat,
                         perm: bv64, attr: bv64, ok: bool, pa': nat, ipa': nat, rem': nat)
      requires Wf(mem0, info0) && t in mem0 && PlaceOk(info0[t])
      reads this
    {
      var stop := Stop(info0[t], ipa, rem);
      && ipa <= ipa' <= stop && pa' - pa == ipa' - ipa && rem' + ipa' == rem + ipa
      && (ok ==> ipa' == stop)
      && Maps(mem0, info0, mem, info, t, ipa, ipa', stop, pa, perm, attr)
    }

    /** Fills page descriptors of a level 3 table. */
    method MapPages(pa0: nat, ipa0: nat, rem0: nat, t: nat, perm: bv64, device: bool, count: nat)
      returns (pa: nat, ipa: nat, rem: nat)
      requires Valid() && t in mem && t in info && info[t].level == 3 && info[t].count == count && PlaceOk(info[t])
      requires Belongs(ipa0, info[t]) && rem0 > 0 && pa0 + rem0 <= FRAME_LIMIT && TwoBits(perm)
      modifies this`mem
      ensures Valid() && t in mem
      ensures Done(old(mem), info, t, pa0, ipa0, rem0, perm, AttributeFor(device), true, pa, ipa, rem)
    {
      hide Wf, Maps, KeepsSlots, LeafWord, TwoBits, Belongs, Slot;
      pa, ipa, rem := pa0, ipa0, rem0;
      var i := Coord(ipa, 3) % count;
      ghost var p := info[t];
      ghost var attr := AttributeFor(device);
      ghost var stop := Stop(p, ipa0, rem0);
      TableLength(mem, info, t);
      MapsNothing(mem, info, t, ipa0, stop, pa0, perm, attr);
      PageNumber(p, ipa0);
      while i < count
        invariant i <= count && Valid() && t in mem && |mem[t]| == count && rem > 0
        invariant ipa == p.number * count + i && ipa0 <= ipa
        invariant pa - pa0 == ipa - ipa0 && rem + ipa == rem0 + ipa0
        invariant Maps(old(mem), info, mem, info, t, ipa0, ipa, stop, pa0, perm, attr)
      {
        ghost var m1 := mem;
        PutLeaf(t, i, pa, perm, device, 3);
        EarlierSlots(p, i, ipa0, ipa);
        Compose(old(mem), info, m1, info, mem, info, t, i, ipa0, ipa, ipa + 1, stop, ipa + 1, stop, pa0, perm, attr);
        pa, ipa, rem := pa + 1, ipa + 1, rem - 1;
        if rem == 0 {
          break;
        }
        i := i + 1;
      }
    }

    /** Puts a fresh empty table under descriptor `i` of `t` unless there is a table already. */
    method EnsureTable(t: nat, i: nat, ghost at: nat, ghost end: nat, ghost frame: nat, ghost perm: bv64,
                       ghost attr: bv64)
      returns (child: Option<nat>)
      requires Valid() && t in mem && t in info && PlaceOk(info[t]) && info[t].level < 3
      requires |mem[t]| == info[t].count && i < |mem[t]|
      requires Belongs(at, info[t]) && Slot(at, info[t]) == i && at < end
      modifies this
      ensures Valid() && t in mem && t in info && info[t] == old(info)[t] && |mem[t]| == info[t].count
      ensures Maps(old(mem), old(info), mem, info, t, at, at, end, frame, perm, attr)
      ensures KeepsSlots(old(mem), mem, old(info), t, i)
      ensures child.None? ==> pages == []
      ensures child.Some? ==>
        && IsTable(mem[t][i]) && Target(mem[t][i]) == child.value && child.value in mem && child.value in info
        && info[child.value] == ChildPlace(info[t], i)
    {
      hide Maps, KeepsSlots, Grows, Belongs, IsTable, Target, TableWord;
      MapsNothing(mem, info, t, at, end, frame, perm, attr);
      KeepsSelf(mem, info, t, i);
      assert TableOk(mem, info, t);
      if IsTable(mem[t][i]) {
        return Some(Target(mem[t][i]));
      }
      child := AllocatePage();
      if child.None? {
        return;
      }
      AddTable(mem, info, t, i, child.value);
      AddTableMaps(mem, info, t, i, child.value, at, end, frame, perm, attr);
      mem := mem[child.value := ZEROS][t := mem[t][i := TableWord(child.value * PAGE_SIZE)]];
      info := info[child.value := ChildPlace(info[t], i)];
    }

    /** Maps as much of the request as lies in the block of descriptor `i`, in the table below it. */
    method ThroughTable(pa0: nat, ipa0: nat, rem0: nat, t: nat, i: nat, perm: bv64, device: bool, level: nat)
      returns (ok: bool, pa: nat, ipa: nat, rem: nat)
      requires Valid() && t in mem && t in info && PlaceOk(info[t]) && info[t].level == level < 3
      requires |mem[t]| == info[t].count && i < |mem[t]|
      requires Belongs(ipa0, info[t]) && Slot(ipa0, info[t]) == i && rem0 > 0 && pa0 + rem0 <= FRAME_LIMIT
        && TwoBits(perm)
      modifies this
      ensures Valid() && t in mem && t in info && info[t] == old(info)[t] && |mem[t]| == info[t].count
      ensures var stop := BlockStop(info[t], i, ipa0, rem0);
        && ipa0 <= ipa <= stop && pa - pa0 == ipa - ipa0 && rem + ipa == rem0 + ipa0
        && (ok ==> ipa == stop)
        && Maps(old(mem), old(info), mem, info, t, ipa0, ipa, stop, pa0, perm, AttributeFor(device))
      ensures KeepsSlots(old(mem), mem, old(info), t, i)
      ensures !ok ==> pages == []
      decreases 3 - level, 0
    {
      hide Wf, Maps, KeepsSlots, Walk, Belongs, ChildPlace, EndOf, First, Slot, IsTable, Target, TwoBits;
      ghost var m0, i0, p, attr := mem, info, info[t], AttributeFor(device);
      ghost var stop := BlockStop(p, i, ipa0, rem0);
      BlockHolds(p, i, ipa0, rem0);
      var child := EnsureTable(t, i, ipa0, stop, pa0, perm, attr);
      if child.None? {
        return false, pa0, ipa0, rem0;
      }
      var c := child.value;
      ghost var m1, i1 := mem, info;
      TableLength(mem, info, c);
      ChildRange(p, i, ipa0, rem0);
      ok, pa, ipa, rem := MapLevel(pa0, ipa0, rem0, c, perm, device, level + 1, 512);
      ChildMaps(m1, i1, mem, info, t, i, c, ipa0, ipa, stop, pa0, perm, attr);
      MapsPlace(m1, i1, mem, info, t, ipa0, ipa, stop, pa0, perm, attr);
      Compose(m0, i0, m1, i1, mem, info, t, i, ipa0, ipa0, ipa, stop, stop, stop, pa0, perm, attr);
      KeepsSlotsTrans(m0, m1, mem, i0, i1, t, i);
    }

    /**
      Maps the part of the request in the block of descriptor `i`: one block descriptor if it
      fits exactly, else a table.
     */
    method MapEntry(pa0: nat, ipa0: nat, rem0: nat, t: nat, i: nat, perm: bv64, device: bool, level: nat)
      returns (ok: bool, pa: nat, ipa: nat, rem: nat)
      requires Valid() && t in mem && t in info && PlaceOk(info[t]) && info[t].level == level < 3
      requires |mem[t]| == info[t].count && i < |mem[t]|
      requires Belongs(ipa0, info[t]) && Slot(ipa0, info[t]) == i && rem0 > 0 && pa0 + rem0 <= FRAME_LIMIT
        && TwoBits(perm)
      modifies this
      ensures Valid() && t in mem && t in info && info[t] == old(info)[t] && |mem[t]| == info[t].count
      ensures var stop := BlockStop(info[t], i, ipa0, rem0);
        && ipa0 <= ipa <= stop && pa - pa0 == ipa - ipa0 && rem + ipa == rem0 + ipa0
        && (ok ==> ipa == stop)
        && Maps(old(mem), old(info), mem, info, t, ipa0, ipa, stop, pa0, perm, AttributeFor(device))
      ensures KeepsSlots(old(mem), mem, old(info), t, i)
      ensures !ok ==> pages == []
      decreases 3 - level, 1
    {
      hide Wf, KeepsSlots, Belongs, EndOf, LeafWord, First, Pages, Grows, Linear, KeepsOthers, TwoBits, Slot;
      if level >= 1 && rem0 >= Pages(level) && pa0 % Pages(level) == 0 && ipa0 % Pages(level) == 0 {
        BlockStart(info[t], i, ipa0, rem0);
        PutLeaf(t, i, pa0, perm, device, level);
        TableLength(mem, info, t);
        return true, pa0 + Pages(level), ipa0 + Pages(level), rem0 - Pages(level);
      }
      ok, pa, ipa, rem := ThroughTable(pa0, ipa0, rem0, t, i, perm, device, level);
    }

    /** Maps a request from one table down, using the largest blocks that fit. */
    method MapLevel(pa0: nat, ipa0: nat, rem0: nat, t: nat, perm: bv64, device: bool, level: nat, count: nat)
      returns (ok: bool, pa: nat, ipa: nat, rem: nat)
      requires Valid() && t in mem && t in info && PlaceOk(info[t]) && info[t].level == level && info[t].count == count
      requires Belongs(ipa0, info[t]) && rem0 > 0 && pa0 + rem0 <= FRAME_LIMIT && TwoBits(perm)
      modifies this
      ensures Valid() && t in mem
      ensures Done(old(mem), old(info), t, pa0, ipa0, rem0, perm, AttributeFor(device), ok, pa, ipa, rem)
      ensures !ok ==> pages == []
      decreases 3 - level, 2
    {
      hide Wf, Maps, KeepsSlots, Belongs, EndOf, First, Pages, BlockStop, TwoBits;
      if level == 3 {
        ok := true;
        pa, ipa, rem := MapPages(pa0, ipa0, rem0, t, perm, device, count);
        return;
      }
      ghost var m0, i0, p, attr := mem, info, info[t], AttributeFor(device);
      ghost var stop := Stop(p, ipa0, rem0);
      pa, ipa, rem, ok := pa0, ipa0, rem0, true;
      var i := Coord(ipa, level) % count;
      TableLength(mem, info, t);
      MapsNothing(mem, info, t, ipa0, stop, pa0, perm, attr);
      while i < count
        invariant i <= count && Valid() && t in mem && t in info && info[t] == p && |mem[t]| == count && rem > 0 && ok
        invariant pa - pa0 == ipa - ipa0 && rem + ipa == rem0 + ipa0 && ipa0 <= ipa
        invariant i < count ==> Belongs(ipa, p) && Slot(ipa, p) == i
        invariant i == count ==> ipa == EndOf(p)
        invariant ipa == ipa0 || ipa == First(p.number * count + i, level)
        invariant Maps(m0, i0, mem, info, t, ipa0, ipa, stop, pa0, perm, attr)
      {
        ghost var m1, i1, ipa1 := mem, info, ipa;
        BlockEnds(p, i, ipa, rem);
        ok, pa, ipa, rem := MapEntry(pa, ipa, rem, t, i, perm, device, level);
        Advance(m0, i0, m1, i1, mem, info, t, i, ipa0, ipa1, ipa, rem0, pa0, perm, attr);
        if !ok || rem == 0 {
          return;
        }
        NextSlot(p, i);
        i := i + 1;
      }
    }
  }

  /** How far a block reaches: to the end of the request, or to the next block of the table. */
  lemma BlockEnds(p: Place, i: nat, ipa: nat, rem: nat)
    requires PlaceOk(p) && i < p.count
    ensures BlockStop(p, i, ipa, rem) <= Stage2Tables.Stop(p, ipa, rem)
    ensures BlockStop(p, i, ipa, rem) < ipa + rem ==>
      BlockStop(p, i, ipa, rem) == First(p.number * p.count + i + 1, p.level)
  {
  }

  /** Adding what descriptor `i` mapped to what the earlier descriptors mapped. */
  lemma Advance(m0: Memory, i0: map<nat, Place>, m1: Memory, i1: map<nat, Place>, m2: Memory, i2: map<nat, Place>,
                t: nat, i: nat,
                lo: nat, mid: nat, hi: nat, rem0: nat, frame: nat, perm: bv64, attr: bv64)
    requires Wf(m0, i0) && t in m0 && PlaceOk(i0[t]) && lo <= mid <= hi && mid < lo + rem0
    requires Wf(m1, i1) && t in m1 && t in i1 && i1[t] == i0[t] && i < i0[t].count
    requires Belongs(lo, i0[t]) && Belongs(mid, i0[t]) && Slot(mid, i0[t]) == i
    requires mid == lo || mid == First(i0[t].number * i0[t].count + i, i0[t].level)
    requires Maps(m0, i0, m1, i1, t, lo, mid, Stage2Tables.Stop(i0[t], lo, rem0), frame, perm, attr)
    requires Maps(m1, i1, m2, i2, t, mid, hi, BlockStop(i0[t], i, mid, lo + rem0 - mid), frame + (mid - lo), perm, attr)
    requires KeepsSlots(m1, m2, i1, t, i)
    ensures Maps(m0, i0, m2, i2, t, lo, hi, Stage2Tables.Stop(i0[t], lo, rem0), frame, perm, attr)
  {
    hide Wf, Maps, KeepsSlots, Belongs, EndOf, First, Pages, Slot;
    TableLength(m0, i0, t);
    var p, rem := i0[t], lo + rem0 - mid;
    var stop, block := Stage2Tables.Stop(p, lo, rem0), BlockStop(p, i, mid, rem);
    BlockInTable(p, i, mid, rem);
    EarlierSlots(p, i, lo, mid);
    Compose(m0, i0, m1, i1, m2, i2, t, i, lo, mid, hi, stop, block, stop, frame, perm, attr);
  }

  /** Where a request leaves the block of descriptor `i`. */
  ghost function BlockStop(p: Place, i: nat, ipa: nat, rem: nat): nat {
    var end := First(p.number * p.count + i + 1, p.level);
    if ipa + rem < end then ipa + rem else end
  }
}
