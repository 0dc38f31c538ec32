/** What one write into a translation table does to every walk. */
module Stage2Map {
  import opened Arith
  import opened Stage2Descriptors
  import opened Stage2Walk

  /** The descriptor of a table that the walk of page `x` reads. */
  function Slot(x: nat, p: Place): nat
    requires p.count > 0
  {
    Coord(x, p.level) % p.count
  }

  ghost function WalkFrom(mem: Memory, info: map<nat, Place>, t: nat, x: nat): Translation
    requires t in info && info[t].level <= 3
  {
    Walk(mem, t, info[t].level, info[t].count, x)
  }

  /** Every page of the place `q` is a page of the place `p`, which is a higher table. */
  ghost predicate Under(q: Place, p: Place)
    requires p.count > 0 && q.count > 0
  {
    q.level > p.level && forall x: nat :: Belongs(x, q) ==> Belongs(x, p)
  }

  /** From one memory to the other, tables keep their place and only `t` and tables under it change. */
  ghost predicate Grows(mem0: Memory, info0: map<nat, Place>, mem: Memory, info: map<nat, Place>, t: nat)
    requires Wf(mem0, info0) && t in mem0
  {
    forall u :: u in mem0 ==>
      && u in mem && u in info && info[u] == info0[u]
      && (mem[u] == mem0[u] || u == t
          || (TableOk(mem0, info0, u) && TableOk(mem0, info0, t) && Under(info0[u], info0[t])))
  }

  predicate GoesTo(w: Translation, frame: nat, perm: bv64, attr: bv64) {
    w.Mapped? && w.frame == frame && w.permission == perm && w.attribute == attr
  }

  /** Pages lo..hi go to consecutive frames from `frame` on. */
  ghost predicate Linear(mem: Memory, info: map<nat, Place>, t: nat, lo: nat, hi: nat, frame: nat, perm: bv64,
                         attr: bv64)
    requires t in info && info[t].level <= 3
  {
    forall x: nat :: lo <= x < hi ==> GoesTo(WalkFrom(mem, info, t, x), frame + (x - lo), perm, attr)
  }

  /** Pages lo..hi fault. */
  ghost predicate Unmapped(mem: Memory, info: map<nat, Place>, t: nat, lo: nat, hi: nat)
    requires t in info && info[t].level <= 3
  {
    forall x: nat :: lo <= x < hi ==> WalkFrom(mem, info, t, x) == Fault
  }

  /** The leaf that translates page `x` covers pages of lo..hi as well. */
  ghost predicate Cut(w: Translation, x: nat, lo: nat, hi: nat) {
    w.Mapped? && lo < hi && First(Coord(x, w.level), w.level) < hi && lo < First(Coord(x, w.level) + 1, w.level)
  }

  /**
    Pages of `t` outside lo..hi translate as before, except that those whose leaf covers part
    of lo..hi fault, and those whose leaf covers part of lo..end may.
   */
  ghost predicate KeepsOthers(mem0: Memory, mem: Memory, info0: map<nat, Place>, t: nat, lo: nat, hi: nat, end: nat)
    requires t in info0 && PlaceOk(info0[t])
  {
    forall x: nat :: Belongs(x, info0[t]) && !(lo <= x < hi) ==>
      KeepsPage(WalkFrom(mem0, info0, t, x), WalkFrom(mem, info0, t, x), x, lo, hi, end)
  }

  ghost predicate KeepsPage(w0: Translation, w: Translation, x: nat, lo: nat, hi: nat, end: nat) {
    && (w == w0 || (w == Fault && Cut(w0, x, lo, end)))
    && (Cut(w0, x, lo, hi) ==> w == Fault)
  }

  /** Pages of `t` read through other descriptors than `i` translate as before. */
  ghost predicate KeepsSlots(mem0: Memory, mem: Memory, info0: map<nat, Place>, t: nat, i: nat)
    requires t in info0 && PlaceOk(info0[t])
  {
    forall x: nat :: Belongs(x, info0[t]) && Slot(x, info0[t]) != i ==>
      WalkFrom(mem, info0, t, x) == WalkFrom(mem0, info0, t, x)
  }

  // ---------------------------------------------------------------- one descriptor written

  /** A write to `t` leaves walks that start below its level alone. */
  lemma WriteBelow(mem: Memory, mem': Memory, info: map<nat, Place>, t: nat, c: nat, x: nat)
    requires Wf(mem, info) && t in mem && c in mem && info[c].level > info[t].level
    requires PlaceOk(info[c]) && Belongs(x, info[c])
    requires forall u :: u in mem && u != t ==> u in mem' && mem'[u] == mem[u]
    ensures WalkFrom(mem', info, c, x) == WalkFrom(mem, info, c, x)
  {
  }

  lemma WriteOtherSlots(mem: Memory, mem': Memory, info: map<nat, Place>, t: nat, i: nat)
    requires Wf(mem, info) && t in mem && PlaceOk(info[t]) && t in mem'
    requires |mem'[t]| == |mem[t]| && forall j :: 0 <= j < |mem[t]| && j != i ==> mem'[t][j] == mem[t][j]
    requires forall u :: u in mem && u != t ==> u in mem' && mem'[u] == mem[u]
    ensures KeepsSlots(mem, mem', info, t, i)
  {
    var p := info[t];
    forall x: nat | Belongs(x, p) && Slot(x, p) != i
      ensures WalkFrom(mem', info, t, x) == WalkFrom(mem, info, t, x)
    {
      WalkStep(mem, info, t, x);
      assert TableOk(mem, info, t);
      var j := Slot(x, p);
      if p.level < 3 && IsTable(mem[t][j]) {
        assert TableOk(mem, info, Target(mem[t][j]));
        WriteBelow(mem, mem', info, t, Target(mem[t][j]), x);
      }
    }
  }

  /** The leaf a builder writes, read by the walk of any page of its block. */
  lemma LeafRead(mem: Memory, info: map<nat, Place>, t: nat, i: nat, frame: nat, perm: bv64, device: bool, x: nat)
    requires t in mem && t in info && PlaceOk(info[t]) && |mem[t]| == info[t].count && i < |mem[t]|
    requires info[t].level >= 1 && frame < FRAME_LIMIT && TwoBits(perm)
    requires mem[t][i] == LeafWord(frame * PAGE_SIZE, perm, device, info[t].level)
    requires frame % Pages(info[t].level) == 0
    requires Slot(x, info[t]) == i
    ensures GoesTo(WalkFrom(mem, info, t, x), frame + x % Pages(info[t].level), perm, AttributeFor(device))
  {
    hide Fields, IsTable, LeafWord, TwoBits;
    LeafSurvives(frame, perm, device, info[t].level);
  }

  /** Writing a leaf over block `c`: its pages are mapped, other blocks keep their walks. */
  lemma WriteLeaf(mem: Memory, info: map<nat, Place>, t: nat, i: nat, frame: nat, perm: bv64, device: bool, c: nat)
    requires Wf(mem, info) && t in mem && i < |mem[t]| && PlaceOk(info[t]) && info[t].level >= 1
    requires frame % Pages(info[t].level) == 0 && frame < FRAME_LIMIT && TwoBits(perm)
    requires c == info[t].number * info[t].count + i
    ensures var l := info[t].level;
      var mem' := mem[t := mem[t][i := LeafWord(frame * PAGE_SIZE, perm, device, l)]];
      && Wf(mem', info) && Grows(mem, info, mem', info, t) && KeepsSlots(mem, mem', info, t, i)
      && Linear(mem', info, t, First(c, l), First(c + 1, l), frame, perm, AttributeFor(device))
  {
    hide Fields, IsTable, LeafWord, TwoBits, Walk, Target;
    var p := info[t];
    var l := p.level;
    assert TableOk(mem, info, t);
    var mem' := mem[t := mem[t][i := LeafWord(frame * PAGE_SIZE, perm, device, l)]];
    LeafSurvives(frame, perm, device, l);
    forall u | u in mem'
      ensures TableOk(mem', info, u)
    {
      assert TableOk(mem, info, u);
    }
    WriteOtherSlots(mem, mem', info, t, i);
    forall x: nat | First(c, l) <= x < First(c + 1, l)
      ensures GoesTo(WalkFrom(mem', info, t, x), frame + (x - First(c, l)), perm, AttributeFor(device))
    {
      CoordRange(x, l, c);
      DivStep(p.number, i, p.count);
      LeafRead(mem', info, t, i, frame, perm, device, x);
    }
  }

  /** A descriptor that is no table is the leaf of its whole block, or makes it fault. */
  lemma NoTableLeaf(mem: Memory, info: map<nat, Place>, t: nat, x: nat)
    requires t in mem && t in info && PlaceOk(info[t]) && info[t].level < 3 && |mem[t]| == info[t].count
    requires !IsTable(mem[t][Slot(x, info[t])])
    ensures WalkFrom(mem, info, t, x).Mapped? ==> WalkFrom(mem, info, t, x).level == info[t].level
  {
    hide Fields, IsTable, Target;
  }

  const ZEROS: seq<bv64> := seq(512, _ => 0)

  lemma EmptyTableFaults(mem: Memory, t: nat, level: nat, x: nat)
    requires level <= 3 && t in mem && mem[t] == ZEROS
    ensures Walk(mem, t, level, 512, x) == Fault
  {
    hide Fields, IsTable;
    NoKind();
  }

  lemma NoKind()
    ensures Fields(0).kind == 0 && !IsTable(0)
  {
    hide Value;
  }

  /** Putting a fresh empty table under descriptor `i`: its block faults, other blocks keep their walks. */
  lemma AddTable(mem: Memory, info: map<nat, Place>, t: nat, i: nat, page: nat)
    requires Wf(mem, info) && t in mem && i < |mem[t]| && PlaceOk(info[t]) && info[t].level < 3 && page !in mem
      && page < FRAME_LIMIT
    ensures var mem' := mem[page := ZEROS][t := mem[t][i := TableWord(page * PAGE_SIZE)]];
      var info' := info[page := ChildPlace(info[t], i)];
      && Wf(mem', info') && Grows(mem, info, mem', info', t) && KeepsSlots(mem, mem', info, t, i)
      && (forall x: nat :: Belongs(x, info[t]) && Slot(x, info[t]) == i ==> WalkFrom(mem', info', t, x) == Fault)
      && Target(TableWord(page * PAGE_SIZE)) == page && IsTable(TableWord(page * PAGE_SIZE))
  {
    hide Fields, IsTable, TableWord, Target;
    TableSurvives(page);
    NoKind();
    var p := info[t];
    assert TableOk(mem, info, t);
    var mem' := mem[page := ZEROS][t := mem[t][i := TableWord(page * PAGE_SIZE)]];
    var info' := info[page := ChildPlace(p, i)];
    forall u | u in mem'
      ensures TableOk(mem', info', u)
    {
      if u != page { assert TableOk(mem, info, u); }
    }
    WriteOtherSlots(mem, mem', info, t, i);
    forall x: nat | Belongs(x, p) && Slot(x, p) == i
      ensures WalkFrom(mem', info', t, x) == Fault
    {
      EmptyTableFaults(mem', page, p.level + 1, x);
    }
  }

  // ---------------------------------------------------------------- work done in a child table

  /** A child table's changes leave pages of its siblings alone. */
  lemma ChildKeepsSlots(mem: Memory, info: map<nat, Place>, mem': Memory, info': map<nat, Place>, t: nat, i: nat,
                        c: nat)
    requires Wf(mem, info) && t in mem && i < |mem[t]| && PlaceOk(info[t]) && info[t].level < 3
    requires IsTable(mem[t][i]) && Target(mem[t][i]) == c && c in mem && info[c] == ChildPlace(info[t], i)
    requires Grows(mem, info, mem', info', c)
    ensures mem'[t] == mem[t] && KeepsSlots(mem, mem', info, t, i) && Grows(mem, info, mem', info', t)
  {
    var p := info[t];
    assert TableOk(mem, info, t) && TableOk(mem, info, c);
    assert mem'[t] == mem[t];
    forall x: nat | Belongs(x, p) && Slot(x, p) != i
      ensures WalkFrom(mem', info, t, x) == WalkFrom(mem, info, t, x)
    {
      assert SameFor(mem, mem', info, p.level, x) by {
        forall u | u in mem && info[u].level >= p.level && Belongs(x, info[u])
          ensures u in mem' && mem'[u] == mem[u]
        {
          ChildOnly(mem, info, mem', info', t, i, c, x, u);
        }
      }
      WalkFrame(mem, mem', info, t, x);
    }
    forall u | u in mem
      ensures mem'[u] == mem[u] || u == t || (TableOk(mem, info, u) && Under(info[u], p))
    {
      assert TableOk(mem, info, u);
      if mem'[u] != mem[u] {
        forall x: nat | Belongs(x, info[u])
          ensures Belongs(x, p)
        {
          BelongsUp(x, p, i);
        }
      }
    }
  }

  /** A table that a page of another slot can visit is not among those changed. */
  lemma ChildOnly(mem: Memory, info: map<nat, Place>, mem': Memory, info': map<nat, Place>, t: nat, i: nat, c: nat,
                  x: nat, u: nat)
    requires Wf(mem, info) && t in mem && i < |mem[t]| && PlaceOk(info[t]) && info[t].level < 3
      && |mem[t]| == info[t].count
    requires c in mem && info[c] == ChildPlace(info[t], i)
    requires Grows(mem, info, mem', info', c)
    requires Slot(x, info[t]) != i
    requires u in mem && PlaceOk(info[u]) && Belongs(x, info[u])
    ensures u in mem' && mem'[u] == mem[u]
  {
    if Belongs(x, ChildPlace(info[t], i)) { BelongsUp(x, info[t], i); }
  }

  // ---------------------------------------------------------------- leaves across the ends of a range

  /** The leaf that translates page `x` of lo..hi covers a page below `pages` outside of it. */
  ghost predicate Overhangs(w: Translation, x: nat, lo: nat, hi: nat, pages: nat) {
    w.Mapped? && (First(Coord(x, w.level), w.level) < lo || (hi < pages && hi < First(Coord(x, w.level) + 1, w.level)))
  }

  /** Pages are translated by one leaf if they are in its block. */
  lemma LeafShared(mem: Memory, info: map<nat, Place>, t: nat, x: nat, y: nat)
    requires t in info && info[t].level <= 3 && WalkFrom(mem, info, t, x).Mapped?
    ensures var w := WalkFrom(mem, info, t, x); var c := Coord(x, w.level);
      && First(c, w.level) <= x < First(c + 1, w.level)
      && (First(c, w.level) <= y < First(c + 1, w.level) ==>
            WalkFrom(mem, info, t, y).Mapped? && WalkFrom(mem, info, t, y).level == w.level && Coord(y, w.level) == c)
  {
    hide Walk, First, Coord, Pages;
    var w := WalkFrom(mem, info, t, x);
    CoordRange(x, w.level, Coord(x, w.level));
    CoordRange(y, w.level, Coord(x, w.level));
    if Coord(y, w.level) == Coord(x, w.level) {
      SameLeaf(mem, t, info[t].level, info[t].count, x, y);
    }
  }

  /**
    A leaf that covers a page outside lo..hi and pages of it also covers its first or its last
    page, and overhangs there.
   */
  lemma CutOverhangs(mem: Memory, info: map<nat, Place>, t: nat, lo: nat, hi: nat, pages: nat, x: nat)
    requires t in info && info[t].level <= 3 && lo < hi && x < pages && !(lo <= x < hi)
    requires Cut(WalkFrom(mem, info, t, x), x, lo, hi)
    ensures Overhangs(WalkFrom(mem, info, t, lo), lo, lo, hi, pages)
      || Overhangs(WalkFrom(mem, info, t, hi - 1), hi - 1, lo, hi, pages)
  {
    hide Walk, First, Coord, Pages;
    LeafShared(mem, info, t, x, lo);
    LeafShared(mem, info, t, x, hi - 1);
  }

  /** And where the leaf of page `x` of lo..hi overhangs, there is a page outside whose leaf it is. */
  lemma OverhangCuts(mem: Memory, info: map<nat, Place>, t: nat, lo: nat, hi: nat, pages: nat, x: nat) returns (y: nat)
    requires t in info && info[t].level <= 3 && lo <= x < hi <= pages
      && Overhangs(WalkFrom(mem, info, t, x), x, lo, hi, pages)
    ensures y < pages && !(lo <= y < hi) && Cut(WalkFrom(mem, info, t, y), y, lo, hi)
  {
    hide Walk, First, Coord, Pages;
    var w := WalkFrom(mem, info, t, x);
    y := if First(Coord(x, w.level), w.level) < lo then lo - 1 else hi;
    LeafShared(mem, info, t, x, y);
  }

  /** In an unmapped range there is nothing to cut. */
  lemma UnmappedNotCut(mem: Memory, info: map<nat, Place>, t: nat, lo: nat, hi: nat, x: nat)
    requires t in info && info[t].level <= 3 && Unmapped(mem, info, t, lo, hi)
    ensures !Cut(WalkFrom(mem, info, t, x), x, lo, hi)
  {
    hide Walk, First, Coord, Pages;
    var w := WalkFrom(mem, info, t, x);
    if Cut(w, x, lo, hi) {
      var first := First(Coord(x, w.level), w.level);
      LeafShared(mem, info, t, x, if first < lo then lo else first);
    }
  }
}
