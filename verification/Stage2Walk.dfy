/**
  The hardware's Stage 2 table walk (Arm ARM DDI 0487, section D8.2), page by page: an
  intermediate physical page number goes to a physical page number with a permission
  and a memory type, or faults. Tables are named by their page number.
 */
module Stage2Walk {
  import opened Arith
  import opened Stage2Descriptors

  /** Tables of 64-bit words, by page number. */
  type Memory = map<nat, seq<bv64>>

  /** `level`: that of the leaf, whose block the page shares its fate with. */
  datatype Translation = Fault | Mapped(frame: nat, permission: bv64, attribute: bv64, level: nat)

  /** Pages covered by one descriptor: 512 GiB, 1 GiB, 2 MiB or 4 KiB. */
  function Pages(level: nat): (p: nat)
    ensures p > 0
  {
    if level == 0 then 0x800_0000 else if level == 1 then 0x4_0000 else if level == 2 then 0x200 else 1
  }

  /** The number of the level's block that holds page `x`. */
  function Coord(x: nat, level: nat): nat { x / Pages(level) }

  /** First page of block `c`. */
  function First(c: nat, level: nat): nat {
    if level == 0 then c * 0x800_0000 else if level == 1 then c * 0x4_0000 else if level == 2 then c * 0x200 else c
  }

  function Walk(mem: Memory, t: nat, level: nat, count: nat, x: nat): (w: Translation)
    requires level <= 3
    ensures w.Mapped? ==> level <= w.level <= 3 && w.level >= 1
    decreases 3 - level
  {
    if t !in mem || |mem[t]| != count || count == 0 then Fault
    else
      var word := mem[t][Coord(x, level) % count];
      if level < 3 && IsTable(word) then Walk(mem, Target(word), level + 1, 512, x)
      else LeafOf(Fields(word), level, x)
  }

  /** What a descriptor that leads to no further table makes of page `x`. */
  function LeafOf(d: Descriptor, level: nat, x: nat): Translation {
    if level == 3 then if d.kind == 3 && d.af == 1 then Mapped(d.frame, d.ap, d.attr, 3) else Fault
    else if 1 <= level < 3 && d.kind == 1 && d.af == 1 then
      Mapped(First(Coord(d.frame, level), level) + x % Pages(level), d.ap, d.attr, level)
    else Fault
  }

  // ---------------------------------------------------------------- geometry

  lemma FirstIs(c: nat, level: nat)
    requires level <= 3
    ensures First(c, level) == c * Pages(level)
    ensures First(c + 1, level) == First(c, level) + Pages(level)
  {
  }

  /** Block `c` is a run of pages. */
  lemma CoordRange(x: nat, level: nat, c: nat)
    requires level <= 3
    ensures Coord(x, level) == c <==> First(c, level) <= x < First(c + 1, level)
    ensures Coord(x, level) == c ==> x % Pages(level) == x - First(c, level)
  {
  }

  /** A block of one level is 512 blocks of the next. */
  lemma CoordUp(x: nat, level: nat)
    requires level < 3
    ensures Coord(x, level) == Coord(x, level + 1) / 512
  {
  }

  // ---------------------------------------------------------------- where a table sits

  /**
    A table of `count` descriptors at `level`, covering blocks number * count up to
    (number + 1) * count of that level.
   */
  datatype Place = Place(level: nat, number: nat, count: nat)

  /** The walk of page `x` may visit a table at this place. */
  predicate Belongs(x: nat, p: Place)
    requires p.count > 0
  {
    Coord(x, p.level) / p.count == p.number
  }

  ghost predicate PlaceOk(p: Place) {
    p.level <= 3 && p.count > 0
  }

  function ChildPlace(p: Place, i: nat): Place {
    Place(p.level + 1, p.number * p.count + i, 512)
  }

  /** `info` gives each table its place, and table descriptors lead to the right place. */
  ghost predicate TableOk(mem: Memory, info: map<nat, Place>, t: nat) {
    && t in mem && t in info && PlaceOk(info[t]) && |mem[t]| == info[t].count
    && (forall i :: 0 <= i < |mem[t]| && info[t].level < 3 && IsTable(mem[t][i]) ==>
          Target(mem[t][i]) in mem && Target(mem[t][i]) in info && info[Target(mem[t][i])] == ChildPlace(info[t], i))
  }

  ghost predicate Wf(mem: Memory, info: map<nat, Place>) {
    mem.Keys == info.Keys && forall t :: t in mem ==> TableOk(mem, info, t)
  }

  /** A page goes on to the table its descriptor names. */
  lemma BelongsDown(x: nat, p: Place)
    requires PlaceOk(p) && p.level < 3 && Belongs(x, p)
    ensures Belongs(x, ChildPlace(p, Coord(x, p.level) % p.count))
    ensures Coord(x, p.level) == p.number * p.count + Coord(x, p.level) % p.count
  {
    hide Coord;
    CoordUp(x, p.level);
    var c := Coord(x, p.level);
    assert c == p.count * (c / p.count) + c % p.count;
  }

  /** A page of a child table is a page of the one block its parent's descriptor covers. */
  lemma BelongsUp(x: nat, p: Place, i: nat)
    requires PlaceOk(p) && p.level < 3 && i < p.count && Belongs(x, ChildPlace(p, i))
    ensures Coord(x, p.level) == p.number * p.count + i && Belongs(x, p) && Coord(x, p.level) % p.count == i
  {
    CoordUp(x, p.level);
    DivStep(p.number, i, p.count);
  }

  // ---------------------------------------------------------------- what a walk depends on

  /** Tables that page `x` can visit from `level` down are the same in both memories. */
  ghost predicate SameFor(mem: Memory, mem': Memory, info: map<nat, Place>, level: nat, x: nat)
    requires Wf(mem, info)
  {
    forall u :: u in mem && info[u].level >= level && Belongs(x, info[u]) ==> u in mem' && mem'[u] == mem[u]
  }

  lemma {:induction false} WalkFrame(mem: Memory, mem': Memory, info: map<nat, Place>, t: nat, x: nat)
    requires Wf(mem, info) && t in mem && Belongs(x, info[t])
    requires SameFor(mem, mem', info, info[t].level, x)
    ensures Walk(mem', t, info[t].level, info[t].count, x) == Walk(mem, t, info[t].level, info[t].count, x)
    decreases 3 - info[t].level
  {
    var p := info[t];
    assert TableOk(mem, info, t);
    var i := Coord(x, p.level) % p.count;
    if p.level < 3 && IsTable(mem[t][i]) {
      BelongsDown(x, p);
      WalkFrame(mem, mem', info, Target(mem[t][i]), x);
    }
  }

  /** One step of the walk from a well-formed table. */
  lemma WalkStep(mem: Memory, info: map<nat, Place>, t: nat, x: nat)
    requires Wf(mem, info) && t in mem && Belongs(x, info[t])
    ensures var p := info[t]; var i := Coord(x, p.level) % p.count;
      && i < |mem[t]|
      && (p.level < 3 && IsTable(mem[t][i]) ==>
            && Target(mem[t][i]) in mem && info[Target(mem[t][i])] == ChildPlace(p, i)
            && Belongs(x, ChildPlace(p, i))
            && Walk(mem, t, p.level, p.count, x) == Walk(mem, Target(mem[t][i]), p.level + 1, 512, x))
  {
    hide Fields, IsTable, Target, LeafOf, Belongs, Coord;
    assert TableOk(mem, info, t);
    if info[t].level < 3 { BelongsDown(x, info[t]); }
  }

  // ---------------------------------------------------------------- the pages of one leaf

  lemma CoordNest(x: nat, y: nat, level: nat, leaf: nat)
    requires level <= leaf <= 3 && Coord(x, leaf) == Coord(y, leaf)
    ensures Coord(x, level) == Coord(y, level)
  {
    if level < leaf {
      CoordUp(x, leaf - 1);
      CoordUp(y, leaf - 1);
      CoordNest(x, y, level, leaf - 1);
    }
  }

  /** All pages of a leaf's block are translated by that leaf. */
  lemma {:induction false} SameLeaf(mem: Memory, t: nat, level: nat, count: nat, x: nat, y: nat)
    requires level <= 3 && Walk(mem, t, level, count, x).Mapped?
    requires var l := Walk(mem, t, level, count, x).level; Coord(x, l) == Coord(y, l)
    ensures Walk(mem, t, level, count, y).Mapped?
      && Walk(mem, t, level, count, y).level == Walk(mem, t, level, count, x).level
    decreases 3 - level
  {
    hide Fields, IsTable, Target, Coord, First, Pages;
    CoordNest(x, y, level, Walk(mem, t, level, count, x).level);
    var word := mem[t][Coord(x, level) % count];
    if level < 3 && IsTable(word) {
      SameLeaf(mem, Target(word), level + 1, 512, x, y);
    }
  }
}
