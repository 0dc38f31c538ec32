/**
  Stage 2 translation for a virtual machine, in bytes: the register that fixes the shape
  of the first table, mapping a range into a table, and the tables of a new machine.
 */
module Stage2Paging {
  import opened Alignment
  import opened Arith
  import opened Common
  import opened Stage2Build
  import opened Stage2Descriptors
  import opened Stage2Map
  import opened Stage2Walk

  // ---------------------------------------------------------------- the first table

  /** The input size up to which one table is enough, as a T0SZ value. */
  function SingleTableSize(level: nat): (n: nat)
    requires level <= 3
    ensures 16 <= n <= 43
  {
    43 - (3 - level) * 9
  }

  function NumberOfConcatenatedPageTables(t0sz: nat, level: nat): nat
    requires level <= 3
  {
    if t0sz > SingleTableSize(level) then 1 else Pow2(SingleTableSize(level) - t0sz)
  }

  /** Pages in an input address space of 64 - t0sz bits. */
  ghost function InputPages(t0sz: nat): nat
    requires t0sz <= 52
  {
    Pow2(52 - t0sz)
  }

  lemma {:induction false} Pow2Add(a: nat, b: nat)
    ensures Pow2(a + b) == Pow2(a) * Pow2(b)
  {
    if a > 0 { Pow2Add(a - 1, b); }
  }

  /** What one table of a level reaches. */
  lemma TableReach(level: nat)
    requires level <= 3
    ensures 512 * Pages(level) == Pow2(52 - SingleTableSize(level))
  {
    assert Pow2(9) == 512;
    Pow2Add(9, 9);
    Pow2Add(9, 18);
    Pow2Add(9, 27);
  }

  lemma Times(n: nat, p: nat)
    ensures n * 512 * p == n * (512 * p)
  {
  }

  /** The concatenated tables reach every input address, and no more of them are made than that takes. */
  lemma ConcatenationCovers(t0sz: nat, level: nat)
    requires level <= 3 && t0sz <= 52
    ensures var reach := NumberOfConcatenatedPageTables(t0sz, level) * 512 * Pages(level);
      InputPages(t0sz) <= reach && (NumberOfConcatenatedPageTables(t0sz, level) > 1 ==> InputPages(t0sz) == reach)
  {
    hide Pow2, Pages, SingleTableSize;
    var s, n := SingleTableSize(level), NumberOfConcatenatedPageTables(t0sz, level);
    TableReach(level);
    Times(n, Pages(level));
    if t0sz > s {
      Pow2Mono(52 - t0sz, 52 - s);
    } else {
      Pow2Add(s - t0sz, 52 - s);
    }
  }

  // ---------------------------------------------------------------- VTCR_EL2

  /** T0SZ and the level of the first lookup for a physical address range. */
  function LookupFor(ps: bv64): (r: (bv64, nat))
    ensures r.0 <= 32 && r.1 <= 1
  {
    if ps == 0 then (32, 1) else if ps == 1 then (28, 1) else if ps == 2 then (24, 1) else if ps == 3 then (22, 1)
    else if ps == 4 then (20, 0) else (16, 0)
  }

  function VtcrFor(ps: bv64): bv64 {
    var (t0sz, level) := LookupFor(ps);
    var sl0: bv64 := if level == 1 then 1 else 2;
    0x8000_0000 | (ps << 16) | (3 << 12) | (3 << 10) | (3 << 8) | (sl0 << 6) | t0sz
  }

  function LevelOf(vtcr: bv64): (level: nat)
    ensures level <= 3
  {
    var sl0 := (vtcr & 0xC0) >> 6;
    if sl0 == 0 then 2 else if sl0 == 1 then 1 else if sl0 == 2 then 0 else 3
  }

  function T0szOf(vtcr: bv64): bv64 { vtcr & 0x3F }

  /** The mapping code reads back from VTCR_EL2 the very lookup the table was created for. */
  lemma VtcrRoundTrip(ps: bv64)
    requires ps < 16
    ensures LevelOf(VtcrFor(ps)) == LookupFor(ps).1 && T0szOf(VtcrFor(ps)) == LookupFor(ps).0
  {
  }

  /** Bits of the physical addresses of a PARange code, as the architecture numbers them. */
  function PhysicalBits(ps: bv64): bv64
    requires ps <= 5
  {
    if ps == 0 then 32 else if ps == 1 then 36 else if ps == 2 then 40 else if ps == 3 then 42
    else if ps == 4 then 44 else 48
  }

  /**
    The register asks for input addresses as wide as the physical ones, 4 KiB pages, and
    inner-shareable write-back walks; every field is where the hardware looks for it.
   */
  lemma VtcrFields(ps: bv64)
    requires ps <= 5
    ensures var v := VtcrFor(ps);
      && v & 0x3F == 64 - PhysicalBits(ps) && (v >> 16) & 7 == ps && (v >> 14) & 3 == 0
      && (v >> 12) & 3 == 3 && (v >> 10) & 3 == 3 && (v >> 8) & 3 == 3 && v >> 31 == 1
  {
  }

  /** SL0 counts the start level down from 2; its value 3 stands for level 3. */
  lemma StartLevel(vtcr: bv64)
    ensures LevelOf(vtcr) == 0 <==> (vtcr >> 6) & 3 == 2
    ensures LevelOf(vtcr) == 1 <==> (vtcr >> 6) & 3 == 1
    ensures LevelOf(vtcr) == 2 <==> (vtcr >> 6) & 3 == 0
    ensures LevelOf(vtcr) == 3 <==> (vtcr >> 6) & 3 == 3
  {
  }

  // ---------------------------------------------------------------- bytes

  datatype Access = NoAccess | Access(address: nat, permission: bv64, attribute: bv64)

  /** What the hardware makes of intermediate physical address `a`, walking from a first table. */
  function Translate(mem: Memory, root: nat, place: Place, a: nat): Access
    requires place.level <= 3
  {
    match Walk(mem, root, place.level, place.count, a / PAGE_SIZE)
    case Fault => NoAccess
    case Mapped(frame, permission, attribute, _) => Access(frame * PAGE_SIZE + a % PAGE_SIZE, permission, attribute)
  }

  function RootPlace(vtcr: bv64): Place {
    Place(LevelOf(vtcr), 0, NumberOfConcatenatedPageTables(T0szOf(vtcr) as nat, LevelOf(vtcr)) * 512)
  }

  /** One past the last byte the hardware can translate. */
  ghost function InputSize(vtcr: bv64): nat
    requires T0szOf(vtcr) <= 52
  {
    InputPages(T0szOf(vtcr) as nat) * PAGE_SIZE
  }

  function Permission(readable: bool, writable: bool): (permission: bv64)
    ensures TwoBits(permission) && (permission & 1 == 1 <==> readable) && (permission & 2 == 2 <==> writable)
  {
    (if writable then 2 else 0) | (if readable then 1 else 0)
  }

  lemma RootBelongs(vtcr: bv64)
    requires T0szOf(vtcr) <= 52
    ensures PlaceOk(RootPlace(vtcr))
    ensures InputPages(T0szOf(vtcr) as nat) <= EndOf(RootPlace(vtcr))
    ensures forall x: nat :: x < InputPages(T0szOf(vtcr) as nat) ==> Belongs(x, RootPlace(vtcr))
  {
    hide Pow2, Pages, First, LevelOf, T0szOf, NumberOfConcatenatedPageTables;
    var p := RootPlace(vtcr);
    ConcatenationCovers(T0szOf(vtcr) as nat, p.level);
    FirstIs(p.count, p.level);
    AtLeastOne(T0szOf(vtcr) as nat, p.level);
    forall x: nat | x < InputPages(T0szOf(vtcr) as nat)
      ensures Belongs(x, p)
    {
      RootCoord(x, p);
    }
  }

  lemma AtLeastOne(t0sz: nat, level: nat)
    requires level <= 3
    ensures NumberOfConcatenatedPageTables(t0sz, level) > 0
  {
  }

  lemma RootCoord(x: nat, p: Place)
    requires PlaceOk(p) && p.number == 0 && x < p.count * Pages(p.level)
    ensures Belongs(x, p)
  {
    hide Pages;
    var q, n := Coord(x, p.level), Pages(p.level);
    assert x == n * q + x % n;
    if q >= p.count {
      TimesMore(n, q, p.count);
    }
    DivStep(0, q, p.count);
  }

  lemma TimesMore(n: nat, q: nat, c: nat)
    requires q >= c
    ensures n * q >= c * n
  {
  }

  /** Bytes of a page-aligned range are the bytes of its pages. */
  lemma PageOf(a: nat, lo: nat, hi: nat)
    ensures lo * PAGE_SIZE <= a < hi * PAGE_SIZE <==> lo <= a / PAGE_SIZE < hi
    ensures a == a / PAGE_SIZE * PAGE_SIZE + a % PAGE_SIZE
  {
  }

  /** The hardware grants access at `to`: S2AP bit 0 allows reads and bit 1 writes; MemAttr 0 is device memory. */
  ghost predicate Grants(w: Access, to: nat, readable: bool, writable: bool, device: bool) {
    && w.Access? && w.address == to && (w.permission & 1 == 1 <==> readable) && (w.permission & 2 == 2 <==> writable)
    && w.attribute == if device then 0 else 0xF
  }

  /** Bytes lo..hi go to consecutive physical bytes, with these rights and this memory type. */
  ghost predicate GrantsBytes(mem: Memory, root: nat, place: Place, lo: nat, hi: nat, to: nat, readable: bool,
                              writable: bool, device: bool)
    requires place.level <= 3
  {
    forall a: nat :: lo <= a < hi ==> Grants(Translate(mem, root, place, a), to + (a - lo), readable, writable, device)
  }

  lemma LinearGrants(mem: Memory, root: nat, place: Place, lo: nat, hi: nat, to: nat, readable: bool, writable: bool,
                     device: bool)
    requires place.level <= 3
    requires LinearBytes(mem, root, place, lo, hi, to, Permission(readable, writable), AttributeFor(device))
    ensures GrantsBytes(mem, root, place, lo, hi, to, readable, writable, device)
  {
    hide Walk, Permission, Translate;
  }

  /** Bytes lo..hi go to consecutive physical bytes. */
  ghost predicate LinearBytes(mem: Memory, root: nat, place: Place, lo: nat, hi: nat, to: nat, perm: bv64, attr: bv64)
    requires place.level <= 3
  {
    forall a: nat :: lo <= a < hi ==> Translate(mem, root, place, a) == Access(to + (a - lo), perm, attr)
  }

  ghost predicate UnmappedBytes(mem: Memory, root: nat, place: Place, lo: nat, hi: nat)
    requires place.level <= 3
  {
    forall a: nat :: lo <= a < hi ==> Translate(mem, root, place, a) == NoAccess
  }

  /** Input addresses outside lo..hi translate as before. */
  ghost predicate KeepsOtherBytes(mem0: Memory, mem: Memory, root: nat, place: Place, size: nat, lo: nat, hi: nat)
    requires place.level <= 3
  {
    forall a: nat :: a < size && !(lo <= a < hi) ==> Translate(mem, root, place, a) == Translate(mem0, root, place, a)
  }

  lemma UnmappedPages(mem: Memory, info: map<nat, Place>, root: nat, lo: nat, hi: nat)
    requires root in info && info[root].level <= 3
    requires UnmappedBytes(mem, root, info[root], lo * PAGE_SIZE, hi * PAGE_SIZE)
    ensures Unmapped(mem, info, root, lo, hi)
  {
    hide Walk;
    forall x: nat | lo <= x < hi
      ensures WalkFrom(mem, info, root, x) == Fault
    {
      PageOf(x * PAGE_SIZE, lo, hi);
      assert Translate(mem, root, info[root], x * PAGE_SIZE) == NoAccess;
    }
  }

  /** The leaf that translates byte `a` covers bytes of lo..hi as well. */
  ghost predicate CutBytes(mem: Memory, root: nat, place: Place, a: nat, lo: nat, hi: nat)
    requires place.level <= 3
  {
    Cut(Walk(mem, root, place.level, place.count, a / PAGE_SIZE), a / PAGE_SIZE, lo / PAGE_SIZE, hi / PAGE_SIZE)
  }

  /**
    Input addresses outside lo..hi translate as before, except that those whose leaf covered
    part of lo..hi are lost, and those whose leaf covered part of lo..end may be.
   */
  ghost predicate LosesOnlyCut(mem0: Memory, mem: Memory, root: nat, place: Place, size: nat, lo: nat, hi: nat,
                               end: nat)
    requires place.level <= 3
  {
    forall a: nat :: a < size && !(lo <= a < hi) ==>
      && (|| Translate(mem, root, place, a) == Translate(mem0, root, place, a)
          || (Translate(mem, root, place, a) == NoAccess && CutBytes(mem0, root, place, a, lo, end)))
      && (CutBytes(mem0, root, place, a, lo, hi) ==> Translate(mem, root, place, a) == NoAccess)
  }

  /** The leaf of the first or of the last byte of lo..hi reaches an input address outside: two walks tell. */
  ghost predicate OverhangsBytes(mem: Memory, root: nat, place: Place, lo: nat, hi: nat, size: nat)
    requires place.level <= 3 && lo < hi
  {
    var x, y := lo / PAGE_SIZE, (hi - 1) / PAGE_SIZE;
    || Overhangs(Walk(mem, root, place.level, place.count, x), x, x, y + 1, size / PAGE_SIZE)
    || Overhangs(Walk(mem, root, place.level, place.count, y), y, x, y + 1, size / PAGE_SIZE)
  }

  /** Pages mapped linearly are bytes mapped linearly. */
  lemma MapsBytes(m0: Memory, i0: map<nat, Place>, m1: Memory, i1: map<nat, Place>, root: nat, lo: nat, hi: nat,
                  end: nat,
                  frame: nat, perm: bv64, attr: bv64, pages: nat)
    requires Wf(m0, i0) && root in m0 && root in i0 && PlaceOk(i0[root]) && lo <= hi <= end
    requires Maps(m0, i0, m1, i1, root, lo, hi, end, frame, perm, attr)
    requires forall x: nat :: x < pages ==> Belongs(x, i0[root])
    ensures root in i1 && i1[root] == i0[root]
    ensures LinearBytes(m1, root, i0[root], lo * PAGE_SIZE, hi * PAGE_SIZE, frame * PAGE_SIZE, perm, attr)
    ensures LosesOnlyCut(m0, m1, root, i0[root], pages * PAGE_SIZE, lo * PAGE_SIZE, hi * PAGE_SIZE, end * PAGE_SIZE)
  {
    hide Walk, Wf, Grows, Belongs, Cut;
    forall a: nat | lo * PAGE_SIZE <= a < hi * PAGE_SIZE
      ensures Translate(m1, root, i0[root], a) == Access(frame * PAGE_SIZE + (a - lo * PAGE_SIZE), perm, attr)
    {
      PageOf(a, lo, hi);
      assert GoesTo(WalkFrom(m1, i1, root, a / PAGE_SIZE), frame + (a / PAGE_SIZE - lo), perm, attr);
    }
    forall a: nat | a < pages * PAGE_SIZE && !(lo * PAGE_SIZE <= a < hi * PAGE_SIZE)
      ensures || Translate(m1, root, i0[root], a) == Translate(m0, root, i0[root], a)
              || (Translate(m1, root, i0[root], a) == NoAccess
                  && CutBytes(m0, root, i0[root], a, lo * PAGE_SIZE, end * PAGE_SIZE))
      ensures CutBytes(m0, root, i0[root], a, lo * PAGE_SIZE, hi * PAGE_SIZE) ==>
        Translate(m1, root, i0[root], a) == NoAccess
    {
      PageOf(a, lo, hi);
      PageOf(a, 0, pages);
      DivStep(lo, 0, PAGE_SIZE); DivStep(hi, 0, PAGE_SIZE); DivStep(end, 0, PAGE_SIZE);
      assert KeepsPage(WalkFrom(m0, i0, root, a / PAGE_SIZE), WalkFrom(m1, i0, root, a / PAGE_SIZE), a / PAGE_SIZE,
        lo, hi, end);
    }
  }

  /** If nothing was mapped in the whole range, nothing is lost. */
  lemma UnmappedKeeps(m0: Memory, m1: Memory, i0: map<nat, Place>, root: nat, lo: nat, hi: nat, end: nat, size: nat)
    requires root in i0 && i0[root].level <= 3
    requires UnmappedBytes(m0, root, i0[root], lo * PAGE_SIZE, end * PAGE_SIZE)
    requires LosesOnlyCut(m0, m1, root, i0[root], size, lo * PAGE_SIZE, hi * PAGE_SIZE, end * PAGE_SIZE)
    ensures KeepsOtherBytes(m0, m1, root, i0[root], size, lo * PAGE_SIZE, hi * PAGE_SIZE)
  {
    hide Walk, Cut;
    UnmappedPages(m0, i0, root, lo, end);
    forall a: nat | a < size && !(lo * PAGE_SIZE <= a < hi * PAGE_SIZE)
      ensures Translate(m1, root, i0[root], a) == Translate(m0, root, i0[root], a)
    {
      DivStep(lo, 0, PAGE_SIZE); DivStep(end, 0, PAGE_SIZE);
      UnmappedNotCut(m0, i0, root, lo, end, a / PAGE_SIZE);
    }
  }

  /** A mapped range leaves all other addresses alone exactly if no leaf it overlaps reaches beyond it. */
  lemma KeepsUnlessOverhang(m0: Memory, m1: Memory, i0: map<nat, Place>, root: nat, lo: nat, hi: nat, pages: nat)
    requires root in i0 && i0[root].level <= 3 && lo < hi <= pages
    requires LosesOnlyCut(m0, m1, root, i0[root], pages * PAGE_SIZE, lo * PAGE_SIZE, hi * PAGE_SIZE, hi * PAGE_SIZE)
    ensures KeepsOtherBytes(m0, m1, root, i0[root], pages * PAGE_SIZE, lo * PAGE_SIZE, hi * PAGE_SIZE)
       <==> !OverhangsBytes(m0, root, i0[root], lo * PAGE_SIZE, hi * PAGE_SIZE, pages * PAGE_SIZE)
  {
    hide Walk, Cut, Overhangs;
    var place := i0[root];
    DivStep(lo, 0, PAGE_SIZE); DivStep(hi, 0, PAGE_SIZE); DivStep(hi - 1, PAGE_SIZE - 1, PAGE_SIZE); DivStep(pages, 0,
      PAGE_SIZE);
    if OverhangsBytes(m0, root, place, lo * PAGE_SIZE, hi * PAGE_SIZE, pages * PAGE_SIZE) {
      var x := if Overhangs(WalkFrom(m0, i0, root, lo), lo, lo, hi, pages) then lo else hi - 1;
      var y := OverhangCuts(m0, i0, root, lo, hi, pages, x);
      LostPage(m0, m1, i0, root, lo, hi, pages, y);
    } else {
      forall a: nat | a < pages * PAGE_SIZE && !(lo * PAGE_SIZE <= a < hi * PAGE_SIZE)
        ensures Translate(m1, root, place, a) == Translate(m0, root, place, a)
      {
        PageOf(a, lo, hi);
        PageOf(a, 0, pages);
        if Cut(WalkFrom(m0, i0, root, a / PAGE_SIZE), a / PAGE_SIZE, lo, hi) {
          CutOverhangs(m0, i0, root, lo, hi, pages, a / PAGE_SIZE);
        }
      }
    }
  }

  lemma LostPage(m0: Memory, m1: Memory, i0: map<nat, Place>, root: nat, lo: nat, hi: nat, pages: nat, y: nat)
    requires root in i0 && i0[root].level <= 3 && y < pages && !(lo <= y < hi)
      && Cut(WalkFrom(m0, i0, root, y), y, lo, hi)
    requires LosesOnlyCut(m0, m1, root, i0[root], pages * PAGE_SIZE, lo * PAGE_SIZE, hi * PAGE_SIZE, hi * PAGE_SIZE)
    ensures !KeepsOtherBytes(m0, m1, root, i0[root], pages * PAGE_SIZE, lo * PAGE_SIZE, hi * PAGE_SIZE)
  {
    hide Walk;
    var a := y * PAGE_SIZE;
    DivStep(y, 0, PAGE_SIZE); DivStep(lo, 0, PAGE_SIZE); DivStep(hi, 0, PAGE_SIZE);
    PageOf(a, lo, hi);
    PageOf(a, 0, pages);
    assert CutBytes(m0, root, i0[root], a, lo * PAGE_SIZE, hi * PAGE_SIZE);
    assert Translate(m1, root, i0[root], a) != Translate(m0, root, i0[root], a);
  }

  // ---------------------------------------------------------------- mapping a range

  /**
    Maps `size` bytes at intermediate physical address `ipa` to physical address `pa`. On
    success the whole range is mapped; when the tables run out of pages, the first `done`
    bytes of it are. Other addresses are lost exactly if their leaf covered part of the range,
    so that none is if the range was unmapped, or if the leaves at its two ends do not reach
    beyond it.
   */
  method MapAddressStage2Internal(s: Stage2Tables, root: nat, pa: nat, ipa: nat, size: nat,
                                  readable: bool, writable: bool, device: bool, vtcr: bv64)
    returns (r: Result<(), ()>, ghost done: nat)
    requires s.Valid() && root in s.mem && root in s.info && s.info[root] == RootPlace(vtcr) && T0szOf(vtcr) <= 52
    requires pa % PAGE_SIZE == 0 && ipa % PAGE_SIZE == 0 && size > 0
    requires ipa + size <= InputSize(vtcr) && pa + size <= ADDRESS_LIMIT
    modifies s
    ensures s.Valid() && root in s.mem && root in s.info && s.info[root] == RootPlace(vtcr)
    ensures size % PAGE_SIZE != 0 ==> r.Err? && s.mem == old(s.mem) && s.pages == old(s.pages)
    ensures done <= size && (r.Ok? ==> done == size)
    ensures r.Err? ==> size % PAGE_SIZE != 0 || s.pages == []
    ensures GrantsBytes(s.mem, root, RootPlace(vtcr), ipa, ipa + done, pa, readable, writable, device)
    ensures LosesOnlyCut(old(s.mem), s.mem, root, RootPlace(vtcr), InputSize(vtcr), ipa, ipa + done, ipa + size)
    ensures UnmappedBytes(old(s.mem), root, RootPlace(vtcr), ipa, ipa + size) ==>
      KeepsOtherBytes(old(s.mem), s.mem, root, RootPlace(vtcr), InputSize(vtcr), ipa, ipa + done)
    ensures r.Ok? ==>
      (KeepsOtherBytes(old(s.mem), s.mem, root, RootPlace(vtcr), InputSize(vtcr), ipa, ipa + size) <==>
       !OverhangsBytes(old(s.mem), root, RootPlace(vtcr), ipa, ipa + size, InputSize(vtcr)))
  {
    hide Wf, Maps, Unmapped, UnmappedBytes, Belongs, EndOf, InputPages, T0szOf, Walk, Pow2, LevelOf, LinearBytes,
      TwoBits,
      KeepsOtherBytes, LosesOnlyCut, OverhangsBytes, GrantsBytes, NumberOfConcatenatedPageTables,
      Stage2Tables.Valid, Permission;
    if size % PAGE_SIZE != 0 {
      done := 0;
      NothingMapped(s.mem, root, RootPlace(vtcr), InputSize(vtcr), ipa, size, pa, readable, writable, device);
      return Err(()), 0;
    }
    RootBelongs(vtcr);
    var level := LevelOf(vtcr);
    var count := NumberOfConcatenatedPageTables(T0szOf(vtcr) as nat, level) * 512;
    ghost var m0, i0, perm, attr := s.mem, s.info, Permission(readable, writable), AttributeFor(device);
    var lo, n := ipa / PAGE_SIZE, size / PAGE_SIZE;
    Whole(ipa); Whole(size); Whole(pa);
    assert s.Valid() ==> Wf(s.mem, s.info) by { ValidWf(s); }
    var ok, pa', ipa', rem' :=
      s.MapLevel(pa / PAGE_SIZE, lo, n, root, Permission(readable, writable), device, level, count);
    ghost var pages := InputPages(T0szOf(vtcr) as nat);
    MapsBytes(m0, i0, s.mem, s.info, root, lo, ipa', lo + n, pa / PAGE_SIZE, perm, attr, pages);
    if UnmappedBytes(m0, root, RootPlace(vtcr), ipa, ipa + size) {
      UnmappedKeeps(m0, s.mem, i0, root, lo, ipa', lo + n, InputSize(vtcr));
    }
    if ok {
      KeepsUnlessOverhang(m0, s.mem, i0, root, lo, lo + n, pages);
    }
    done := (ipa' - lo) * PAGE_SIZE;
    LinearGrants(s.mem, root, RootPlace(vtcr), ipa, ipa + done, pa, readable, writable, device);
    r := if ok then Ok(()) else Err(());
  }

  lemma ValidWf(s: Stage2Tables)
    requires s.Valid()
    ensures Wf(s.mem, s.info)
  {
  }

  lemma Whole(a: nat)
    requires a % PAGE_SIZE == 0
    ensures a == a / PAGE_SIZE * PAGE_SIZE
  {
  }

  lemma NothingMapped(mem: Memory, root: nat, place: Place, size: nat, at: nat, n: nat, to: nat, readable: bool,
                      writable: bool, device: bool)
    requires place.level <= 3
    ensures GrantsBytes(mem, root, place, at, at, to, readable, writable, device)
    ensures KeepsOtherBytes(mem, mem, root, place, size, at, at)
    ensures LosesOnlyCut(mem, mem, root, place, size, at, at, at + n)
  {
    hide Walk;
  }

  /** A 1 GiB block over the first page: page 1 is mapped, and gone once a table has taken the block's place. */
  lemma BlockIsLost(root: nat, page: nat)
    requires root != page && page < FRAME_LIMIT
    ensures var place, m := Place(1, 0, 512), map[root := [LeafWord(0x4000_0000, 3, false, 1)] + seq(511, _ => 0)];
      var m' := m[page := ZEROS][root := m[root][0 := TableWord(page * PAGE_SIZE)]];
      && Translate(m, root, place, 0x1000) == Access(0x4000_1000, 3, ATTR_WRITE_BACK)
      && Translate(m', root, place, 0x1000) == NoAccess
      && OverhangsBytes(m, root, place, 0, PAGE_SIZE, 0x4000_0000)
  {
    hide Fields, IsTable, Target, TableWord, LeafWord;
    assert TwoBits(3);
    LeafSurvives(0x4_0000, 3, false, 1);
    TableSurvives(page);
    NoKind();
    var m := map[root := [LeafWord(0x4000_0000, 3, false, 1)] + seq(511, _ => 0)];
    var m' := m[page := ZEROS][root := m[root][0 := TableWord(page * PAGE_SIZE)]];
    EmptyTableFaults(m', page, 2, 1);
  }

  // ---------------------------------------------------------------- a new machine

  const RAM_VIRTUAL_BASE: nat := 0x4000_0000
  const GUEST_GIC_CPU_INTERFACE_ADDRESS: nat := 0x801_0000

  /** The address of a guest RAM byte; None outside the RAM window. */
  function TranslateGuestPhysicalAddress(virtualAddress: nat, ramVirtualBase: nat, ramPhysicalBase: nat,
                                         ramSize: nat): Option<nat> {
    if ramVirtualBase <= virtualAddress < ramVirtualBase + ramSize
    then Some(virtualAddress - ramVirtualBase + ramPhysicalBase) else None
  }

  /** What a guest is meant to see: its RAM, and the virtual CPU interface as a device, both to read and write. */
  ghost predicate GuestView(w: Access, a: nat, ramPa: nat, ramSize: nat, gicvPa: nat, gicvSize: nat) {
    var ram := TranslateGuestPhysicalAddress(a, RAM_VIRTUAL_BASE, ramPa, ramSize);
    if ram.Some? then Grants(w, ram.value, true, true, false)
    else if GUEST_GIC_CPU_INTERFACE_ADDRESS <= a < GUEST_GIC_CPU_INTERFACE_ADDRESS + gicvSize
    then Grants(w, gicvPa + (a - GUEST_GIC_CPU_INTERFACE_ADDRESS), true, true, true)
    else w == NoAccess
  }

  /** An empty first table translates nothing. */
  lemma EmptyTable(mem: Memory, root: nat, place: Place)
    requires PlaceOk(place) && root in mem && mem[root] == Cleared(place.count)
    ensures forall a: nat :: Translate(mem, root, place, a) == NoAccess
  {
    hide Fields, IsTable, Target;
    NoKind();
  }

  /** Two disjoint mappings in an empty table make up the guest's view. */
  lemma ViewOf(m0: Memory, m1: Memory, m2: Memory, root: nat, place: Place, size: nat, ramPa: nat, ramSize: nat,
               gicvPa: nat, gicvSize: nat)
    requires place.level <= 3
    requires forall a: nat :: Translate(m0, root, place, a) == NoAccess
    requires GUEST_GIC_CPU_INTERFACE_ADDRESS + gicvSize <= RAM_VIRTUAL_BASE && RAM_VIRTUAL_BASE + ramSize <= size
    requires GrantsBytes(m1, root, place, RAM_VIRTUAL_BASE, RAM_VIRTUAL_BASE + ramSize, ramPa, true, true, false)
    requires KeepsOtherBytes(m0, m1, root, place, size, RAM_VIRTUAL_BASE, RAM_VIRTUAL_BASE + ramSize)
    requires var g := GUEST_GIC_CPU_INTERFACE_ADDRESS;
      && GrantsBytes(m2, root, place, g, g + gicvSize, gicvPa, true, true, true)
      && KeepsOtherBytes(m1, m2, root, place, size, g, g + gicvSize)
    ensures forall a: nat :: a < size ==>
      GuestView(Translate(m2, root, place, a), a, ramPa, ramSize, gicvPa, gicvSize)
  {
  }

  /**
    The Stage 2 tables of a new machine: guest RAM and the virtual CPU interface, in tables
    of their own. None stands for the two mapping failures that stop the machine's creation.
   */
  method CreateTables(root: nat, freePages: seq<nat>, ps: bv64, ramPa: nat, ramSize: nat, gicvPa: nat, gicvSize: nat)
    returns (r: Option<Stage2Tables>)
    requires ps < 16 && root !in freePages && forall j, k :: 0 <= j < k < |freePages| ==> freePages[j] != freePages[k]
    requires (forall page :: page in freePages ==> page < FRAME_LIMIT) && ramPa + ramSize <= ADDRESS_LIMIT
      && gicvPa + gicvSize <= ADDRESS_LIMIT
    requires ramPa % PAGE_SIZE == 0 && gicvPa % PAGE_SIZE == 0 && ramSize > 0 && gicvSize > 0
    requires GUEST_GIC_CPU_INTERFACE_ADDRESS + gicvSize <= RAM_VIRTUAL_BASE
    requires RAM_VIRTUAL_BASE + ramSize <= InputPages(LookupFor(ps).0 as nat) * PAGE_SIZE
    ensures r.Some? ==> forall a: nat :: a < InputPages(LookupFor(ps).0 as nat) * PAGE_SIZE ==>
      GuestView(Translate(r.value.mem, root, RootPlace(VtcrFor(ps)), a), a, ramPa, ramSize, gicvPa, gicvSize)
  {
    hide Wf, T0szOf, LevelOf, VtcrFor, Walk, Pow2, LinearBytes, KeepsOtherBytes, Translate,
      NumberOfConcatenatedPageTables,
      InputPages, GuestView, GrantsBytes, UnmappedBytes, LosesOnlyCut, OverhangsBytes;
    var vtcr := VtcrFor(ps);
    VtcrRoundTrip(ps);
    var place := RootPlace(vtcr);
    RootBelongs(vtcr);
    var s := new Stage2Tables(root, place, freePages);
    ghost var m0 := s.mem;
    EmptyTable(m0, root, place);
    AllUnmapped(m0, root, place, RAM_VIRTUAL_BASE, RAM_VIRTUAL_BASE + ramSize);
    var r1, done1 := MapAddressStage2Internal(s, root, ramPa, RAM_VIRTUAL_BASE, ramSize, true, true, false, vtcr);
    if r1.Err? {
      return None;
    }
    ghost var m1, g := s.mem, GUEST_GIC_CPU_INTERFACE_ADDRESS;
    StillUnmapped(m0, m1, root, place, InputSize(vtcr), RAM_VIRTUAL_BASE, RAM_VIRTUAL_BASE + ramSize, g, g + gicvSize);
    var r2, done2 := MapAddressStage2Internal(s, root, gicvPa, GUEST_GIC_CPU_INTERFACE_ADDRESS, gicvSize, true, true,
      true, vtcr);
    if r2.Err? {
      return None;
    }
    ViewOf(m0, m1, s.mem, root, place, InputSize(vtcr), ramPa, ramSize, gicvPa, gicvSize);
    return Some(s);
  }

  lemma AllUnmapped(mem: Memory, root: nat, place: Place, lo: nat, hi: nat)
    requires place.level <= 3 && forall a: nat :: Translate(mem, root, place, a) == NoAccess
    ensures UnmappedBytes(mem, root, place, lo, hi)
  {
  }

  lemma StillUnmapped(m0: Memory, m1: Memory, root: nat, place: Place, size: nat, lo: nat, hi: nat, from: nat, to: nat)
    requires place.level <= 3 && forall a: nat :: Translate(m0, root, place, a) == NoAccess
    requires KeepsOtherBytes(m0, m1, root, place, size, lo, hi) && to <= lo && to <= size
    ensures UnmappedBytes(m1, root, place, from, to)
  {
  }
}
