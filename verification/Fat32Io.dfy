/** File reads and writes that cover runs of physically consecutive clusters with one device access each. */
module Fat32Io {
  import opened Arith
  import opened Common
  import opened Fat32Chain
  import opened Fat32Plan

  // ---------------------------------------------------------------- one pass

  /** Clusters c, c + 1, .. follow one another for `k` steps. */
  ghost predicate Contiguous(fat: seq<nat>, c: nat, k: nat) {
    forall x :: c <= x < c + k ==> NextCluster(fat, x) == Some(x + 1)
  }

  /**
    What one pass of the outer loop will transfer: sectors from `sectorOffset` of its first
    cluster on, and the cluster it ends in.
   */
  datatype Pass = Pass(sectors: nat, bytes: nat, sectorOffset: nat, dataOffset: nat, last: nat)

  /** The cluster after position `pos + k` of a chain, inside a run and at its end. */
  lemma RunStep(fat: seq<nat>, entry: nat, chain: seq<nat>, pos: nat, k: nat)
    requires ChainIs(fat, entry, chain) && pos < |chain| && k < RunLength(chain, pos)
    ensures var l, next := RunLength(chain, pos), NextCluster(fat, chain[pos] + k);
      && chain[pos + k] == chain[pos] + k
      && (next == Some(chain[pos] + k + 1) <==> k + 1 < l)
      && (next.None? <==> pos + k + 1 == |chain|)
      && (next.None? ==> k + 1 == l)
  {
    hide RunLength, NextCluster, ChainIs;
    var l := RunLength(chain, pos);
    ChainStep(fat, entry, chain);
    assert chain[pos + k] == chain[pos] + k;
    if k + 1 < l {
      assert chain[pos + (k + 1)] == chain[pos] + (k + 1);
    }
  }

  /** A loop that leaves a run only at its end has measured all of it, in sectors and bytes. */
  lemma LastSectors(t: nat, k: nat, s: nat, b: nat, size: nat, sectors: nat)
    requires b > 0 && SizeIs(size, s, b) && (k == 0 || Times(k, size) < t) && Times(k, size) <= t
    requires sectors == Times(k, s) + SectorsFor(t - Times(k, size), b)
    ensures sectors == SectorsFor(t, b)
  {
    if k > 0 {
      SectorsSplit(t, k, s, b);
    }
  }

  /** `k` whole clusters of `s` sectors, and the sectors of what is left. */
  lemma SectorsSplit(t: nat, k: nat, s: nat, b: nat)
    requires b > 0 && k * (s * b) < t
    ensures k * s + SectorsFor(t - k * (s * b), b) == SectorsFor(t, b)
  {
    var x := t - k * (s * b) - 1;
    Associate(k, s, b);
    var q, r := x / b, x % b;
    assert x == b * q + r;
    Distribute(q, k * s, b);
    assert t - 1 == (q + k * s) * b + r;
    DivStep(q + k * s, r, b);
  }

  ghost predicate SizeIs(size: nat, s: nat, b: nat) { size == s * b }

  lemma SizeOfCluster(g: Geometry)
    ensures SizeIs(BytesPerCluster(g), g.sectorsPerCluster, g.bytesPerSector)
  {
  }

  lemma SizeHolds(size: nat, s: nat, b: nat)
    requires SizeIs(size, s, b) && s > 0 && b > 0
    ensures size >= b
  {
    Grow(b, s);
  }

  /** Where a write that has enough clusters is left with less than a sector. */
  lemma LeftAt(n: nat, k: nat, size: nat, b: nat)
    requires 0 < b <= size && (k == 0 || Times(k, size) < n) && n <= Times(k + 1, size)
    ensures EnoughLeft(n, size, b) <==> n >= Times(k, size) + b
  {
    hide Times;
    TimesStep(k, size);
    if n > 0 {
      var j := (n - 1) / size;
      Divides(n - 1, size);
      TimesStep(j, size);
      TimesMonotone(j + 1, k, size);
      TimesMonotone(k + 1, j, size);
    }
  }

  /**
    A pass measured from cluster `c`, at position `pos` of the chain, against the whole
    length of the request: the run of clusters if the request, as counted from the first
    sector taken, needs more than it, and all of the request otherwise.
   */
  ghost predicate PassMeasured(fat: seq<nat>, s: nat, b: nat, size: nat, c: nat, offset: nat, length: nat,
                               forWrite: bool,
                               chain: seq<nat>, pos: nat, r: Result<Pass, ()>)
    requires b > 0 && size > 0 && pos < |chain|
  {
    && (r.Ok? ==> r.value.sectorOffset == SkippedSectors(offset, b) && r.value.dataOffset == KeptOffset(offset, b))
    && (r.Ok? ==> c <= r.value.last && Contiguous(fat, c, r.value.last - c))
    && var d, l := KeptOffset(offset, b), RunLength(chain, pos);
       if d + length <= Times(l, size) then
         && (!forWrite ==> r.Ok?) && (forWrite && d == 0 ==> (r.Ok? <==> EnoughLeft(length, size, b)))
         && (r.Ok? ==> r.value.bytes == length && r.value.sectors == SectorsFor(d + length, b))
       else
         && (!forWrite || d == 0 ==> (r.Ok? <==> pos + l < |chain|))
         && (r.Ok? ==>
               && r.value.bytes == Times(l, size) - d && r.value.sectors == Times(l, s)
               && r.value.last == c + l - 1)
  }

  /** Measures one pass. */
  method MeasurePass(fat: seq<nat>, s: nat, b: nat, size: nat, c: nat, offset: nat, length: nat, forWrite: bool,
                     ghost entry: nat, ghost chain: seq<nat>, ghost pos: nat)
    returns (r: Result<Pass, ()>)
    requires s > 0 && b > 0 && SizeIs(size, s, b) && offset < size && size > 0
    requires ChainIs(fat, entry, chain) && pos < |chain| && chain[pos] == c
    ensures PassMeasured(fat, s, b, size, c, offset, length, forWrite, chain, pos, r)
  {
    hide SectorsFor, Times, KeptOffset, SkippedSectors, SizeIs, RunLength, EnoughLeft, NextCluster, ChainIs;
    SizeHolds(size, s, b);
    var sectors, bytes, sectorOffset, dataOffset, backup, cluster := 0, 0, 0, offset, offset, c;
    ghost var k, d, t, l := 0, KeptOffset(offset, b), KeptOffset(offset, b) + length, RunLength(chain, pos);
    TimesStep(0, size);
    TimesStep(0, s);
    KeptSmall(offset, b);
    while true
      invariant cluster == c + k && k < l && Contiguous(fat, c, k) && sectors == Times(k, s) && bytes <= length
      invariant if k == 0 then bytes == 0 && sectorOffset == 0 && dataOffset == backup == offset
                else
                  && bytes == Times(k, size) - d && Times(k, size) < t && sectorOffset == SkippedSectors(offset, b)
                  && backup == d && dataOffset == 0
      decreases length - bytes
    {
      TimesStep(k, size);
      TimesStep(k, s);
      TimesMonotone(k + 1, l, size);
      if forWrite && length - bytes < b {
        if d == 0 { LeftAt(length, k, size, b); }
        return Err(());
      }
      if dataOffset > b {
        sectorOffset, dataOffset := SkipSectors(dataOffset, b);
        backup := dataOffset;
      }
      assert dataOffset == (if k == 0 then d else 0) && sectorOffset == SkippedSectors(offset, b) && backup == d;
      if length - bytes + dataOffset <= size {
        sectors := sectors + SectorsFor(length - bytes + dataOffset, b);
        LastSectors(t, k, s, b, size, sectors);
        if forWrite && d == 0 { LeftAt(length, k, size, b); }
        return Ok(Pass(sectors, length, sectorOffset, backup, cluster));
      }
      RunStep(fat, entry, chain, pos, k);
      sectors := sectors + s;
      bytes := bytes + (size - dataOffset);
      var next := NextCluster(fat, cluster);
      if next.None? {
        return Err(());
      }
      if next.value != cluster + 1 {
        return Ok(Pass(sectors, bytes, sectorOffset, backup, cluster));
      }
      k := k + 1;
      dataOffset := 0;
      cluster := next.value;
    }
  }

  /** The number of whole sectors in an offset, and what is left of it. */
  method SkipSectors(dataOffset: nat, b: nat) returns (sectors: nat, rest: nat)
    requires 0 < b < dataOffset
    ensures sectors == SkippedSectors(dataOffset, b) && rest == KeptOffset(dataOffset, b)
  {
    sectors := dataOffset / b;
    rest := dataOffset - sectors * b;
  }

  // ---------------------------------------------------------------- memory and device

  type Byte = bv8

  /** Bytes of memory from some address on, with `data` stored `at` bytes after it. */
  function Store(mem: seq<Byte>, at: nat, data: seq<Byte>): (m: seq<Byte>)
    requires at <= |mem|
    ensures |m| == if at + |data| < |mem| then |mem| else at + |data|
    ensures forall i :: 0 <= i < |m| ==> m[i] == if at <= i < at + |data| then data[i - at] else mem[i]
  {
    if at + |data| < |mem| then mem[..at] + data + mem[at + |data|..] else mem[..at] + data
  }

  /** The device with `n` bytes from address `start` on replaced. */
  function Patched(disk: seq<Byte>, start: nat, n: nat, mem: nat -> Byte): (d: seq<Byte>)
    requires start + n <= |disk|
    ensures |d| == |disk|
    ensures forall a :: 0 <= a < |disk| ==> d[a] == if start <= a < start + n then mem(a - start) else disk[a]
  {
    disk[..start] + seq(n, (i: nat) => mem(i)) + disk[start + n..]
  }

  /**
    Memory from byte `pointer` on holds what is at the device addresses `source`; memory before
    it is as it was, and so is memory more than `slack` bytes after it.
   */
  ghost predicate Filled(disk: seq<Byte>, source: seq<nat>, mem: seq<Byte>, pointer: nat, out: seq<Byte>, slack: nat) {
    && pointer + |source| <= |out| && pointer <= |mem| <= |out|
    && (forall i :: 0 <= i < pointer ==> out[i] == mem[i])
    && (forall i :: 0 <= i < |source| ==> source[i] < |disk| && out[pointer + i] == disk[source[i]])
    && (forall i :: pointer + |source| + slack <= i < |mem| ==> out[i] == mem[i])
  }

  lemma FilledMore(disk: seq<Byte>, a: seq<nat>, s: seq<nat>, mem: seq<Byte>, out: seq<Byte>, out': seq<Byte>,
                   slack: nat)
    requires Filled(disk, a, mem, 0, out, 0) && Filled(disk, s, out, |a|, out', slack)
    ensures Filled(disk, a + s, mem, 0, out', slack)
  {
    forall i | 0 <= i < |a + s|
      ensures (a + s)[i] < |disk| && out'[i] == disk[(a + s)[i]]
    {
      if i >= |a| { assert out'[|a| + (i - |a|)] == disk[s[i - |a|]]; }
    }
  }

  lemma SlackMore(disk: seq<Byte>, source: seq<nat>, mem: seq<Byte>, out: seq<Byte>, b: nat)
    requires Filled(disk, source, mem, 0, out, 0)
    ensures Filled(disk, source, mem, 0, out, b)
  {
  }

  /** Where in the order of `source` address `a` was written last; -1 if never. */
  ghost function LastIndex(source: seq<nat>, a: nat): (i: int)
    ensures -1 <= i < |source| && (i >= 0 ==> source[i] == a)
    ensures forall j :: i < j < |source| ==> source[j] != a
  {
    if source == [] then -1
    else if source[|source| - 1] == a then |source| - 1
    else LastIndex(source[..|source| - 1], a)
  }

  /** Memory was written to the addresses in order, and the rest of the device is as it was. */
  ghost predicate WrittenTo(disk: seq<Byte>, source: seq<nat>, mem: nat -> Byte, disk': seq<Byte>) {
    && |disk'| == |disk|
    && forall a :: 0 <= a < |disk| ==> disk'[a] == WrittenByte(disk[a], source, mem, a)
  }

  ghost function WrittenByte(was: Byte, source: seq<nat>, mem: nat -> Byte, a: nat): Byte {
    if LastIndex(source, a) < 0 then was else mem(LastIndex(source, a))
  }

  lemma LastOfRun(source: seq<nat>, start: nat, n: nat, a: nat)
    ensures LastIndex(source + Addresses(start, n), a) == if start <= a < start + n then |source| + (a - start)
      else LastIndex(source, a)
  {
    var all := source + Addresses(start, n);
    var i, j := LastIndex(all, a), LastIndex(source, a);
    if start <= a < start + n {
      assert all[|source| + (a - start)] == a;
    } else {
      assert forall k :: |source| <= k < |all| ==> all[k] == start + (k - |source|);
      if i >= 0 { assert source[i] == a; }
      if j >= 0 { assert all[j] == a; }
    }
  }

  /** `n` bytes of the device from `start` on were replaced by memory from byte `pointer` on. */
  ghost predicate PatchedBy(disk: seq<Byte>, start: nat, n: nat, mem: nat -> Byte, pointer: nat, disk': seq<Byte>) {
    && |disk'| == |disk|
    && forall a :: 0 <= a < |disk| ==>
        disk'[a] == if start <= a < start + n then mem(pointer + (a - start)) else disk[a]
  }

  lemma WrittenMore(disk: seq<Byte>, source: seq<nat>, mem: nat -> Byte, disk1: seq<Byte>, start: nat, n: nat,
                    disk2: seq<Byte>)
    requires WrittenTo(disk, source, mem, disk1) && PatchedBy(disk1, start, n, mem, |source|, disk2)
    ensures WrittenTo(disk, source + Addresses(start, n), mem, disk2)
  {
    hide LastIndex, Addresses;
    forall a | 0 <= a < |disk|
      ensures disk2[a] == WrittenByte(disk[a], source + Addresses(start, n), mem, a)
    {
      LastOfRun(source, start, n, a);
      assert disk1[a] == WrittenByte(disk[a], source, mem, a);
    }
  }

  /** The request cut at the end of the file. */
  function Clipped(size: nat, offset: nat, length: nat): (n: nat)
    ensures n <= length && (n > 0 ==> offset + n <= size) && (n < length ==> offset + n >= size)
  {
    if offset + length <= size then length else if offset >= size then 0 else size - offset
  }

  /** Neither the reserved sectors nor a byte of the file allocation tables has changed. */
  ghost predicate KeepsTables(g: Geometry, disk: seq<Byte>, disk': seq<Byte>) {
    |disk'| == |disk| && forall a :: 0 <= a < |disk| && a < DataStart(g) ==> disk'[a] == disk[a]
  }

  lemma NotNegative(a: nat, b: nat)
    ensures a * b >= 0
  {
  }

  /** A pass touches the data area only. */
  lemma PassInData(q: Request, pos: nat, at: nat)
    requires Proper(q) && pos < |q.chain|
    ensures PassStart(q, pos, at) >= DataStart(q.g)
  {
    hide ClusterAddress, SkippedSectors, SectorAddress, ClusterToSector, BytesPerCluster, DataStart;
    var c, skipped := q.chain[pos], SkippedSectors(at, q.g.bytesPerSector);
    ClusterPlace(q.g, c);
    SkipAddress(q.g, c, skipped);
    NotNegative(c - 2, BytesPerCluster(q.g));
    NotNegative(skipped, q.g.bytesPerSector);
  }

  lemma PatchKeeps(q: Request, pos: nat, at: nat, disk0: seq<Byte>, disk: seq<Byte>, n: nat, mem: nat -> Byte,
                   pointer: nat, disk': seq<Byte>)
    requires Proper(q) && pos < |q.chain| && KeepsTables(q.g, disk0, disk)
    requires PatchedBy(disk, PassStart(q, pos, at), n, mem, pointer, disk')
    ensures KeepsTables(q.g, disk0, disk')
  {
    hide PassStart, DataStart;
    PassInData(q, pos, at);
  }

  /** No byte of the file is asked for. */
  predicate PastEnd(size: nat, offset: nat, length: nat) {
    offset + length > size && offset >= size
  }

  /** None of the passes meets a fault of the device. */
  ghost predicate NoFaults(passes: nat, faults: set<nat>) {
    forall k :: 0 <= k < passes ==> k !in faults
  }

  /** All passes of the plan are there and succeed. */
  ghost predicate Runs(p: Option<Plan>, faults: set<nat>) {
    p.Some? && NoFaults(p.value.passes, faults)
  }

  lemma AtLeastTwo(fat: seq<nat>, entry: nat, chain: seq<nat>)
    requires ChainIs(fat, entry, chain)
    ensures forall i :: 0 <= i < |chain| ==> chain[i] >= 2
  {
    forall i | 0 <= i < |chain| ensures chain[i] >= 2 {
      ChainNth(fat, entry, chain, i);
    }
  }

  /** A pass moves on in the chain. */
  ghost function Advance(fat: seq<nat>, entry: nat, chain: seq<nat>, pos: nat, last: nat, next: nat): (pos': nat)
    requires ChainIs(fat, entry, chain) && pos < |chain| && chain[pos] <= last
      && Contiguous(fat, chain[pos], last - chain[pos])
    requires NextCluster(fat, last) == Some(next)
    ensures pos' == pos + (last - chain[pos]) + 1 && pos' < |chain| && chain[pos'] == next
  {
    Follows(fat, entry, chain, pos, last - chain[pos]);
    pos + (last - chain[pos]) + 1
  }

  lemma {:induction false} Follows(fat: seq<nat>, entry: nat, chain: seq<nat>, pos: nat, k: nat)
    requires ChainIs(fat, entry, chain) && pos < |chain| && Contiguous(fat, chain[pos], k)
    ensures pos + k < |chain| && chain[pos + k] == chain[pos] + k
  {
    if k > 0 {
      Follows(fat, entry, chain, pos, k - 1);
      assert NextCluster(fat, chain[pos] + (k - 1)) == Some(chain[pos] + k);
    }
  }

  /** The product the code computes. */
  function Product(a: nat, b: nat): (p: nat)
    ensures p == Times(a, b)
  {
    a * b
  }

  function OffsetInCluster(offset: nat, size: nat): (at: nat)
    requires size > 0
    ensures at < size && at == offset % size
  {
    offset - offset / size * size
  }

  // ---------------------------------------------------------------- the volume

  class Volume {
    const g: Geometry
    const fat: seq<nat>
    var disk: seq<Byte>

    constructor (g: Geometry, fat: seq<nat>, disk: seq<Byte>)
      ensures this.g == g && this.fat == fat && this.disk == disk
    {
      this.g, this.fat, this.disk := g, fat, disk;
    }

    /** The file's chain, unless the request needs none. */
    ghost predicate Ready(file: FileInfo, chain: seq<nat>, offset: nat, length: nat)
      reads this, file
    {
      && ValidGeometry(g) && file.HintOk(fat)
      && (PastEnd(file.fileSize, offset, length)
          || (ChainIs(fat, file.entryCluster, chain) && OnDevice(g, chain, |disk|)))
    }

    ghost function RequestFor(chain: seq<nat>, n: nat, write: bool): Request
      reads this`disk
    {
      Request(g, chain, |disk|, n, write)
    }

    /** One device read, into the caller's buffer or through a bounce buffer. */
    method ReadPass(cluster: nat, at: nat, n: nat, mem: seq<Byte>, pointer: nat, fault: bool,
                    ghost entry: nat, ghost chain: seq<nat>, ghost pos: nat)
      returns (r: Result<Pass, ()>, out: seq<Byte>)
      requires ChainIs(fat, entry, chain) && pos < |chain| && chain[pos] == cluster >= 2
        && Proper(RequestFor(chain, n, false))
      requires at < BytesPerCluster(g) && pointer <= |mem| && (at != 0 ==> pointer == 0)
      ensures var q := RequestFor(chain, n, false);
        && (r.Ok? <==> !fault && PassFits(q, pos, at))
        && (r.Ok? ==> Measured(fat, q, pos, at, r.value))
        && (r.Ok? ==> Filled(disk, PassAddresses(q, pos, at), mem, pointer, out, if Whole(q, pos, at)
            then g.bytesPerSector else 0))
    {
      hide Contiguous, NextCluster, SectorsFor, Times, SkippedSectors, ClusterToSector, SectorAddress, Store,
        KeptOffset,
        BytesPerCluster, SizeIs, RunLength, ChainIs, Filled, PassMeasured, PassFits, PassCount, PassLength, Whole,
          PassAddresses, Moved;
      ghost var q := RequestFor(chain, n, false);
      out := mem;
      SizeOfCluster(g);
      r := MeasurePass(fat, g.sectorsPerCluster, g.bytesPerSector, BytesPerCluster(g), cluster, at, n, false, entry,
        chain, pos);
      MeasuredMeans(q, fat, pos, at, r);
      if r.Err? {
        return;
      }
      var p := r.value;
      var address := SectorAddress(g, ClusterToSector(g, cluster) + p.sectorOffset);
      var count := Product(p.sectors, g.bytesPerSector);
      KeptZero(at, g.bytesPerSector);
      if fault || address + count > |disk| {
        return Err(()), mem;
      }
      out := Transfer(p, address, count, mem, pointer);
      TransferFills(q, disk, pos, at, mem, pointer, out);
    }

    /** The data of one device read: copied out of the bounce buffer, or read straight into the caller's. */
    method Transfer(p: Pass, address: nat, count: nat, mem: seq<Byte>, pointer: nat) returns (out: seq<Byte>)
      requires address + count <= |disk| && p.dataOffset + p.bytes <= count && pointer <= |mem|
        && (p.dataOffset != 0 ==> pointer == 0)
      ensures out == Moved(disk, address, p.dataOffset, p.bytes, count, mem, pointer)
    {
      if p.dataOffset != 0 {
        out := Store(mem, 0, disk[address + p.dataOffset..address + p.dataOffset + p.bytes]);
      } else {
        out := Store(mem, pointer, disk[address..address + count]);
      }
    }

    /** Device reads until the request is filled, each measured against its whole length. */
    method ReadPasses(first: nat, at0: nat, n: nat, mem: seq<Byte>, faults: set<nat>, ghost entry: nat,
                      ghost chain: seq<nat>, ghost pos0: nat)
      returns (r: Result<nat, ()>, out: seq<Byte>)
      requires ChainIs(fat, entry, chain) && pos0 < |chain| && chain[pos0] == first
        && Proper(RequestFor(chain, n, false))
      requires at0 < BytesPerCluster(g)
      ensures var plan := PlanFrom(RequestFor(chain, n, false), pos0, at0, 0);
        && (r.Ok? <==> Runs(plan, faults))
        && (r.Ok? ==> r.value == n && Filled(disk, plan.value.source, mem, 0, out, g.bytesPerSector))
    {
      hide Contiguous, NextCluster, ChainIs, BytesPerCluster, Filled, PassFits, PassLength, PassAddresses, Whole,
        RunLength, Proper,
        PlanFrom, Runs, Reading;
      out := mem;
      var cluster: nat, at: nat, pointer: nat, pass: nat := first, at0, 0, 0;
      ghost var pos: nat, done: seq<nat>, q := pos0, [], RequestFor(chain, n, false);
      ghost var job := Job(q, PlanFrom(q, pos0, at0, 0), faults);
      StartReading(job, disk, mem, pos0, at0);
      AtLeastTwo(fat, entry, chain);
      while true
        invariant pos < |chain| && chain[pos] == cluster && at < BytesPerCluster(g) && pointer <= |out|
        invariant pass > 0 ==> at == 0
        invariant pass == 0 ==> pointer == 0
        invariant Reading(job, disk, mem, out, pos, at, pointer, pass, done)
        decreases |chain| - pos
      {
        ghost var before, got := out, pointer;
        var p, now := ReadPass(cluster, at, n, out, pointer, pass in faults, entry, chain, pos);
        ReadStep(job, disk, mem, before, now, pos, at, got, pass, done);
        if p.Err? {
          return Err(()), out;
        }
        out := now;
        pointer := pointer + p.value.bytes;
        if n == pointer {
          return Ok(pointer), out;
        }
        var next := NextCluster(fat, p.value.last);
        if next.None? {
          ChainEnds(fat, entry, chain, pos, p.value.last);
          FitsNext(q, pos, at);
          return Err(()), out;
        }
        done := NextDone(job, pos, at, got, done);
        pos := Advance(fat, entry, chain, pos, p.value.last, next.value);
        Overrun(job, disk, mem, out, pos, 0, pointer, pass + 1, done);
        cluster, at, pass := next.value, 0, pass + 1;
      }
    }

    /** The plan of a request on a file of this volume. */
    ghost function PlanOf(chain: seq<nat>, offset: nat, n: nat, write: bool): Option<Plan>
      requires Proper(RequestFor(chain, n, write))
      reads this`disk
    {
      RequestPlan(RequestFor(chain, n, write), offset)
    }

    /**
      Reads into memory from the caller's buffer on. `faults` are the passes in which the
      device or the bounce buffer fails. Memory ends up with the bytes the plan of the request
      says, and these are the file's own if and only if the request is consecutive or a clean
      split.
     */
    method Read(file: FileInfo, mem: seq<Byte>, offset: nat, length: nat, faults: set<nat>, ghost chain: seq<nat>)
      returns (r: Result<nat, ()>, out: seq<Byte>)
      requires Ready(file, chain, offset, length)
      modifies file`walkHint
      ensures file.HintOk(fat)
      ensures PastEnd(file.fileSize, offset, length) ==> r == Ok(0) && out == mem
      ensures !PastEnd(file.fileSize, offset, length) ==>
        var n := Clipped(file.fileSize, offset, length);
        && Proper(RequestFor(chain, n, false))
        && (r.Ok? <==> Runs(PlanOf(chain, offset, n, false), faults))
        && (r.Ok? ==>
              && r.value == n
              && Filled(disk, PlanOf(chain, offset, n, false).value.source, mem, 0, out, g.bytesPerSector))
        && (n > 0 && faults == {} ==>
              ((r.Ok? && Exact(RequestFor(chain, n, false), offset, PlanOf(chain, offset, n, false))) <==>
               (ConsecutiveRequest(g, chain, offset, n) || CleanSplit(g, chain, offset, n))))
    {
      hide NextCluster, ChainIs, Nth, BytesPerCluster, FileInfo.HintOk, OnDevice, PlanFrom, Filled, Exact,
        ConsecutiveRequest, CleanSplit, Runs;
      out := mem;
      var n := length;
      if offset + length > file.fileSize {
        if offset >= file.fileSize {
          return Ok(0), out;
        }
        n := file.fileSize - offset;
      }
      ghost var q := RequestFor(chain, n, false);
      ProperRequest(q, fat, file.entryCluster);
      Served(q, offset, faults);
      var skip: nat := offset / BytesPerCluster(g);
      var at: nat := OffsetInCluster(offset, BytesPerCluster(g));
      var start := file.WalkTo(fat, skip);
      ChainNth(fat, file.entryCluster, chain, skip);
      if start.None? {
        NoRun(faults);
        return Err(()), out;
      }
      r, out := ReadPasses(start.value, at, n, mem, faults, file.entryCluster, chain, skip);
    }

    /** One device write; the in-sector offset must have come out as zero. */
    method WritePass(cluster: nat, at: nat, n: nat, mem: nat -> Byte, pointer: nat, fault: bool,
                     ghost entry: nat, ghost chain: seq<nat>, ghost pos: nat)
      returns (r: Result<Pass, ()>)
      requires ChainIs(fat, entry, chain) && pos < |chain| && chain[pos] == cluster >= 2
        && Proper(RequestFor(chain, n, true))
      requires at < BytesPerCluster(g)
      modifies this`disk
      ensures |disk| == |old(disk)|
      ensures var q := RequestFor(chain, n, true);
        && (r.Ok? <==> !fault && PassFits(q, pos, at))
        && (r.Err? ==> disk == old(disk))
        && (r.Ok? ==> Measured(fat, q, pos, at, r.value)
                      && PatchedBy(old(disk), PassStart(q, pos, at), PassCount(q, pos, at), mem, pointer, disk))
    {
      hide Contiguous, NextCluster, SectorsFor, Times, SkippedSectors, ClusterToSector, SectorAddress, KeptOffset,
        Patched,
        BytesPerCluster, SizeIs, RunLength, ChainIs, PassMeasured, PassFits, PassCount, PassLength, Whole;
      ghost var q := RequestFor(chain, n, true);
      SizeOfCluster(g);
      r := MeasurePass(fat, g.sectorsPerCluster, g.bytesPerSector, BytesPerCluster(g), cluster, at, n, true, entry,
        chain, pos);
      MeasuredMeans(q, fat, pos, at, r);
      if r.Err? {
        return;
      }
      var p := r.value;
      if p.dataOffset != 0 {
        return Err(());
      }
      var address := SectorAddress(g, ClusterToSector(g, cluster) + p.sectorOffset);
      var count := Product(p.sectors, g.bytesPerSector);
      if fault || address + count > |disk| {
        return Err(());
      }
      disk := Patched(disk, address, count, (i: nat) => mem(pointer + i));
    }

    /** Device writes until the request is done. */
    method WritePasses(first: nat, at0: nat, n: nat, mem: nat -> Byte, faults: set<nat>, ghost entry: nat,
                       ghost chain: seq<nat>, ghost pos0: nat)
      returns (r: Result<nat, ()>)
      requires ChainIs(fat, entry, chain) && pos0 < |chain| && chain[pos0] == first
        && Proper(RequestFor(chain, n, true))
      requires at0 < BytesPerCluster(g)
      modifies this`disk
      ensures KeepsTables(g, old(disk), disk)
      ensures var q := RequestFor(chain, n, true); var plan := PlanFrom(q, pos0, at0, 0);
        && (r.Ok? <==> Runs(plan, faults))
        && (r.Ok? ==> r.value == n && WrittenTo(old(disk), plan.value.source, mem, disk))
        && (r.Err? && Whole(q, pos0, at0) ==> disk == old(disk))
    {
      hide Contiguous, NextCluster, ChainIs, BytesPerCluster, WrittenTo, PassFits, PassLength, PassAddresses, Whole,
        RunLength, Proper,
        PlanFrom, Runs, Writing, PassStart, PassCount, PatchedBy, DataStart;
      var cluster: nat, at: nat, pointer: nat, pass: nat := first, at0, 0, 0;
      ghost var pos: nat, done: seq<nat>, q := pos0, [], RequestFor(chain, n, true);
      ghost var job := Job(q, PlanFrom(q, pos0, at0, 0), faults);
      StartWriting(job, disk, mem, pos0, at0);
      AtLeastTwo(fat, entry, chain);
      while true
        invariant pos < |chain| && chain[pos] == cluster && at < BytesPerCluster(g)
        invariant KeepsTables(g, old(disk), disk)
        invariant pass > 0 ==> at == 0 && !Whole(q, pos0, at0)
        invariant pass == 0 ==> pointer == 0 && disk == old(disk) && pos == pos0 && at == at0
        invariant Writing(job, old(disk), mem, disk, pos, at, pointer, pass, done)
        decreases |chain| - pos
      {
        ghost var before, got := disk, pointer;
        var p := WritePass(cluster, at, n, mem, pointer, pass in faults, entry, chain, pos);
        WriteStep(job, old(disk), mem, before, disk, pos, at, got, pass, done);
        if p.Err? {
          return Err(());
        }
        PatchKeeps(q, pos, at, old(disk), before, PassCount(q, pos, at), mem, got, disk);
        pointer := pointer + p.value.bytes;
        WholeLength(q, pos, at);
        if n == pointer {
          return Ok(pointer);
        }
        var next := NextCluster(fat, p.value.last);
        if next.None? {
          ChainEnds(fat, entry, chain, pos, p.value.last);
          FitsNext(q, pos, at);
          return Err(());
        }
        done := NextDone(job, pos, at, got, done);
        pos := Advance(fat, entry, chain, pos, p.value.last, next.value);
        WriteOverrun(job, old(disk), mem, disk, pos, 0, pointer, pass + 1, done);
        cluster, at, pass := next.value, 0, pass + 1;
      }
    }

    /**
      Writes from memory at the caller's buffer on: the bytes go where the plan of the request
      says. That is to the file's own bytes, and no others, if and only if the request is
      consecutive or a clean split, is made of whole sectors, and does not start on the second
      sector of a cluster. Reserved sectors and file allocation tables are left alone by every
      write, right or wrong, finished or not.
     */
    method Write(file: FileInfo, mem: nat -> Byte, offset: nat, length: nat, faults: set<nat>, ghost chain: seq<nat>)
      returns (r: Result<nat, ()>)
      requires Ready(file, chain, offset, length)
      modifies file`walkHint, this`disk
      ensures file.HintOk(fat) && KeepsTables(g, old(disk), disk)
      ensures PastEnd(file.fileSize, offset, length) ==> r == Ok(0) && disk == old(disk)
      ensures !PastEnd(file.fileSize, offset, length) ==>
        var n := Clipped(file.fileSize, offset, length);
        && Proper(RequestFor(chain, n, true))
        && (r.Ok? <==> Runs(PlanOf(chain, offset, n, true), faults))
        && (r.Ok? ==> r.value == n && WrittenTo(old(disk), PlanOf(chain, offset, n, true).value.source, mem, disk))
        && (r.Err? && ConsecutiveRequest(g, chain, offset, n) ==> disk == old(disk))
        && (n > 0 && faults == {} ==>
              ((r.Ok? && Exact(RequestFor(chain, n, true), offset, PlanOf(chain, offset, n, true))) <==>
               ((ConsecutiveRequest(g, chain, offset, n) || CleanSplit(g, chain, offset, n))
                 && Sectored(g, offset, n))))
    {
      hide NextCluster, ChainIs, Nth, BytesPerCluster, FileInfo.HintOk, OnDevice, PlanFrom, WrittenTo, Exact,
        ConsecutiveRequest, CleanSplit, Runs,
        Sectored, Whole, DataStart;
      var n := length;
      if offset + length > file.fileSize {
        if offset >= file.fileSize {
          return Ok(0);
        }
        n := file.fileSize - offset;
      }
      ghost var q := RequestFor(chain, n, true);
      ProperRequest(q, fat, file.entryCluster);
      Served(q, offset, faults);
      var skip: nat := offset / BytesPerCluster(g);
      var at: nat := OffsetInCluster(offset, BytesPerCluster(g));
      var start := file.WalkTo(fat, skip);
      ChainNth(fat, file.entryCluster, chain, skip);
      if start.None? {
        NoRun(faults);
        return Err(());
      }
      ConsecutiveWhole(q, offset, skip, at);
      r := WritePasses(start.value, at, n, mem, faults, file.entryCluster, chain, skip);
    }

    /** Reading back what was written. */
    method WriteThenRead(file: FileInfo, mem: nat -> Byte, buffer: seq<Byte>, offset: nat, length: nat,
                         ghost chain: seq<nat>)
      returns (w: Result<nat, ()>, r: Result<nat, ()>, out: seq<Byte>)
      requires Ready(file, chain, offset, length)
      modifies file`walkHint, this`disk
      ensures var n := Clipped(file.fileSize, offset, length);
        n > 0 && (ConsecutiveRequest(g, chain, offset, n) || CleanSplit(g, chain, offset, n))
          && Sectored(g, offset, n) ==>
          w.Ok? && r.Ok? && n <= |out| && forall i :: 0 <= i < n ==> out[i] == mem(i)
    {
      hide ConsecutiveRequest, CleanSplit, Sectored, Exact, ChainIs, FileInfo.HintOk, WrittenTo, Filled, Runs,
        RequestPlan, OnDevice, Proper;
      w := Write(file, mem, offset, length, {}, chain);
      r, out := Read(file, buffer, offset, length, {}, chain);
      ghost var n := Clipped(file.fileSize, offset, length);
      if n > 0 && (ConsecutiveRequest(g, chain, offset, n) || CleanSplit(g, chain, offset, n))
        && Sectored(g, offset, n) {
        ReadGives(RequestFor(chain, n, false), disk, offset, PlanOf(chain, offset, n, false), buffer, out);
        WriteGives(RequestFor(chain, n, true), fat, file.entryCluster, old(disk), disk, offset,
          PlanOf(chain, offset, n, true), mem);
        ReadBack(g, chain, disk, offset, n, mem, out);
      }
    }
  }

  // ---------------------------------------------------------------- proofs about passes

  /** What a pass found out about the chain. */
  ghost predicate Measured(fat: seq<nat>, q: Request, pos: nat, at: nat, p: Pass)
    requires Proper(q) && pos < |q.chain|
  {
    && p.bytes == PassLength(q, pos, at)
    && q.chain[pos] <= p.last && Contiguous(fat, q.chain[pos], p.last - q.chain[pos])
    && (!Whole(q, pos, at) ==> p.last == q.chain[pos] + RunLength(q.chain, pos) - 1)
  }

  lemma MeasuredMeans(q: Request, fat: seq<nat>, pos: nat, at: nat, r: Result<Pass, ()>)
    requires Proper(q) && pos < |q.chain|
    requires PassMeasured(fat, q.g.sectorsPerCluster, q.g.bytesPerSector, BytesPerCluster(q.g), q.chain[pos], at, q.n,
      q.write, q.chain, pos, r)
    ensures r.Err? ==> !PassFits(q, pos, at)
    ensures r.Ok? ==>
      && r.value.sectorOffset == SkippedSectors(at, q.g.bytesPerSector) && r.value.dataOffset == Kept(q, at)
      && Measured(fat, q, pos, at, r.value)
      && Times(r.value.sectors, q.g.bytesPerSector) == PassCount(q, pos, at)
      && Kept(q, at) + PassLength(q, pos, at) <= PassCount(q, pos, at) <= Kept(q, at) + PassLength(q, pos,
          at) + q.g.bytesPerSector
      && (!Whole(q, pos, at) ==> PassCount(q, pos, at) == Kept(q, at) + PassLength(q, pos, at))
      && (PassFits(q, pos, at) <==>
          (q.write ==> Kept(q, at) == 0) && PassStart(q, pos, at) + PassCount(q, pos, at) <= q.device)
  {
    hide Contiguous, NextCluster, SectorsFor, Times, SkippedSectors, KeptOffset, ClusterToSector, SectorAddress,
      BytesPerCluster, RunLength, EnoughLeft, PassCount, PassStart;
    KeptFits(q, pos, at);
    if r.Ok? { CountIs(q, pos, at, r.value.sectors); }
  }

  lemma KeptZero(at: nat, b: nat)
    requires b > 0
    ensures KeptOffset(at, b) != 0 ==> at != 0
  {
  }

  /** The bytes of the sectors measured. */
  lemma CountIs(q: Request, pos: nat, at: nat, sectors: nat)
    requires Proper(q) && pos < |q.chain|
    requires sectors == if Whole(q, pos, at) then SectorsFor(Kept(q, at) + q.n, q.g.bytesPerSector)
                        else Times(RunLength(q.chain, pos), q.g.sectorsPerCluster)
    ensures Times(sectors, q.g.bytesPerSector) == PassCount(q, pos, at)
    ensures Kept(q, at) + PassLength(q, pos, at) <= PassCount(q, pos, at) <= Kept(q, at) + PassLength(q, pos,
      at) + q.g.bytesPerSector
    ensures !Whole(q, pos, at) ==> PassCount(q, pos, at) == Kept(q, at) + PassLength(q, pos, at)
  {
    hide RunLength, SectorsFor, KeptOffset;
    KeptFits(q, pos, at);
    if Whole(q, pos, at) {
      SectorsHold(Kept(q, at) + q.n, q.g.bytesPerSector);
      OneSector(q.g.bytesPerSector);
    } else {
      Associate(RunLength(q.chain, pos), q.g.sectorsPerCluster, q.g.bytesPerSector);
    }
  }

  lemma OneSector(b: nat)
    requires b > 0
    ensures SectorsFor(0, b) * b == b
  {
  }

  /** What a device read leaves in memory. */
  ghost function Moved(disk: seq<Byte>, address: nat, d: nat, bytes: nat, count: nat, mem: seq<Byte>,
                       pointer: nat): seq<Byte>
    requires address + count <= |disk| && d + bytes <= count && pointer <= |mem|
  {
    if d != 0 then Store(mem, 0, disk[address + d..address + d + bytes])
      else Store(mem, pointer, disk[address..address + count])
  }

  lemma TransferFills(q: Request, disk: seq<Byte>, pos: nat, at: nat, mem: seq<Byte>, pointer: nat, out: seq<Byte>)
    requires Proper(q) && pos < |q.chain| && !q.write && pointer <= |mem| && (Kept(q, at) != 0 ==> pointer == 0)
    requires PassStart(q, pos, at) + PassCount(q, pos, at) <= |disk|
    requires Kept(q, at) + PassLength(q, pos, at) <= PassCount(q, pos, at) <= Kept(q, at) + PassLength(q, pos,
      at) + q.g.bytesPerSector
    requires !Whole(q, pos, at) ==> PassCount(q, pos, at) == Kept(q, at) + PassLength(q, pos, at)
    requires out == Moved(disk, PassStart(q, pos, at), Kept(q, at), PassLength(q, pos, at), PassCount(q, pos, at),
      mem, pointer)
    ensures Filled(disk, PassAddresses(q, pos, at), mem, pointer, out, if Whole(q, pos, at) then q.g.bytesPerSector
      else 0)
  {
    hide PassStart, PassCount, PassLength, Kept, Whole, Store;
  }

  /** A request, the plan it is to follow, and the passes in which the device fails. */
  datatype Job = Job(q: Request, plan: Option<Plan>, faults: set<nat>)

  /**
    After `pass` passes and `got` bytes the rest of the plan is that from here on; or there is
    no plan, and too much was moved.
   */
  ghost predicate Following(job: Job, pos: nat, at: nat, got: nat, pass: nat, done: seq<nat>)
    requires Proper(job.q) && pos < |job.q.chain|
  {
    || (got > job.q.n && job.plan.None?)
    || (job.plan == After(done, pass, PlanFrom(job.q, pos, at, got)) && |done| == got && NoFaults(pass, job.faults))
  }

  /** And memory holds the bytes of the passes so far. */
  ghost predicate Reading(job: Job, disk: seq<Byte>, mem: seq<Byte>, out: seq<Byte>, pos: nat, at: nat, got: nat,
                          pass: nat, done: seq<nat>)
    requires Proper(job.q) && pos < |job.q.chain|
  {
    Following(job, pos, at, got, pass, done)
      && ((got > job.q.n && job.plan.None?) || Filled(disk, done, mem, 0, out, 0))
  }

  lemma StartReading(job: Job, disk: seq<Byte>, mem: seq<Byte>, pos: nat, at: nat)
    requires Proper(job.q) && pos < |job.q.chain| && job.plan == PlanFrom(job.q, pos, at, 0)
    ensures Reading(job, disk, mem, mem, pos, at, 0, 0, [])
  {
    hide PlanFrom;
    if job.plan.Some? { assert [] + job.plan.value.source == job.plan.value.source; }
  }

  /** The addresses moved after one more pass. */
  ghost function NextDone(job: Job, pos: nat, at: nat, got: nat, done: seq<nat>): seq<nat>
    requires Proper(job.q) && pos < |job.q.chain|
  {
    if Whole(job.q, pos, at) then done else done + PassAddresses(job.q, pos, at)
  }

  /** One pass of a plan: it fails, it is the last, or the rest of the plan follows. */
  lemma FollowStep(job: Job, pos: nat, at: nat, got: nat, pass: nat, done: seq<nat>)
    requires Proper(job.q) && pos < |job.q.chain| && Following(job, pos, at, got, pass, done)
    requires |PassAddresses(job.q, pos, at)| == PassLength(job.q, pos, at) || Whole(job.q, pos, at)
    ensures !PassFits(job.q, pos, at) || pass in job.faults ==> !Runs(job.plan, job.faults)
    ensures PassFits(job.q, pos, at) && pass !in job.faults ==>
      var len := PassLength(job.q, pos, at);
      && (got + len == job.q.n ==>
            job.plan == Some(Plan(done + PassAddresses(job.q, pos, at), pass + 1)) && Runs(job.plan, job.faults)
              && |done| == got)
      && (got + len != job.q.n ==>
            if Whole(job.q, pos, at) || (got > job.q.n && job.plan.None?) then job.plan.None? && got + len > job.q.n
            else (pos + RunLength(job.q.chain, pos) < |job.q.chain| && |done| == got
                  && Following(job, pos + RunLength(job.q.chain, pos), 0, got + len, pass + 1,
                      done + PassAddresses(job.q, pos, at))))
  {
    hide PassAddresses, RunBytes, Kept, PassStart, PassCount, RunLength, EnoughLeft;
    var q, len := job.q, PassLength(job.q, pos, at);
    if !Whole(q, pos, at) && got + len != q.n && PassFits(q, pos, at) {
      AfterAfter(done, pass, PassAddresses(q, pos, at), 1, PlanFrom(q, pos + RunLength(q.chain, pos), 0, got + len));
    }
  }

  /** One device read of a plan. */
  lemma ReadStep(job: Job, disk: seq<Byte>, mem: seq<Byte>, before: seq<Byte>, out: seq<Byte>, pos: nat, at: nat,
                 got: nat, pass: nat, done: seq<nat>)
    requires Proper(job.q) && pos < |job.q.chain| && !job.q.write
      && Reading(job, disk, mem, before, pos, at, got, pass, done)
    requires PassFits(job.q, pos, at) && pass !in job.faults ==>
      Filled(disk, PassAddresses(job.q, pos, at), before, got, out, if Whole(job.q, pos, at)
        then job.q.g.bytesPerSector else 0)
    ensures !PassFits(job.q, pos, at) || pass in job.faults ==> !Runs(job.plan, job.faults)
    ensures PassFits(job.q, pos, at) && pass !in job.faults ==>
      var len := PassLength(job.q, pos, at);
      && got + len <= |out|
      && (got + len == job.q.n ==>
            Runs(job.plan, job.faults) && Filled(disk, job.plan.value.source, mem, 0, out, job.q.g.bytesPerSector))
      && (got + len != job.q.n ==>
            var pos', done' := pos + RunLength(job.q.chain, pos), NextDone(job, pos, at, got, done);
            && (Whole(job.q, pos, at) ==> !Runs(job.plan, job.faults) && job.plan.None? && got + len > job.q.n)
            && (pos' < |job.q.chain| && !Whole(job.q, pos, at) ==>
                Reading(job, disk, mem, out, pos', 0, got + len, pass + 1, done')))
  {
    hide PassAddresses, PassLength, PassFits, Filled, Whole, RunLength, PlanFrom, Following, Runs;
    var q, source := job.q, PassAddresses(job.q, pos, at);
    ReadAddresses(q, pos, at);
    FollowStep(job, pos, at, got, pass, done);
    if PassFits(q, pos, at) && pass !in job.faults {
      FilledFits(disk, source, before, got, out, if Whole(q, pos, at) then q.g.bytesPerSector else 0);
      Overrun(job, disk, mem, out, if pos + RunLength(q.chain, pos) < |q.chain| then pos + RunLength(q.chain, pos)
        else pos, 0,
        got + PassLength(q, pos, at), pass + 1, NextDone(job, pos, at, got, done));
      if got + PassLength(q, pos, at) == q.n {
        FilledEnd(disk, q, pos, at, done, mem, before, out);
      } else if !Whole(q, pos, at) && !(got > q.n && job.plan.None?) {
        FilledMore(disk, done, source, mem, before, out, 0);
      }
    }
  }

  /** Without a plan, and with too much moved, it does not matter where the passes are. */
  lemma Overrun(job: Job, disk: seq<Byte>, mem: seq<Byte>, out: seq<Byte>, pos: nat, at: nat, got: nat, pass: nat,
                done: seq<nat>)
    requires Proper(job.q) && pos < |job.q.chain|
    ensures got > job.q.n && job.plan.None? ==> Reading(job, disk, mem, out, pos, at, got, pass, done)
    ensures job.plan.None? ==> !Runs(job.plan, job.faults)
  {
    hide PlanFrom;
  }

  lemma ReadAddresses(q: Request, pos: nat, at: nat)
    requires Proper(q) && pos < |q.chain| && !q.write
    ensures |PassAddresses(q, pos, at)| == PassLength(q, pos, at)
  {
    hide PassLength, Whole, PassStart, Kept;
  }

  lemma FilledFits(disk: seq<Byte>, source: seq<nat>, mem: seq<Byte>, pointer: nat, out: seq<Byte>, slack: nat)
    requires Filled(disk, source, mem, pointer, out, slack)
    ensures pointer + |source| <= |out|
  {
  }

  lemma FilledEnd(disk: seq<Byte>, q: Request, pos: nat, at: nat, done: seq<nat>, mem: seq<Byte>, before: seq<Byte>,
                  out: seq<Byte>)
    requires Proper(q) && pos < |q.chain|
    requires Filled(disk, done, mem, 0, before, 0)
    requires Filled(disk, PassAddresses(q, pos, at), before, |done|, out, if Whole(q, pos, at) then q.g.bytesPerSector
      else 0)
    ensures Filled(disk, done + PassAddresses(q, pos, at), mem, 0, out, q.g.bytesPerSector)
  {
    hide PassAddresses, Whole, Filled;
    FilledMore(disk, done, PassAddresses(q, pos, at), mem, before, out, if Whole(q, pos, at) then q.g.bytesPerSector
      else 0);
    if !Whole(q, pos, at) { SlackMore(disk, done + PassAddresses(q, pos, at), mem, out, q.g.bytesPerSector); }
  }

  lemma FitsNext(q: Request, pos: nat, at: nat)
    requires Proper(q) && pos < |q.chain| && PassFits(q, pos, at)
    ensures !Whole(q, pos, at) ==> pos + RunLength(q.chain, pos) < |q.chain|
  {
  }

  /** A run whose last cluster has no successor is the last of the chain. */
  lemma ChainEnds(fat: seq<nat>, entry: nat, chain: seq<nat>, pos: nat, last: nat)
    requires ChainIs(fat, entry, chain) && pos < |chain| && chain[pos] <= last
      && Contiguous(fat, chain[pos], last - chain[pos])
    requires NextCluster(fat, last).None?
    ensures last == chain[pos] + RunLength(chain, pos) - 1 ==> pos + RunLength(chain, pos) == |chain|
  {
    hide RunLength, NextCluster, ChainIs, Contiguous;
    Follows(fat, entry, chain, pos, last - chain[pos]);
    ChainStep(fat, entry, chain);
  }

  /** As `Reading`, with the device holding what was written so far. */
  ghost predicate Writing(job: Job, disk0: seq<Byte>, mem: nat -> Byte, disk: seq<Byte>, pos: nat, at: nat, got: nat,
                          pass: nat, done: seq<nat>)
    requires Proper(job.q) && pos < |job.q.chain|
  {
    Following(job, pos, at, got, pass, done) && ((got > job.q.n && job.plan.None?) || WrittenTo(disk0, done, mem, disk))
  }

  lemma StartWriting(job: Job, disk: seq<Byte>, mem: nat -> Byte, pos: nat, at: nat)
    requires Proper(job.q) && pos < |job.q.chain| && job.plan == PlanFrom(job.q, pos, at, 0)
    ensures Writing(job, disk, mem, disk, pos, at, 0, 0, [])
  {
    hide PlanFrom;
    if job.plan.Some? { assert [] + job.plan.value.source == job.plan.value.source; }
  }

  lemma WriteOverrun(job: Job, disk0: seq<Byte>, mem: nat -> Byte, disk: seq<Byte>, pos: nat, at: nat, got: nat,
                     pass: nat, done: seq<nat>)
    requires Proper(job.q) && pos < |job.q.chain|
    ensures got > job.q.n && job.plan.None? ==> Writing(job, disk0, mem, disk, pos, at, got, pass, done)
    ensures job.plan.None? ==> !Runs(job.plan, job.faults)
  {
    hide PlanFrom;
  }

  /** A write goes to the addresses of all its sectors. */
  lemma WriteAddresses(q: Request, pos: nat, at: nat)
    requires Proper(q) && pos < |q.chain| && q.write && PassFits(q, pos, at)
    ensures PassAddresses(q, pos, at) == Addresses(PassStart(q, pos, at), PassCount(q, pos, at))
    ensures |PassAddresses(q, pos, at)| == PassLength(q, pos, at) || Whole(q, pos, at)
  {
    hide PassStart, RunBytes, Kept, EnoughLeft, RunLength, SectorsFor;
  }

  /** One device write of a plan. */
  lemma WriteStep(job: Job, disk0: seq<Byte>, mem: nat -> Byte, before: seq<Byte>, disk: seq<Byte>, pos: nat, at: nat,
                  got: nat, pass: nat,
                  done: seq<nat>)
    requires Proper(job.q) && pos < |job.q.chain| && job.q.write
      && Writing(job, disk0, mem, before, pos, at, got, pass, done)
    requires PassFits(job.q, pos, at) && pass !in job.faults ==>
      PatchedBy(before, PassStart(job.q, pos, at), PassCount(job.q, pos, at), mem, got, disk)
    ensures !PassFits(job.q, pos, at) || pass in job.faults ==> !Runs(job.plan, job.faults)
    ensures PassFits(job.q, pos, at) && pass !in job.faults ==>
      var len := PassLength(job.q, pos, at);
      && (got + len == job.q.n ==> Runs(job.plan, job.faults) && WrittenTo(disk0, job.plan.value.source, mem, disk))
      && (got + len != job.q.n ==>
            var pos', done' := pos + RunLength(job.q.chain, pos), NextDone(job, pos, at, got, done);
            && (Whole(job.q, pos, at) ==> !Runs(job.plan, job.faults) && job.plan.None? && got + len > job.q.n)
            && (pos' < |job.q.chain| && !Whole(job.q, pos, at) ==>
                Writing(job, disk0, mem, disk, pos', 0, got + len, pass + 1, done')))
  {
    hide PassAddresses, PassLength, PassFits, WrittenTo, Whole, RunLength, PlanFrom, Following, Runs, PassStart,
      PassCount, PatchedBy;
    var q := job.q;
    if PassFits(q, pos, at) && pass !in job.faults {
      WriteAddresses(q, pos, at);
      FollowStep(job, pos, at, got, pass, done);
      WriteOverrun(job, disk0, mem, disk, if pos + RunLength(q.chain, pos) < |q.chain|
        then pos + RunLength(q.chain, pos) else pos, 0,
        got + PassLength(q, pos, at), pass + 1, NextDone(job, pos, at, got, done));
      if got + PassLength(q, pos, at) == q.n || (!Whole(q, pos, at) && !(got > q.n && job.plan.None?)) {
        WrittenMore(disk0, done, mem, before, PassStart(q, pos, at), PassCount(q, pos, at), disk);
      }
    } else {
      FollowFails(job, pos, at, got, pass, done);
    }
  }

  lemma FollowFails(job: Job, pos: nat, at: nat, got: nat, pass: nat, done: seq<nat>)
    requires Proper(job.q) && pos < |job.q.chain| && Following(job, pos, at, got, pass, done)
    ensures !PassFits(job.q, pos, at) || pass in job.faults ==> !Runs(job.plan, job.faults)
  {
    hide PassAddresses, PassFits, Whole, PassLength, RunLength;
  }

  // ---------------------------------------------------------------- requests

  lemma ProperRequest(q: Request, fat: seq<nat>, entry: nat)
    requires ChainIs(fat, entry, q.chain) && OnDevice(q.g, q.chain, q.device)
    ensures Proper(q)
  {
    ClusterSize(q.g);
  }

  /** The plan of a request, and when it is the right one. */
  lemma Served(q: Request, offset: nat, faults: set<nat>)
    requires Proper(q) && OnDevice(q.g, q.chain, q.device)
    ensures q.n > 0 && faults == {} ==>
      ((Runs(RequestPlan(q, offset), faults) && Exact(q, offset, RequestPlan(q, offset))) <==>
       ((ConsecutiveRequest(q.g, q.chain, offset, q.n) || CleanSplit(q.g, q.chain, offset, q.n))
         && (q.write ==> Sectored(q.g, offset, q.n))))
  {
    hide BytesPerCluster, OnDevice, ConsecutiveRequest, CleanSplit, Sectored, RequestPlan, Right, Proper;
    if q.n > 0 && faults == {} {
      ServedExactly(q, offset);
    }
  }

  lemma NoRun(faults: set<nat>)
    ensures !Runs(None, faults)
  {
  }

  lemma ConsecutiveWhole(q: Request, offset: nat, skip: nat, at: nat)
    requires Proper(q) && skip < |q.chain| && skip == offset / BytesPerCluster(q.g)
      && at == offset % BytesPerCluster(q.g)
    ensures ConsecutiveRequest(q.g, q.chain, offset, q.n) ==> Whole(q, skip, at)
  {
    hide BytesPerCluster, RunLength, Times, ConsecutiveRequest;
    KeptSmall(at, q.g.bytesPerSector);
    if q.n > 0 {
      ConsecutiveIs(q.g, q.chain, offset, q.n);
    } else {
      NothingAsked(q.g, q.chain, offset);
    }
  }

  lemma NothingAsked(g: Geometry, chain: seq<nat>, offset: nat)
    requires ValidGeometry(g)
    ensures !ConsecutiveRequest(g, chain, offset, 0)
  {
  }

  /** Consecutive requests take one pass, so that only a fault in it matters. */
  lemma ConsecutiveOnePass(q: Request, offset: nat, faults: set<nat>)
    requires Proper(q) && ConsecutiveRequest(q.g, q.chain, offset, q.n) && RequestPlan(q, offset).Some?
    ensures Runs(RequestPlan(q, offset), faults) <==> 0 !in faults
  {
    hide BytesPerCluster, PlanFrom, Whole;
    var skip, at := offset / BytesPerCluster(q.g), offset % BytesPerCluster(q.g);
    ConsecutiveWhole(q, offset, skip, at);
    WholeInOne(q, skip, at);
  }

  lemma WholeInOne(q: Request, pos: nat, at: nat)
    requires Proper(q) && pos < |q.chain| && Whole(q, pos, at) && PlanFrom(q, pos, at, 0).Some?
    ensures PlanFrom(q, pos, at, 0).value.passes == 1
  {
    hide PassFits, PassAddresses, RunBytes, RunLength;
  }

  // ---------------------------------------------------------------- the file's contents

  /** Byte `j` of the file is `v`. */
  ghost predicate FileByteIs(g: Geometry, chain: seq<nat>, disk: seq<Byte>, j: nat, v: Byte)
    requires ValidGeometry(g)
  {
    exists a: nat :: a < |disk| && FileIs(g, chain, j, a) && disk[a] == v
  }

  /** A right plan delivers the file's bytes. */
  lemma ReadGives(q: Request, disk: seq<Byte>, offset: nat, plan: Option<Plan>, mem: seq<Byte>, out: seq<Byte>)
    requires Proper(q) && Exact(q, offset, plan) && Filled(disk, plan.value.source, mem, 0, out, q.g.bytesPerSector)
    ensures q.n <= |out| && forall i :: 0 <= i < q.n ==> FileByteIs(q.g, q.chain, disk, offset + i, out[i])
  {
    hide FileIs;
    var source := plan.value.source;
    forall i | 0 <= i < q.n
      ensures FileByteIs(q.g, q.chain, disk, offset + i, out[i])
    {
      assert FileIs(q.g, q.chain, offset + i, source[i]) && out[0 + i] == disk[source[i]];
    }
  }

  /** Exactly the bytes of the request have changed, to what was in memory. */
  ghost predicate Written(g: Geometry, chain: seq<nat>, disk: seq<Byte>, disk': seq<Byte>, offset: nat, n: nat,
                          mem: nat -> Byte)
    requires ValidGeometry(g)
  {
    && |disk'| == |disk|
    && (forall i :: 0 <= i < n ==> FileByteIs(g, chain, disk', offset + i, mem(i)))
    && (forall a :: 0 <= a < |disk| && disk'[a] != disk[a] ==> InRequest(g, chain, offset, n, a))
  }

  /** Device address `a` holds a byte of the request. */
  ghost predicate InRequest(g: Geometry, chain: seq<nat>, offset: nat, n: nat, a: nat)
    requires ValidGeometry(g)
  {
    exists j: nat :: offset <= j < offset + n && FileIs(g, chain, j, a)
  }

  /** The clusters of a chain that ends are distinct. */
  lemma {:induction false} ChainDistinct(fat: seq<nat>, entry: nat, chain: seq<nat>, i: nat, j: nat)
    requires ChainIs(fat, entry, chain) && i < j < |chain|
    ensures chain[i] != chain[j]
    decreases |chain| - j
  {
    hide NextCluster, ChainIs;
    ChainStep(fat, entry, chain);
    assert NextCluster(fat, chain[i]) == Some(chain[i + 1]);
    if chain[i] == chain[j] && j + 1 < |chain| {
      ChainDistinct(fat, entry, chain, i + 1, j + 1);
    }
  }

  /** No two bytes of a file share a device address. */
  lemma BytesApart(fat: seq<nat>, entry: nat, g: Geometry, chain: seq<nat>, i: nat, j: nat, a: nat)
    requires ChainIs(fat, entry, chain) && ValidGeometry(g) && FileIs(g, chain, i, a) && FileIs(g, chain, j, a)
    ensures i == j
  {
    hide NextCluster, ClusterAddress, BytesPerCluster, ChainIs;
    var size := BytesPerCluster(g);
    var c, d := i / size, j / size;
    SameCluster(g, chain[c], chain[d], i % size, j % size);
    Divides(i, size);
    Divides(j, size);
    if c < d { ChainDistinct(fat, entry, chain, c, d); }
    if d < c { ChainDistinct(fat, entry, chain, d, c); }
  }

  lemma SameCluster(g: Geometry, c: nat, d: nat, x: nat, y: nat)
    requires c >= 2 && d >= 2 && x < BytesPerCluster(g) && y < BytesPerCluster(g)
    requires ClusterAddress(g, c) + x == ClusterAddress(g, d) + y
    ensures c == d && x == y
  {
    hide ClusterAddress, BytesPerCluster;
    if c < d {
      ClusterAddressStep(g, c, d - c);
      TimesMonotone(1, d - c, BytesPerCluster(g));
    } else if d < c {
      ClusterAddressStep(g, d, c - d);
      TimesMonotone(1, c - d, BytesPerCluster(g));
    }
  }

  /** A right plan writes the file's bytes and no others. */
  lemma WriteGives(q: Request, fat: seq<nat>, entry: nat, disk: seq<Byte>, disk': seq<Byte>, offset: nat,
                   plan: Option<Plan>, mem: nat -> Byte)
    requires Proper(q) && ChainIs(fat, entry, q.chain) && OnDevice(q.g, q.chain, |disk|)
    requires Exact(q, offset, plan) && WrittenTo(disk, plan.value.source, mem, disk')
    ensures Written(q.g, q.chain, disk, disk', offset, q.n, mem)
  {
    hide FileIs, ChainIs, LastIndex, OnDevice, Right;
    var source := plan.value.source;
    forall i | 0 <= i < q.n
      ensures FileByteIs(q.g, q.chain, disk', offset + i, mem(i))
    {
      LastIsOwn(q, fat, entry, offset, source, i);
      FileOnDevice(q.g, q.chain, |disk|, offset + i, source[i]);
      assert disk'[source[i]] == WrittenByte(disk[source[i]], source, mem, source[i]);
    }
    forall a | 0 <= a < |disk| && disk'[a] != disk[a]
      ensures InRequest(q.g, q.chain, offset, q.n, a)
    {
      assert disk'[a] == WrittenByte(disk[a], source, mem, a);
      OwnAddress(q, offset, source, LastIndex(source, a));
    }
  }

  lemma OwnAddress(q: Request, offset: nat, source: seq<nat>, k: nat)
    requires Proper(q) && Right(q.g, q.chain, offset, source) && k < |source|
    ensures FileIs(q.g, q.chain, offset + k, source[k])
  {
  }

  /** No address of a right plan is written twice. */
  lemma LastIsOwn(q: Request, fat: seq<nat>, entry: nat, offset: nat, source: seq<nat>, i: nat)
    requires Proper(q) && ChainIs(fat, entry, q.chain) && Right(q.g, q.chain, offset, source) && i < |source|
    ensures LastIndex(source, source[i]) == i && FileIs(q.g, q.chain, offset + i, source[i])
  {
    hide FileIs, ChainIs, LastIndex, Right;
    var k := LastIndex(source, source[i]);
    OwnAddress(q, offset, source, i);
    OwnAddress(q, offset, source, k);
    BytesApart(fat, entry, q.g, q.chain, offset + i, offset + k, source[i]);
  }

  /** An address of the file tells its cluster and the place in it: the file lies in the data area. */
  lemma FileInData(g: Geometry, chain: seq<nat>, j: nat, a: nat)
    requires ValidGeometry(g) && FileIs(g, chain, j, a)
    ensures a >= DataStart(g)
    ensures var size := BytesPerCluster(g);
      (a - DataStart(g)) / size + 2 == chain[j / size] && (a - DataStart(g)) % size == j % size
  {
    hide DataStart, BytesPerCluster, ClusterAddress;
    var size := BytesPerCluster(g);
    DivStep(chain[j / size] - 2, j % size, size);
  }

  lemma FileOnDevice(g: Geometry, chain: seq<nat>, device: nat, j: nat, a: nat)
    requires OnDevice(g, chain, device) && FileIs(g, chain, j, a)
    ensures a < device
  {
    hide ClusterAddress, BytesPerCluster;
  }

  lemma ReadBack(g: Geometry, chain: seq<nat>, disk: seq<Byte>, offset: nat, n: nat, mem: nat -> Byte, out: seq<Byte>)
    requires ValidGeometry(g) && n <= |out|
    requires forall i :: 0 <= i < n ==> FileByteIs(g, chain, disk, offset + i, mem(i))
    requires forall i :: 0 <= i < n ==> FileByteIs(g, chain, disk, offset + i, out[i])
    ensures forall i :: 0 <= i < n ==> out[i] == mem(i)
  {
    forall i | 0 <= i < n
      ensures out[i] == mem(i)
    {
      assert FileByteIs(g, chain, disk, offset + i, mem(i)) && FileByteIs(g, chain, disk, offset + i, out[i]);
    }
  }

  /**
    A file in the clusters 2 and 4, of three one-byte sectors each, on a device whose bytes are
    all different: bytes 2 and 3 are measured as one run inside cluster 2, and the read
    reports success with a byte of cluster 3.
   */
  method FragmentedRead() returns (r: Result<nat, ()>, out: seq<Byte>)
    ensures r == Ok(2) && |out| >= 2 && out[0] == 2 && out[1] == 3
    ensures var g, chain := Geometry(0, 1, 3, 0, 0, 0), [2, 4];
      FileIs(g, chain, 2, 2) && FileIs(g, chain, 3, 6) && !ConsecutiveRequest(g, chain, 2, 2)
        && !CleanSplit(g, chain, 2, 2)
  {
    hide ChainIs, OnDevice, RequestPlan, FileIs, ConsecutiveRequest, CleanSplit, Exact, Proper;
    var g, fat, disk := Geometry(0, 1, 3, 0, 0, 0), [0, 0, 4, 0, 0], [0, 1, 2, 3, 4, 5, 6, 7, 8];
    ghost var chain := [2, 4];
    var v := new Volume(g, fat, disk);
    var file := new FileInfo(2, 6);
    FragmentedFile(g, fat, chain);
    FragmentedPlan(Request(g, chain, 9, 2, false));
    r, out := v.Read(file, [], 2, 2, {}, chain);
    ghost var source := [2, 3];
    assert out[0 + 0] == disk[source[0]] && out[0 + 1] == disk[source[1]];
  }

  lemma FragmentedFile(g: Geometry, fat: seq<nat>, chain: seq<nat>)
    requires g == Geometry(0, 1, 3, 0, 0, 0) && fat == [0, 0, 4, 0, 0] && chain == [2, 4]
    ensures ChainIs(fat, 2, chain) && OnDevice(g, chain, 9)
    ensures FileIs(g, chain, 2, 2) && FileIs(g, chain, 3, 6) && !ConsecutiveRequest(g, chain, 2, 2)
      && !CleanSplit(g, chain, 2, 2)
  {
    hide Consecutive, BytesPerCluster, ClusterAddress, ByteAddress;
    FragmentedGeometry(g, chain[0]);
    FragmentedGeometry(g, chain[1]);
    FragmentedSplit(chain);
  }

  lemma FragmentedGeometry(g: Geometry, c: nat)
    requires g == Geometry(0, 1, 3, 0, 0, 0) && c >= 2
    ensures BytesPerCluster(g) == 3 && ClusterAddress(g, c) == 3 * (c - 2)
  {
  }

  lemma FragmentedSplit(chain: seq<nat>)
    requires chain == [2, 4]
    ensures !Consecutive(chain, 0, 1)
  {
    assert chain[1] != chain[0] + (1 - 0);
  }

  lemma FragmentedPlan(q: Request)
    requires q == Request(Geometry(0, 1, 3, 0, 0, 0), [2, 4], 9, 2, false)
    ensures Proper(q) && RequestPlan(q, 2) == Some(Plan([2, 3], 1))
  {
    hide BytesPerCluster, ClusterAddress, PassStart, Times, KeptOffset, RunLength, SectorsFor;
    FragmentedGeometry(q.g, q.chain[0]);
    FragmentedNumbers(q.chain);
    StartIs(q, 0, 2);
    assert PassAddresses(q, 0, 2) == [2, 3];
  }

  lemma FragmentedNumbers(chain: seq<nat>)
    requires chain == [2, 4]
    ensures RunLength(chain, 0) == 1 && KeptOffset(2, 1) == 0 && SectorsFor(0 + 2, 1) == 2 && Times(1, 3) == 3
      && Times(2, 1) == 2
  {
  }
}
