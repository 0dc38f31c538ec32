/**
  Which device address each byte of a file request is read from or written to, pass by pass,
  as a function of the cluster chain; and for which requests those are the file's own bytes.
 */
module Fat32Plan {
  import opened Arith
  import opened Common
  import opened Fat32Chain

  // ---------------------------------------------------------------- arithmetic

  /** Sectors that hold `t` bytes; a request for nothing still takes one. */
  function SectorsFor(t: nat, b: nat): nat
    requires b > 0
  {
    1 + (if t == 0 then 0 else t - 1) / b
  }

  lemma SectorsHold(t: nat, b: nat)
    requires b > 0
    ensures t <= SectorsFor(t, b) * b && (t > 0 ==> SectorsFor(t, b) * b < t + b)
  {
  }

  lemma WholeSectors(n: nat, b: nat)
    requires b > 0 && n > 0
    ensures SectorsFor(n * b, b) == n
  {
    Distribute(n - 1, 1, b);
    DivStep(n - 1, b - 1, b);
  }

  lemma MultipleBound(x: nat, y: nat, b: nat)
    requires b > 0 && x * b < y * b + b
    ensures x * b <= y * b
  {
    if x > y {
      Distribute(y + 1, x - y - 1, b);
      Distribute(y, 1, b);
    } else {
      Distribute(x, y - x, b);
    }
  }

  /** The sectors of a request that lies within whole clusters lie within them too. */
  lemma SectorsWithin(o: nat, t: nat, m: nat, s: nat, b: nat)
    requires b > 0 && t > 0 && o * b + t <= m * (s * b)
    ensures o * b + SectorsFor(t, b) * b <= m * (s * b)
  {
    var n := SectorsFor(t, b);
    SectorsHold(t, b);
    Associate(m, s, b);
    Distribute(o, n, b);
    MultipleBound(o + n, m * s, b);
  }

  /** A product the solver is not to look into. */
  ghost function Times(k: nat, n: nat): nat { k * n }

  lemma TimesStep(k: nat, n: nat)
    ensures Times(0, n) == 0 && Times(1, n) == n && Times(k + 1, n) == Times(k, n) + n
  {
  }

  lemma TimesMonotone(a: nat, b: nat, n: nat)
    ensures a <= b ==> Times(a, n) <= Times(b, n)
    ensures n > 0 && a < b ==> Times(a, n) < Times(b, n)
  {
  }

  lemma TimesSum(a: nat, b: nat, n: nat)
    ensures Times(a + b, n) == Times(a, n) + Times(b, n)
  {
  }

  lemma TimesDivides(k: nat, r: nat, n: nat)
    requires r < n
    ensures (Times(k, n) + r) / n == k && (Times(k, n) + r) % n == r
  {
    DivStep(k, r, n);
  }

  lemma Divides(x: nat, n: nat)
    requires n > 0
    ensures x == Times(x / n, n) + x % n
  {
  }

  // ---------------------------------------------------------------- one pass

  /** Whole sectors are skipped, except that an offset of exactly one sector is kept as it is. */
  function SkippedSectors(dataOffset: nat, b: nat): nat
    requires b > 0
  {
    if dataOffset > b then dataOffset / b else 0
  }

  function KeptOffset(dataOffset: nat, b: nat): (d: nat)
    requires b > 0
    ensures d <= b && dataOffset == SkippedSectors(dataOffset, b) * b + d
  {
    if dataOffset > b then dataOffset % b else dataOffset
  }

  lemma KeptSmall(at: nat, b: nat)
    requires b > 0
    ensures at <= b ==> KeptOffset(at, b) == at && SkippedSectors(at, b) == 0
    ensures at > b ==> KeptOffset(at, b) < at
    ensures KeptOffset(at, b) <= at
  {
  }

  /** Clusters from position `pos` of a chain on that follow one another physically. */
  ghost function RunLength(chain: seq<nat>, pos: nat): (l: nat)
    requires pos < |chain|
    ensures 0 < l && pos + l <= |chain| && Consecutive(chain, pos, pos + l - 1)
    ensures pos + l < |chain| ==> chain[pos + l] != chain[pos] + l
    decreases |chain| - pos
  {
    if pos + 1 < |chain| && chain[pos + 1] == chain[pos] + 1 then 1 + RunLength(chain, pos + 1) else 1
  }

  /** All clusters of a chain are data clusters on the device. */
  ghost predicate OnDevice(g: Geometry, chain: seq<nat>, device: nat) {
    && ValidGeometry(g)
    && forall i :: 0 <= i < |chain| ==> chain[i] >= 2 && ClusterAddress(g, chain[i]) + BytesPerCluster(g) <= device
  }

  /** A request of `n` bytes `at` bytes into a cluster, a read or a write, from position `pos` of the chain on. */
  datatype Request = Request(g: Geometry, chain: seq<nat>, device: nat, n: nat, write: bool)

  ghost predicate Proper(q: Request) {
    ValidGeometry(q.g) && BytesPerCluster(q.g) > 0 && forall i :: 0 <= i < |q.chain| ==> q.chain[i] >= 2
  }

  /** First device address a pass touches. */
  ghost function PassStart(q: Request, pos: nat, at: nat): nat
    requires Proper(q) && pos < |q.chain|
  {
    SectorAddress(q.g, ClusterToSector(q.g, q.chain[pos]) + SkippedSectors(at, q.g.bytesPerSector))
  }

  /** The in-sector offset of a pass. */
  ghost function Kept(q: Request, at: nat): nat
    requires Proper(q)
  {
    KeptOffset(at, q.g.bytesPerSector)
  }

  /** Bytes in the run of clusters, as the code counts them. */
  ghost function RunBytes(q: Request, pos: nat): nat
    requires Proper(q) && pos < |q.chain|
  {
    Times(RunLength(q.chain, pos), BytesPerCluster(q.g))
  }

  /** The pass takes the run for long enough; it always looks at the whole length of the request. */
  ghost predicate Whole(q: Request, pos: nat, at: nat)
    requires Proper(q) && pos < |q.chain|
  {
    Kept(q, at) + q.n <= RunBytes(q, pos)
  }

  ghost function PassLength(q: Request, pos: nat, at: nat): nat
    requires Proper(q) && pos < |q.chain|
  {
    KeptFits(q, pos, at);
    if Whole(q, pos, at) then q.n else RunBytes(q, pos) - Kept(q, at)
  }

  lemma KeptFits(q: Request, pos: nat, at: nat)
    requires Proper(q) && pos < |q.chain|
    ensures Kept(q, at) <= q.g.bytesPerSector <= BytesPerCluster(q.g) <= RunBytes(q, pos)
  {
    hide RunLength, Times, BytesPerCluster;
    ClusterSize(q.g);
    TimesStep(0, BytesPerCluster(q.g));
    TimesMonotone(1, RunLength(q.chain, pos), BytesPerCluster(q.g));
  }

  /** Bytes of whole sectors the device moves. */
  ghost function PassCount(q: Request, pos: nat, at: nat): nat
    requires Proper(q) && pos < |q.chain|
  {
    if Whole(q, pos, at) then Times(SectorsFor(Kept(q, at) + q.n, q.g.bytesPerSector), q.g.bytesPerSector)
      else RunBytes(q, pos)
  }

  /** What a write demands of the last cluster it comes to: at least a sector is left for it. */
  ghost predicate EnoughLeft(n: nat, size: nat, b: nat)
    requires size > 0
  {
    n > 0 && n >= Times((n - 1) / size, size) + b
  }

  /** The pass succeeds if the device does. */
  ghost predicate PassFits(q: Request, pos: nat, at: nat)
    requires Proper(q) && pos < |q.chain|
  {
    && (q.write ==> Kept(q, at) == 0)
    && (if Whole(q, pos, at) then q.write ==> EnoughLeft(q.n, BytesPerCluster(q.g), q.g.bytesPerSector)
        else pos + RunLength(q.chain, pos) < |q.chain|)
    && PassStart(q, pos, at) + PassCount(q, pos, at) <= q.device
  }

  ghost function Addresses(start: nat, n: nat): (s: seq<nat>)
    ensures |s| == n && forall i :: 0 <= i < n ==> s[i] == start + i
  {
    seq(n, (i: nat) => start + i)
  }

  /** Device addresses a pass moves from or to, in the order of memory; a write moves whole sectors. */
  ghost function PassAddresses(q: Request, pos: nat, at: nat): seq<nat>
    requires Proper(q) && pos < |q.chain|
  {
    Addresses(PassStart(q, pos, at) + Kept(q, at), if q.write && Whole(q, pos, at) then PassCount(q, pos, at)
      else PassLength(q, pos, at))
  }

  // ---------------------------------------------------------------- all passes

  /** Where the bytes of a request are moved from or to, in order, in how many passes. */
  datatype Plan = Plan(source: seq<nat>, passes: nat)

  /**
    The passes from position `pos` on, after `got` bytes; None if one fails or the bytes never
    add up to the request. A pass that takes its run for long enough ends the request only if
    it is the first.
   */
  ghost function PlanFrom(q: Request, pos: nat, at: nat, got: nat): (p: Option<Plan>)
    requires Proper(q) && pos < |q.chain|
    ensures p.Some? ==> p.value.passes > 0
    decreases |q.chain| - pos
  {
    if !PassFits(q, pos, at) then None
    else if got + PassLength(q, pos, at) == q.n then Some(Plan(PassAddresses(q, pos, at), 1))
    else if Whole(q, pos, at) then None
    else After(PassAddresses(q, pos, at), 1,
      PlanFrom(q, pos + RunLength(q.chain, pos), 0, got + PassLength(q, pos, at)))
  }

  /** A plan continued after `passes` passes over `source`. */
  function After(source: seq<nat>, passes: nat, rest: Option<Plan>): Option<Plan> {
    if rest.None? then None else Some(Plan(source + rest.value.source, passes + rest.value.passes))
  }

  lemma AfterAfter(s1: seq<nat>, p1: nat, s2: seq<nat>, p2: nat, rest: Option<Plan>)
    ensures After(s1, p1, After(s2, p2, rest)) == After(s1 + s2, p1 + p2, rest)
  {
    if rest.Some? {
      assert s1 + (s2 + rest.value.source) == (s1 + s2) + rest.value.source;
    }
  }

  // ---------------------------------------------------------------- the file's own bytes

  /** Byte `j` of the file is at device address `a`. */
  ghost predicate FileIs(g: Geometry, chain: seq<nat>, j: nat, a: nat)
    requires ValidGeometry(g)
  {
    && BytesPerCluster(g) > 0 && j / BytesPerCluster(g) < |chain| && chain[j / BytesPerCluster(g)] >= 2
    && ByteAddress(g, chain, j) == a
  }

  /** The addresses are those of the bytes of the file from `offset` on. */
  ghost predicate Right(g: Geometry, chain: seq<nat>, offset: nat, source: seq<nat>)
    requires ValidGeometry(g)
  {
    forall i :: 0 <= i < |source| ==> FileIs(g, chain, offset + i, source[i])
  }

  lemma RightConcat(g: Geometry, chain: seq<nat>, offset: nat, a: seq<nat>, b: seq<nat>)
    requires ValidGeometry(g)
    ensures Right(g, chain, offset, a + b) <==> Right(g, chain, offset, a) && Right(g, chain, offset + |a|, b)
  {
    hide FileIs;
    if Right(g, chain, offset, a + b) {
      forall i | 0 <= i < |a| ensures FileIs(g, chain, offset + i, a[i]) {
        assert (a + b)[i] == a[i];
      }
      forall i | 0 <= i < |b| ensures FileIs(g, chain, offset + |a| + i, b[i]) {
        assert (a + b)[|a| + i] == b[i];
      }
    }
    if Right(g, chain, offset, a) && Right(g, chain, offset + |a|, b) {
      forall i | 0 <= i < |a + b| ensures FileIs(g, chain, offset + i, (a + b)[i]) {
        if i >= |a| { assert FileIs(g, chain, offset + |a| + (i - |a|), b[i - |a|]); }
      }
    }
  }

  /** Bytes of a run of clusters are where the run says. */
  lemma RunByte(g: Geometry, chain: seq<nat>, pos: nat, x: nat)
    requires ValidGeometry(g) && pos < |chain| && chain[pos] >= 2
      && x < Times(RunLength(chain, pos), BytesPerCluster(g))
    ensures FileIs(g, chain, Times(pos, BytesPerCluster(g)) + x, ClusterAddress(g, chain[pos]) + x)
  {
    hide ClusterAddress, ByteAddress, RunLength;
    ClusterSize(g);
    ByteAddressRun(g, chain, pos, pos + RunLength(chain, pos) - 1, x);
  }

  /** And the byte after it is not. */
  lemma RunEdge(g: Geometry, chain: seq<nat>, pos: nat)
    requires ValidGeometry(g) && pos < |chain| && chain[pos] >= 2
    ensures var l, size := RunLength(chain, pos), BytesPerCluster(g);
      !FileIs(g, chain, Times(pos + l, size), ClusterAddress(g, chain[pos]) + Times(l, size))
  {
    hide ClusterAddress, RunLength, BytesPerCluster, Times;
    ClusterSize(g);
    var l, size := RunLength(chain, pos), BytesPerCluster(g);
    TimesDivides(pos + l, 0, size);
    if pos + l < |chain| && chain[pos + l] >= 2 {
      ClusterApart(g, chain[pos + l], chain[pos], l);
    }
  }

  lemma ClusterApart(g: Geometry, c: nat, d: nat, l: nat)
    requires ValidGeometry(g) && c >= 2 && d >= 2 && c != d + l
    ensures ClusterAddress(g, c) != ClusterAddress(g, d) + Times(l, BytesPerCluster(g))
  {
    hide ClusterAddress, BytesPerCluster;
    ClusterSize(g);
    ClusterAddressStep(g, d, l);
    if c < d + l {
      ClusterAddressStep(g, c, d + l - c);
      TimesMonotone(0, d + l - c, BytesPerCluster(g));
      TimesStep(0, BytesPerCluster(g));
    } else {
      ClusterAddressStep(g, d + l, c - d - l);
      TimesMonotone(0, c - d - l, BytesPerCluster(g));
      TimesStep(0, BytesPerCluster(g));
    }
  }

  // ---------------------------------------------------------------- the passes after the first

  lemma StartIs(q: Request, pos: nat, at: nat)
    requires Proper(q) && pos < |q.chain|
    ensures PassStart(q, pos, at) + Kept(q, at) == ClusterAddress(q.g, q.chain[pos]) + at
  {
    hide ClusterAddress, KeptOffset, SkippedSectors, SectorAddress, ClusterToSector;
    SkipAddress(q.g, q.chain[pos], SkippedSectors(at, q.g.bytesPerSector));
  }

  lemma SkipAddress(g: Geometry, c: nat, so: nat)
    requires c >= 2
    ensures SectorAddress(g, ClusterToSector(g, c) + so) == ClusterAddress(g, c) + so * g.bytesPerSector
  {
  }

  /** A run of clusters is on the device. */
  lemma RunOnDevice(q: Request, pos: nat)
    requires Proper(q) && pos < |q.chain| && OnDevice(q.g, q.chain, q.device)
    ensures ClusterAddress(q.g, q.chain[pos]) + RunBytes(q, pos) <= q.device
  {
    hide ClusterAddress, RunLength, BytesPerCluster;
    var l := RunLength(q.chain, pos);
    assert q.chain[pos + l - 1] == q.chain[pos] + (l - 1);
    ClusterAddressStep(q.g, q.chain[pos], l - 1);
    TimesStep(l - 1, BytesPerCluster(q.g));
  }

  /** A pass from the start of a cluster over a run shorter than the request. */
  lemma PartPass(q: Request, pos: nat)
    requires Proper(q) && pos < |q.chain| && OnDevice(q.g, q.chain, q.device) && !Whole(q, pos, 0)
    ensures Kept(q, 0) == 0 && PassLength(q, pos, 0) == RunBytes(q, pos) == |PassAddresses(q, pos, 0)|
    ensures PassFits(q, pos, 0) <==> pos + RunLength(q.chain, pos) < |q.chain|
    ensures Right(q.g, q.chain, Times(pos, BytesPerCluster(q.g)), PassAddresses(q, pos, 0))
  {
    hide ClusterAddress, RunLength, BytesPerCluster, Times, SectorsFor, FileIs, Whole, PassStart;
    StartIs(q, pos, 0);
    RunOnDevice(q, pos);
    var source := PassAddresses(q, pos, 0);
    forall i | 0 <= i < |source|
      ensures FileIs(q.g, q.chain, Times(pos, BytesPerCluster(q.g)) + i, source[i])
    {
      RunByte(q.g, q.chain, pos, i);
    }
  }

  /** Position `pos` starts a new run. */
  ghost predicate Break(chain: seq<nat>, pos: nat) {
    0 < pos < |chain| && chain[pos] != chain[pos - 1] + 1
  }

  lemma NoBreakInRun(chain: seq<nat>, pos: nat, m: nat)
    requires pos < |chain| && m > 0
    ensures m < RunLength(chain, pos) ==> !Break(chain, pos + m)
    ensures m == RunLength(chain, pos) && pos + m < |chain| ==> Break(chain, pos + m)
  {
    hide RunLength;
    var l := RunLength(chain, pos);
    if m <= l {
      assert chain[pos + m - 1] == chain[pos] + (m - 1);
    }
  }

  /** The later passes add up to the request only if it ends at the end of a run; they then deliver its bytes. */
  lemma {:induction false} TailMeans(q: Request, pos: nat, got: nat) returns (m: nat)
    requires Proper(q) && pos < |q.chain| && OnDevice(q.g, q.chain, q.device) && got > 0
    requires PlanFrom(q, pos, 0, got).Some?
    ensures m > 0 && q.n == got + Times(m, BytesPerCluster(q.g)) && Break(q.chain, pos + m)
    ensures var source := PlanFrom(q, pos, 0, got).value.source;
      got + |source| == q.n && Right(q.g, q.chain, Times(pos, BytesPerCluster(q.g)), source)
    decreases |q.chain| - pos
  {
    hide RunLength, BytesPerCluster, Times, PassAddresses, PassFits, PassLength, Right, Kept, Break, OnDevice;
    var l, size := RunLength(q.chain, pos), BytesPerCluster(q.g);
    WholeLength(q, pos, 0);
    PartPass(q, pos);
    NoBreakInRun(q.chain, pos, l);
    if got + PassLength(q, pos, 0) == q.n {
      m := l;
    } else {
      var k := TailMeans(q, pos + l, got + PassLength(q, pos, 0));
      m := l + k;
      TimesSum(l, k, size);
      TimesSum(pos, l, size);
      RightConcat(q.g, q.chain, Times(pos, size), PassAddresses(q, pos, 0),
        PlanFrom(q, pos + l, 0, got + PassLength(q, pos, 0)).value.source);
    }
  }

  lemma WholeLength(q: Request, pos: nat, at: nat)
    requires Proper(q) && pos < |q.chain|
    ensures Whole(q, pos, at) ==> PassLength(q, pos, at) == q.n
    ensures !Whole(q, pos, at) ==>
      Kept(q, at) + PassLength(q, pos, at) == RunBytes(q, pos) && PassLength(q, pos, at) < q.n
  {
    hide RunBytes, Kept;
    KeptFits(q, pos, at);
  }

  /** And a request that does is filled by them. */
  lemma {:induction false} TailFills(q: Request, pos: nat, got: nat, m: nat)
    requires Proper(q) && pos < |q.chain| && OnDevice(q.g, q.chain, q.device) && got > 0
    requires m > 0 && q.n == got + Times(m, BytesPerCluster(q.g)) && Break(q.chain, pos + m)
    ensures PlanFrom(q, pos, 0, got).Some?
    decreases |q.chain| - pos
  {
    hide RunLength, BytesPerCluster, Times, PassAddresses, PassFits, PassLength, Right, Break, OnDevice;
    var l, size := RunLength(q.chain, pos), BytesPerCluster(q.g);
    NoBreakInRun(q.chain, pos, m);
    TimesMonotone(l, m, size);
    assert Kept(q, 0) == 0;
    assert !Whole(q, pos, 0);
    PartPass(q, pos);
    BreakInChain(q.chain, pos + m);
    if m > l {
      TimesSum(l, m - l, size);
      TailFills(q, pos + l, got + PassLength(q, pos, 0), m - l);
    }
  }

  lemma BreakInChain(chain: seq<nat>, pos: nat)
    requires Break(chain, pos)
    ensures pos < |chain|
  {
  }

  // ---------------------------------------------------------------- which requests are served right

  /** The clusters of bytes offset .. offset + n of a file are physically consecutive. */
  ghost predicate ConsecutiveRequest(g: Geometry, chain: seq<nat>, offset: nat, n: nat)
    requires ValidGeometry(g)
  {
    n > 0 && BytesPerCluster(g) > 0 &&
    var first, last := offset / BytesPerCluster(g), (offset + n - 1) / BytesPerCluster(g);
    first <= last < |chain| && Consecutive(chain, first, last)
  }

  /**
    The request starts in or right after the first sector of a cluster and ends with a cluster
    that another, not the next one, follows.
   */
  ghost predicate CleanSplit(g: Geometry, chain: seq<nat>, offset: nat, n: nat)
    requires ValidGeometry(g)
  {
    BytesPerCluster(g) > 0 &&
    offset % BytesPerCluster(g) <= g.bytesPerSector && (offset + n) % BytesPerCluster(g) == 0
    && Break(chain, (offset + n) / BytesPerCluster(g))
  }

  /** A write also wants to start on a sector of its cluster other than the second, and whole sectors. */
  ghost predicate Sectored(g: Geometry, offset: nat, n: nat)
    requires ValidGeometry(g)
  {
    && BytesPerCluster(g) > 0 && n % g.bytesPerSector == 0
    && var at := offset % BytesPerCluster(g); at % g.bytesPerSector == 0 && at != g.bytesPerSector
  }

  /** The plan moves exactly the bytes of the request, each from or to its own address. */
  ghost predicate Exact(q: Request, offset: nat, p: Option<Plan>)
    requires Proper(q)
  {
    p.Some? && |p.value.source| == q.n && Right(q.g, q.chain, offset, p.value.source)
  }

  /** The whole request from its first cluster on. */
  ghost function RequestPlan(q: Request, offset: nat): Option<Plan>
    requires Proper(q)
  {
    var skip := offset / BytesPerCluster(q.g);
    if skip < |q.chain| then PlanFrom(q, skip, offset % BytesPerCluster(q.g), 0) else None
  }

  /** A request is consecutive if it ends within the run it starts in. */
  lemma ConsecutiveIs(g: Geometry, chain: seq<nat>, offset: nat, n: nat)
    requires ValidGeometry(g) && n > 0 && BytesPerCluster(g) > 0 && offset / BytesPerCluster(g) < |chain|
    ensures var skip, size := offset / BytesPerCluster(g), BytesPerCluster(g);
      ConsecutiveRequest(g, chain, offset, n) <==> offset % size + n <= Times(RunLength(chain, skip), size)
  {
    hide BytesPerCluster, RunLength, Times, Consecutive;
    var size := BytesPerCluster(g);
    SpanEnds(offset, n, size, RunLength(chain, offset / size));
    RunsTo(chain, offset / size, (offset + n - 1) / size);
  }

  /** A request ends within `l` clusters from its first one on. */
  lemma SpanEnds(offset: nat, n: nat, size: nat, l: nat)
    requires size > 0 && n > 0
    ensures offset / size <= (offset + n - 1) / size
    ensures (offset + n - 1) / size < offset / size + l <==> offset % size + n <= Times(l, size)
  {
    hide Times;
    var skip, last := offset / size, (offset + n - 1) / size;
    Divides(offset, size);
    Divides(offset + n - 1, size);
    TimesSum(skip, l, size);
    TimesMonotone(last + 1, skip + l, size);
    TimesMonotone(skip + l, last, size);
    TimesStep(last, size);
    TimesMonotone(last + 1, skip, size);
  }

  /** Clusters are consecutive as far as the run goes. */
  lemma RunsTo(chain: seq<nat>, first: nat, last: nat)
    requires first < |chain| && first <= last
    ensures last < |chain| && Consecutive(chain, first, last) <==> last < first + RunLength(chain, first)
  {
    hide RunLength;
    var l := RunLength(chain, first);
    if last < first + l {
      assert forall k :: first <= k <= last ==> chain[k] == chain[first] + (k - first);
    } else if first + l < |chain| {
      assert chain[first + l] != chain[first] + l;
    }
  }

  /** The first pass over a run that is long enough, or seems to be. */
  lemma WholePass(q: Request, offset: nat, skip: nat, at: nat)
    requires Proper(q) && skip < |q.chain| && OnDevice(q.g, q.chain, q.device) && q.n > 0
    requires offset == Times(skip, BytesPerCluster(q.g)) + at && at < BytesPerCluster(q.g) && Whole(q, skip, at)
    ensures Exact(q, offset, PlanFrom(q, skip, at, 0)) <==>
      at + q.n <= RunBytes(q, skip) && (q.write ==> Kept(q, at) == 0 && q.n % q.g.bytesPerSector == 0)
  {
    hide RunLength, BytesPerCluster, Times, SectorsFor, FileIs, RunBytes, Kept, ClusterAddress, PassStart, EnoughLeft,
      Whole;
    var source := PassAddresses(q, skip, at);
    StartIs(q, skip, at);
    WholeLength(q, skip, at);
    CountExact(q.n, q.g.bytesPerSector);
    if q.write && Kept(q, at) != 0 {
      assert !PassFits(q, skip, at);
    } else if at + q.n <= RunBytes(q, skip) {
      RightInRun(q, skip, at, offset, q.n);
      WholeFits(q, skip, at);
    } else {
      WrongAtEdge(q, skip, at, offset, source);
      assert source + [] == source;
    }
  }

  /** Addresses within a run are those of the file. */
  lemma RightInRun(q: Request, skip: nat, at: nat, offset: nat, n: nat)
    requires Proper(q) && skip < |q.chain| && offset == Times(skip, BytesPerCluster(q.g)) + at
    ensures at + n <= RunBytes(q, skip) ==>
      Right(q.g, q.chain, offset, Addresses(ClusterAddress(q.g, q.chain[skip]) + at, n))
  {
    hide RunLength, BytesPerCluster, Times, FileIs, ClusterAddress, RunBytes;
    if at + n <= RunBytes(q, skip) {
      var source := Addresses(ClusterAddress(q.g, q.chain[skip]) + at, n);
      forall i | 0 <= i < n
        ensures FileIs(q.g, q.chain, offset + i, source[i])
      {
        RunBytesIs(q, skip);
        RunByte(q.g, q.chain, skip, at + i);
      }
    }
  }

  lemma RunBytesIs(q: Request, pos: nat)
    requires Proper(q) && pos < |q.chain|
    ensures RunBytes(q, pos) == Times(RunLength(q.chain, pos), BytesPerCluster(q.g))
  {
  }

  /** Addresses past the end of a run are not. */
  lemma WrongAtEdge(q: Request, skip: nat, at: nat, offset: nat, source: seq<nat>)
    requires Proper(q) && skip < |q.chain| && offset == Times(skip, BytesPerCluster(q.g)) + at
      && at < BytesPerCluster(q.g)
    requires at + |source| > RunBytes(q, skip) && forall i :: 0 <= i < |source| ==>
      source[i] == ClusterAddress(q.g, q.chain[skip]) + at + i
    ensures forall more: seq<nat> :: !Right(q.g, q.chain, offset, source + more)
  {
    hide RunLength, BytesPerCluster, Times, FileIs, ClusterAddress, RunBytes;
    KeptFits(q, skip, at);
    RunBytesIs(q, skip);
    RunEdge(q.g, q.chain, skip);
    TimesSum(skip, RunLength(q.chain, skip), BytesPerCluster(q.g));
    var i := RunBytes(q, skip) - at;
    assert !FileIs(q.g, q.chain, offset + i, source[i]);
    forall more: seq<nat>
      ensures !Right(q.g, q.chain, offset, source + more)
    {
      assert (source + more)[i] == source[i];
    }
  }

  /** The sectors of a request within a run are on the device, and a write of whole sectors has enough left. */
  lemma WholeFits(q: Request, skip: nat, at: nat)
    requires Proper(q) && skip < |q.chain| && OnDevice(q.g, q.chain, q.device) && q.n > 0
    requires Whole(q, skip, at) && at + q.n <= RunBytes(q, skip)
    ensures PassStart(q, skip, at) + PassCount(q, skip, at) <= q.device
    ensures q.n % q.g.bytesPerSector == 0 ==> EnoughLeft(q.n, BytesPerCluster(q.g), q.g.bytesPerSector)
  {
    hide RunLength, SectorsFor, ClusterAddress, SectorAddress, ClusterToSector, KeptOffset, SkippedSectors;
    var b, so := q.g.bytesPerSector, SkippedSectors(at, q.g.bytesPerSector);
    SkipAddress(q.g, q.chain[skip], so);
    SectorsWithin(so, Kept(q, at) + q.n, RunLength(q.chain, skip), q.g.sectorsPerCluster, b);
    RunOnDevice(q, skip);
    if q.n % b == 0 {
      LastSector(q.n, q.g.sectorsPerCluster, b);
    }
  }

  lemma LastSector(n: nat, s: nat, b: nat)
    requires b > 0 && s > 0 && n > 0 && n % b == 0 && s * b > 0
    ensures EnoughLeft(n, s * b, b)
  {
    var k, q := (n - 1) / (s * b), n / b;
    assert n - 1 == (s * b) * k + (n - 1) % (s * b);
    assert n == q * b;
    Associate(k, s, b);
    assert (k * s) * b < q * b;
    if q <= k * s { Distribute(q, k * s - q, b); }
    Distribute(k * s, 1, b);
    Distribute(k * s + 1, q - k * s - 1, b);
  }

  /** A write of `n` bytes moves exactly those if they are whole sectors. */
  lemma CountExact(n: nat, b: nat)
    requires b > 0 && n > 0
    ensures Times(SectorsFor(0 + n, b), b) == n <==> n % b == 0
    ensures Times(SectorsFor(0 + n, b), b) >= n
  {
    SectorsHold(n, b);
    if n % b == 0 {
      assert n == (n / b) * b;
      WholeSectors(n / b, b);
    } else if SectorsFor(n, b) * b == n {
      DivStep(SectorsFor(n, b), 0, b);
    }
  }

  /** The first pass over a run that is too short, and what follows. */
  lemma SplitPass(q: Request, offset: nat, skip: nat, at: nat)
    requires Proper(q) && skip < |q.chain| && OnDevice(q.g, q.chain, q.device) && q.n > 0
    requires offset == Times(skip, BytesPerCluster(q.g)) + at && at < BytesPerCluster(q.g) && !Whole(q, skip, at)
    ensures Exact(q, offset, PlanFrom(q, skip, at, 0)) <==>
      && at <= q.g.bytesPerSector && (q.write ==> at == 0)
      && (offset + q.n) % BytesPerCluster(q.g) == 0 && Break(q.chain, (offset + q.n) / BytesPerCluster(q.g))
  {
    hide RunLength, BytesPerCluster, Times, SectorsFor, FileIs, ClusterAddress, PassStart, EnoughLeft, Right, Break,
      PassAddresses, KeptOffset, PassFits, OnDevice, RunBytes;
    var b := q.g.bytesPerSector;
    StartIs(q, skip, at);
    WholeLength(q, skip, at);
    KeptSmall(at, b);
    if at > b {
      SkippedIsWrong(q, offset, skip, at);
    } else if q.write && at > 0 {
      WriteNeedsSector(q, skip, at);
    } else {
      SplitFills(q, offset, skip, at);
    }
  }

  lemma WriteNeedsSector(q: Request, skip: nat, at: nat)
    requires Proper(q) && skip < |q.chain| && q.write && Kept(q, at) != 0
    ensures PlanFrom(q, skip, at, 0).None?
  {
  }

  lemma SkippedIsWrong(q: Request, offset: nat, skip: nat, at: nat)
    requires Proper(q) && skip < |q.chain| && q.n > 0
    requires offset == Times(skip, BytesPerCluster(q.g)) + at && at < BytesPerCluster(q.g) && !Whole(q, skip, at)
    requires Kept(q, at) < at
    ensures !Exact(q, offset, PlanFrom(q, skip, at, 0))
  {
    hide RunLength, BytesPerCluster, Times, SectorsFor, FileIs, ClusterAddress, PassStart, EnoughLeft, Right, Kept,
      PassFits, RunBytes;
    StartIs(q, skip, at);
    WholeLength(q, skip, at);
    var source := PassAddresses(q, skip, at);
    WrongAtEdge(q, skip, at, offset, source);
    assert source + [] == source;
  }

  lemma SplitFills(q: Request, offset: nat, skip: nat, at: nat)
    requires Proper(q) && skip < |q.chain| && OnDevice(q.g, q.chain, q.device) && q.n > 0
    requires offset == Times(skip, BytesPerCluster(q.g)) + at && at < BytesPerCluster(q.g) && !Whole(q, skip, at)
    requires Kept(q, at) == at && (q.write ==> at == 0)
    ensures Exact(q, offset, PlanFrom(q, skip, at, 0)) <==>
      (offset + q.n) % BytesPerCluster(q.g) == 0 && Break(q.chain, (offset + q.n) / BytesPerCluster(q.g))
  {
    hide RunLength, BytesPerCluster, Times, SectorsFor, FileIs, ClusterAddress, PassStart, EnoughLeft, Right, Break,
      Kept, OnDevice, RunBytes, PassFits, PassAddresses;
    var l, size := RunLength(q.chain, skip), BytesPerCluster(q.g);
    var source := PassAddresses(q, skip, at);
    FirstPart(q, offset, skip, at);
    RunBytesIs(q, skip);
    KeptFits(q, skip, at);
    TimesSum(skip, l, size);
    if skip + l < |q.chain| {
      TailEnds(q, offset, skip + l, |source|);
      if PlanFrom(q, skip + l, 0, |source|).Some? {
        RightConcat(q.g, q.chain, offset, source, PlanFrom(q, skip + l, 0, |source|).value.source);
      }
    } else {
      NoBreakAfter(q.chain, offset + q.n, size, skip + l);
    }
  }

  lemma NoBreakAfter(chain: seq<nat>, x: nat, size: nat, pos: nat)
    requires size > 0 && pos >= |chain| && x > Times(pos, size)
    ensures !(x % size == 0 && Break(chain, x / size))
  {
    hide Times;
    Divides(x, size);
    TimesMonotone(x / size, pos, size);
  }

  /** The passes after the first fill a request exactly if it ends with a run. */
  lemma TailEnds(q: Request, offset: nat, pos: nat, got: nat)
    requires Proper(q) && pos < |q.chain| && OnDevice(q.g, q.chain, q.device) && 0 < got < q.n
    requires offset + got == Times(pos, BytesPerCluster(q.g))
    ensures PlanFrom(q, pos, 0, got).Some? <==>
      (offset + q.n) % BytesPerCluster(q.g) == 0 && Break(q.chain, (offset + q.n) / BytesPerCluster(q.g))
    ensures PlanFrom(q, pos, 0, got).Some? ==>
      var rest := PlanFrom(q, pos, 0, got).value.source; got + |rest| == q.n && Right(q.g, q.chain, offset + got, rest)
  {
    hide RunLength, BytesPerCluster, Times, Right, Break, OnDevice, PlanFrom;
    var size := BytesPerCluster(q.g);
    if PlanFrom(q, pos, 0, got).Some? {
      var m := TailMeans(q, pos, got);
      TimesSum(pos, m, size);
      TimesDivides(pos + m, 0, size);
    } else if (offset + q.n) % size == 0 {
      var e := (offset + q.n) / size;
      Divides(offset + q.n, size);
      TimesMonotone(e, pos, size);
      TimesSum(pos, e - pos, size);
      if Break(q.chain, e) {
        TailFills(q, pos, got, e - pos);
      }
    }
  }

  lemma FirstPart(q: Request, offset: nat, skip: nat, at: nat)
    requires Proper(q) && skip < |q.chain| && OnDevice(q.g, q.chain, q.device)
    requires offset == Times(skip, BytesPerCluster(q.g)) + at && at < BytesPerCluster(q.g) && !Whole(q, skip, at)
    requires Kept(q, at) == at && (q.write ==> at == 0)
    ensures var l, source := RunLength(q.chain, skip), PassAddresses(q, skip, at);
      && 0 < |source| == PassLength(q, skip, at) == RunBytes(q, skip) - at < q.n && Right(q.g, q.chain, offset, source)
      && PlanFrom(q, skip, at, 0) ==
          (if skip + l < |q.chain| then After(source, 1, PlanFrom(q, skip + l, 0, |source|)) else None)
  {
    hide RunLength, BytesPerCluster, Times, SectorsFor, ClusterAddress, EnoughLeft, Right, Kept, RunBytes;
    WholeLength(q, skip, at);
    KeptFits(q, skip, at);
    StartIs(q, skip, at);
    RunOnDevice(q, skip);
    RightInRun(q, skip, at, offset, RunBytes(q, skip) - at);
  }

  /**
    Without device faults a request is served in full, each byte from or to its own place, if
    and only if its clusters are consecutive or it is a clean split; a write also has to be
    made of whole sectors and not to start on the second sector of a cluster.
   */
  lemma ServedExactly(q: Request, offset: nat)
    requires Proper(q) && OnDevice(q.g, q.chain, q.device) && q.n > 0
    ensures Exact(q, offset, RequestPlan(q, offset)) <==>
      && (ConsecutiveRequest(q.g, q.chain, offset, q.n) || CleanSplit(q.g, q.chain, offset, q.n))
      && (q.write ==> Sectored(q.g, offset, q.n))
  {
    hide RunLength, BytesPerCluster, Times, ConsecutiveRequest, Break, Right, PlanFrom, OnDevice, RunBytes, KeptOffset;
    var size := BytesPerCluster(q.g);
    var skip, at := offset / size, offset % size;
    Divides(offset, size);
    if skip < |q.chain| {
      ConsecutiveIs(q.g, q.chain, offset, q.n);
      RunBytesIs(q, skip);
      SectorStart(at, q.g.bytesPerSector);
      KeptSmall(at, q.g.bytesPerSector);
      if Whole(q, skip, at) {
        WholePass(q, offset, skip, at);
        SplitNotWhole(q, offset, skip, at);
      } else {
        SplitPass(q, offset, skip, at);
        SplitSectors(q.g, offset, q.n);
      }
    } else {
      PastChain(q.g, q.chain, offset, q.n);
    }
  }

  lemma SectorStart(at: nat, b: nat)
    requires b > 0
    ensures KeptOffset(at, b) == 0 <==> at % b == 0 && at != b
    ensures at <= b ==> (KeptOffset(at, b) == 0 <==> at == 0)
  {
  }

  /** A clean split that fits the run it starts in is consecutive. */
  lemma SplitNotWhole(q: Request, offset: nat, skip: nat, at: nat)
    requires Proper(q) && skip < |q.chain| && q.n > 0
    requires skip == offset / BytesPerCluster(q.g) && at == offset % BytesPerCluster(q.g) && Whole(q, skip, at)
    ensures CleanSplit(q.g, q.chain, offset, q.n) ==> at + q.n <= RunBytes(q, skip)
  {
    hide RunLength, BytesPerCluster, Times, Break, RunBytes, KeptOffset;
    KeptSmall(at, q.g.bytesPerSector);
  }

  /** A clean split from the start of a cluster is made of whole sectors. */
  lemma SplitSectors(g: Geometry, offset: nat, n: nat)
    requires ValidGeometry(g) && BytesPerCluster(g) > 0
    ensures offset % BytesPerCluster(g) == 0 && (offset + n) % BytesPerCluster(g) == 0 ==> n % g.bytesPerSector == 0
  {
    var size := BytesPerCluster(g);
    if offset % size == 0 && (offset + n) % size == 0 {
      var k, e := offset / size, (offset + n) / size;
      assert n == (e - k) * size;
      assert n == ((e - k) * g.sectorsPerCluster) * g.bytesPerSector;
      DivStep((e - k) * g.sectorsPerCluster, 0, g.bytesPerSector);
    }
  }

  lemma PastChain(g: Geometry, chain: seq<nat>, offset: nat, n: nat)
    requires ValidGeometry(g) && BytesPerCluster(g) > 0 && n > 0 && offset / BytesPerCluster(g) >= |chain|
    ensures !ConsecutiveRequest(g, chain, offset, n) && !CleanSplit(g, chain, offset, n)
  {
    hide BytesPerCluster;
    var size := BytesPerCluster(g);
    DivMonotone(offset, offset + n, size);
  }

  lemma DivMonotone(x: nat, y: nat, n: nat)
    requires n > 0 && x <= y
    ensures x / n <= y / n
  {
    Divides(x, n);
    Divides(y, n);
    TimesMonotone(y / n + 1, x / n, n);
    TimesStep(y / n, n);
  }
}
