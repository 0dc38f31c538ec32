/**
  Bulk transfers: a buffer is split into waves of at most 63 TRBs, each wave into TRBs of
  at most 64 KiB that do not cross a 64 KiB boundary, and each wave is one descriptor.
 */
module XhciTransfer {
  import opened Common
  import opened XhciRing

  const BOUNDARY: nat := 0x1_0000
  const MAX_TRBS_PER_WAVE: nat := TRBS_PER_SEGMENT - 1

  function Min(a: nat, b: nat): nat { if a < b then a else b }

  // ---------------------------------------------------------------- splitting

  /** Bytes the next TRB covers. */
  function Chunk(address: nat, remaining: nat): (c: nat)
    requires remaining > 0
    ensures 0 < c <= remaining
  {
    Min(remaining, BOUNDARY - address % BOUNDARY)
  }

  datatype Piece = Piece(address: nat, length: nat)

  /** The pieces of a buffer, one TRB each. */
  function Pieces(address: nat, length: nat): seq<Piece>
    decreases length
  {
    if length == 0 then []
    else
      var c := Chunk(address, length);
      [Piece(address, c)] + Pieces(address + c, length - c)
  }

  function Total(ps: seq<Piece>): nat {
    if ps == [] then 0 else ps[0].length + Total(ps[1..])
  }

  /** Pieces that follow one another from `address` on. */
  ghost predicate Contiguous(ps: seq<Piece>, address: nat) {
    ps == [] || (ps[0].address == address && Contiguous(ps[1..], address + ps[0].length))
  }

  /** The pieces cover the buffer exactly and in order. */
  lemma {:induction false} PiecesPartition(address: nat, length: nat)
    ensures Contiguous(Pieces(address, length), address) && Total(Pieces(address, length)) == length
    decreases length
  {
    if length > 0 {
      var c := Chunk(address, length);
      PiecesPartition(address + c, length - c);
    }
  }

  /** What the controller demands of one TRB's buffer. */
  ghost predicate Allowed(p: Piece) {
    0 < p.length <= BOUNDARY && p.address / BOUNDARY == (p.address + p.length - 1) / BOUNDARY
  }

  lemma ChunkAllowed(address: nat, length: nat)
    requires length > 0
    ensures Allowed(Piece(address, Chunk(address, length)))
  {
  }

  lemma {:induction false} PiecesAllowed(address: nat, length: nat, i: nat)
    requires i < |Pieces(address, length)|
    ensures Allowed(Pieces(address, length)[i])
    decreases length
  {
    hide Chunk, Allowed;
    ChunkAllowed(address, length);
    if i > 0 {
      var c := Chunk(address, length);
      PiecesAllowed(address + c, length - c, i - 1);
    }
  }

  /** Bytes covered by at most `trbs` pieces. */
  function WaveLength(address: nat, remaining: nat, trbs: nat): (w: nat)
    ensures w <= remaining && (remaining > 0 && trbs > 0 ==> w > 0)
    decreases trbs
  {
    if trbs == 0 || remaining == 0 then 0
    else
      var c := Chunk(address, remaining);
      c + WaveLength(address + c, remaining - c, trbs - 1)
  }

  /** Splitting a wave again gives the first pieces of the whole buffer: as many as fit, and no more. */
  lemma {:induction false} WavePieces(address: nat, remaining: nat, trbs: nat)
    ensures var w := WaveLength(address, remaining, trbs);
      && |Pieces(address, w)| == Min(trbs, |Pieces(address, remaining)|)
      && Pieces(address, remaining) == Pieces(address, w) + Pieces(address + w, remaining - w)
    decreases trbs
  {
    hide Chunk;
    if trbs > 0 && remaining > 0 {
      var c := Chunk(address, remaining);
      var w := WaveLength(address, remaining, trbs);
      WavePieces(address + c, remaining - c, trbs - 1);
      SameChunk(address, remaining, w);
    }
  }

  lemma SameChunk(address: nat, remaining: nat, w: nat)
    requires 0 < remaining && Chunk(address, remaining) <= w <= remaining
    ensures Chunk(address, w) == Chunk(address, remaining)
  {
  }

  ghost predicate AllAllowed(ps: seq<Piece>) {
    forall p :: p in ps ==> Allowed(p)
  }

  /** One piece starting no later than the greedy one ends no later. */
  lemma ChunkReaches(address: nat, p: Piece, end: nat)
    requires p.address <= address < end && Allowed(p) && p.address + p.length <= end
    ensures p.address + p.length <= address + Chunk(address, end - address)
  {
    var last := p.address + p.length - 1;
    assert last / BOUNDARY <= address / BOUNDARY;
    assert last < BOUNDARY * (address / BOUNDARY) + BOUNDARY;
  }

  lemma {:induction false} GreedyReaches(ps: seq<Piece>, start: nat, address: nat, end: nat, trbs: nat)
    requires start <= address <= end && Contiguous(ps, start) && AllAllowed(ps) && |ps| <= trbs
      && start + Total(ps) <= end
    ensures start + Total(ps) <= address + WaveLength(address, end - address, trbs)
    decreases trbs
  {
    hide Chunk, Allowed;
    if ps != [] && address < end {
      ChunkReaches(address, ps[0], end);
      GreedyReaches(ps[1..], start + ps[0].length, address + Chunk(address, end - address), end, trbs - 1);
    }
  }

  /** A wave is as long as it can be: no other split into as many allowed pieces covers more. */
  lemma WaveIsLongest(ps: seq<Piece>, address: nat, remaining: nat, trbs: nat)
    requires Contiguous(ps, address) && AllAllowed(ps) && |ps| <= trbs && Total(ps) <= remaining
    ensures Total(ps) <= WaveLength(address, remaining, trbs)
  {
    GreedyReaches(ps, address, address, address + remaining, trbs);
  }

  /** The length of the next wave. */
  method MaxWaveLength(start: nat, remaining: nat) returns (total: nat)
    ensures total == WaveLength(start, remaining, MAX_TRBS_PER_WAVE)
  {
    hide Chunk;
    total := 0;
    var address := start;
    var n := 0;
    while n < MAX_TRBS_PER_WAVE
      invariant n <= MAX_TRBS_PER_WAVE && total <= remaining && address == start + total
      invariant WaveLength(start, remaining, MAX_TRBS_PER_WAVE)
             == total + WaveLength(address, remaining - total, MAX_TRBS_PER_WAVE - n)
    {
      if total >= remaining {
        break;
      }
      var chunk := Chunk(address, remaining - total);
      total := total + chunk;
      address := address + chunk;
      n := n + 1;
    }
  }

  // ---------------------------------------------------------------- waves of a transfer

  function Waves(address: nat, length: nat): seq<Piece>
    decreases length
  {
    if length == 0 then []
    else
      var w := WaveLength(address, length, MAX_TRBS_PER_WAVE);
      [Piece(address, w)] + Waves(address + w, length - w)
  }

  ghost function TrbsOf(waves: seq<Piece>): seq<Piece> {
    if waves == [] then [] else Pieces(waves[0].address, waves[0].length) + TrbsOf(waves[1..])
  }

  /** The waves cover the buffer exactly and in order, and their TRBs are those of the whole buffer. */
  lemma {:induction false} WavesPartition(address: nat, length: nat)
    ensures Contiguous(Waves(address, length), address) && Total(Waves(address, length)) == length
    ensures TrbsOf(Waves(address, length)) == Pieces(address, length)
    decreases length
  {
    hide WaveLength, Pieces;
    if length > 0 {
      var w := WaveLength(address, length, MAX_TRBS_PER_WAVE);
      WavePieces(address, length, MAX_TRBS_PER_WAVE);
      WavesPartition(address + w, length - w);
      var rest := Waves(address + w, length - w);
      assert Waves(address, length) == [Piece(address, w)] + rest && Waves(address, length)[1..] == rest;
    } else {
      NoPieces(address);
    }
  }

  lemma NoPieces(address: nat)
    ensures Pieces(address, 0) == []
  {
  }

  /** Each wave is non-empty and fits the ring. */
  lemma {:induction false} WavesFit(address: nat, length: nat, i: nat)
    requires i < |Waves(address, length)|
    ensures var w := Waves(address, length)[i]; w.length > 0 && 0 < |Pieces(w.address, w.length)| <= MAX_TRBS_PER_WAVE
    decreases length
  {
    hide WaveLength;
    var w := WaveLength(address, length, MAX_TRBS_PER_WAVE);
    if i == 0 {
      WavePieces(address, length, MAX_TRBS_PER_WAVE);
    } else {
      WavesFit(address + w, length - w, i - 1);
    }
  }

  // ---------------------------------------------------------------- TRBs of a wave

  const TRB_ISP: bv32 := 0x4
  const TRB_CHAIN: bv32 := 0x10
  const TRB_IOC: bv32 := 0x20
  const TRB_NORMAL: bv32 := 1

  /** Packets still to come after a TRB, for its TD size field. */
  function TransferTrbRemainder(before: nat, length: nat, total: nat, maxPacket: nat): nat {
    if length == total || maxPacket == 0 || before + length >= total then 0
    else
      var packets, done := (total + maxPacket - 1) / maxPacket, (before + length) / maxPacket;
      if packets < done then 0 else packets - done
  }

  /**
    The field is 0 on the last TRB; before it, the packets it counts hold what is left, with
    less than two to spare.
   */
  lemma RemainderCounts(before: nat, length: nat, total: nat, maxPacket: nat)
    requires maxPacket > 0 && length <= total - before
    ensures var r, left := TransferTrbRemainder(before, length, total, maxPacket), total - before - length;
      if left == 0 then r == 0
      else left <= r * maxPacket < left + 2 * maxPacket && r > 0
  {
    var m, done := maxPacket, before + length;
    var p, q := (total + m - 1) / m, done / m;
    assert total + m - 1 == m * p + (total + m - 1) % m;
    assert done == m * q + done % m;
    assert done < total ==> p > q by {
      if done < total && p <= q { Monotone(p, q, m); }
    }
    assert p >= q ==> (p - q) * m == p * m - q * m;
  }

  lemma Monotone(a: nat, b: nat, m: nat)
    requires a <= b
    ensures m * a <= m * b
  {
  }

  /**
    The packets a TD size field counts: those of a descriptor of `total` bytes, less those that
    are whole within its first `done` bytes, capped at 31; none once the descriptor is done.
   */
  ghost predicate CountsPackets(field: nat, done: nat, total: nat, maxPacket: nat) {
    if done == total || maxPacket == 0 then field == 0
    else
      var whole := done / maxPacket;
      && 0 < field <= 31 && (field - 1 + whole) * maxPacket < total
      && (field < 31 ==> total <= (field + whole) * maxPacket)
  }

  lemma RemainderField(before: nat, length: nat, total: nat, maxPacket: nat)
    requires length <= total - before
    ensures var field := Min(TransferTrbRemainder(before, length, total, maxPacket), 31);
      CountsPackets(field, before + length, total, maxPacket)
  {
    var done, m := before + length, maxPacket;
    if done < total && m > 0 {
      RemainderCounts(before, length, total, m);
      var p, q, r := (total + m - 1) / m, done / m, TransferTrbRemainder(before, length, total, m);
      assert total + m - 1 == m * p + (total + m - 1) % m;
      assert p == r + q && p * m == m * p && (p - 1) * m == p * m - m;
      if r > 31 {
        Monotone(30 + q, p - 1, m);
      }
    }
  }

  /** Length in bits 0-16 and TD size, at most 31, in bits 17-21. */
  function StatusWord(length: nat, remainder: nat): nat {
    length % 0x2_0000 + Min(remainder, 31) * 0x2_0000
  }

  function WaveControl(isIn: bool, more: bool): bv32 {
    TrbType(TRB_NORMAL) | (if isIn then TRB_ISP else 0) | (if more then TRB_CHAIN else TRB_IOC)
  }

  /** The parameters of a wave that do not change from TRB to TRB; `dmaOffset` takes a CPU address to a bus address. */
  datatype Wave = Wave(address: nat, length: nat, maxPacket: nat, isIn: bool, dmaOffset: nat)

  function WaveTrb(v: Wave, done: nat, chunk: nat): Trb {
    var bus := v.address + done + v.dmaOffset;
    Trb(bus % 0x1_0000_0000, bus / 0x1_0000_0000 % 0x1_0000_0000,
        StatusWord(chunk, TransferTrbRemainder(done, chunk, v.length, v.maxPacket)),
        WaveControl(v.isIn, done + chunk < v.length), false)
  }

  /** The TRBs of a wave from its byte `done` on. */
  function WaveTrbs(v: Wave, done: nat): seq<Trb>
    requires done <= v.length
    decreases v.length - done
  {
    if done == v.length then []
    else
      var c := Chunk(v.address + done, v.length - done);
      [WaveTrb(v, done, c)] + WaveTrbs(v, done + c)
  }

  /**
    The fields of a Normal TRB's fourth word: type 1 in bits 10 to 15, chain in bit 4, interrupt
    on completion in bit 5, interrupt on short packet in bit 2, and nothing else.
   */
  ghost predicate NormalTrb(control: bv32, isIn: bool, more: bool) {
    && (control >> 10) & 0x3F == 1 && control & 0xFFFF_03CB == 0
    && (control & 0x10 == 0x10 <==> more) && (control & 0x20 == 0x20 <==> !more) && (control & 0x4 == 0x4 <==> isIn)
  }

  /** What a TRB tells the controller: where, how much, what is still to come, and whether to report. */
  ghost predicate Describes(t: Trb, p: Piece, v: Wave, last: bool) {
    && (p.address + v.dmaOffset < 0x1_0000_0000_0000_0000 ==> t.low + t.high * 0x1_0000_0000 == p.address + v.dmaOffset)
    && t.status % 0x2_0000 == p.length && v.address <= p.address
    && CountsPackets(t.status / 0x2_0000, p.address + p.length - v.address, v.length, v.maxPacket)
    && NormalTrb(t.control, v.isIn, !last)
  }

  lemma TrbDescribes(v: Wave, done: nat)
    requires done < v.length
    ensures var c := Chunk(v.address + done, v.length - done);
      Describes(WaveTrb(v, done, c), Piece(v.address + done, c), v, done + c == v.length)
  {
    hide TransferTrbRemainder, WaveControl, NormalTrb, CountsPackets, StatusWord;
    var c := Chunk(v.address + done, v.length - done);
    StatusFields(c, TransferTrbRemainder(done, c, v.length, v.maxPacket));
    RemainderField(done, c, v.length, v.maxPacket);
    ControlFields(v.isIn, done + c < v.length);
    AddressWords(v.address + done + v.dmaOffset);
  }

  lemma StatusFields(length: nat, remainder: nat)
    requires length <= BOUNDARY
    ensures StatusWord(length, remainder) % 0x2_0000 == length
    ensures StatusWord(length, remainder) / 0x2_0000 == Min(remainder, 31)
  {
  }

  lemma AddressWords(bus: nat)
    ensures bus < 0x1_0000_0000_0000_0000 ==>
      bus % 0x1_0000_0000 + bus / 0x1_0000_0000 % 0x1_0000_0000 * 0x1_0000_0000 == bus
  {
  }

  /** TRB `i` of a wave describes piece `i`; only the last one reports, and all others are chained. */
  lemma {:induction false} WaveTrbsDescribe(v: Wave, done: nat, i: nat)
    requires done <= v.length && i < |WaveTrbs(v, done)|
    ensures |WaveTrbs(v, done)| == |Pieces(v.address + done, v.length - done)|
    ensures Describes(WaveTrbs(v, done)[i], Pieces(v.address + done, v.length - done)[i], v,
      i == |WaveTrbs(v, done)| - 1)
    decreases v.length - done
  {
    hide Chunk, WaveTrb, Describes;
    TrbDescribes(v, done);
    var c := Chunk(v.address + done, v.length - done);
    WaveTrbsLength(v, done);
    WaveTrbsLength(v, done + c);
    if i > 0 {
      WaveTrbsDescribe(v, done + c, i - 1);
    }
  }

  lemma {:induction false} WaveTrbsLength(v: Wave, done: nat)
    requires done <= v.length
    ensures |WaveTrbs(v, done)| == |Pieces(v.address + done, v.length - done)|
    ensures WaveTrbs(v, done) == [] <==> done == v.length
    ensures forall t :: t in WaveTrbs(v, done) ==> IsPayload(t)
    decreases v.length - done
  {
    hide Chunk, WaveTrb;
    if done < v.length {
      var c := Chunk(v.address + done, v.length - done);
      WaveTrbsLength(v, done + c);
      WaveTrbIsPayload(v, done, c);
    }
  }

  lemma WaveTrbIsPayload(v: Wave, done: nat, chunk: nat)
    ensures IsPayload(WaveTrb(v, done, chunk))
  {
    hide StatusWord, TransferTrbRemainder, WaveControl, LinkType;
    ControlFields(v.isIn, done + chunk < v.length);
    NotLink(WaveControl(v.isIn, done + chunk < v.length));
  }

  lemma ControlFields(isIn: bool, more: bool)
    ensures NormalTrb(WaveControl(isIn, more), isIn, more)
  {
  }

  lemma NotLink(control: bv32)
    requires (control >> 10) & 0x3F == 1
    ensures !LinkType(control)
  {
  }

  // ---------------------------------------------------------------- TRBs of a transfer

  /** The TRBs of waves sent one after the other. */
  ghost function TrbsSent(waves: seq<Piece>, maxPacket: nat, isIn: bool, dmaOffset: nat): seq<Trb> {
    if waves == [] then []
    else WaveTrbs(Wave(waves[0].address, waves[0].length, maxPacket, isIn, dmaOffset), 0) + TrbsSent(waves[1..],
      maxPacket, isIn, dmaOffset)
  }

  lemma {:induction false} AddTrbs(waves: seq<Piece>, w: Piece, maxPacket: nat, isIn: bool, dmaOffset: nat)
    ensures TrbsSent(waves + [w], maxPacket, isIn, dmaOffset)
         == TrbsSent(waves, maxPacket, isIn,
           dmaOffset) + WaveTrbs(Wave(w.address, w.length, maxPacket, isIn, dmaOffset), 0)
  {
    hide WaveTrbs;
    if waves == [] {
      assert (waves + [w])[1..] == [];
    } else {
      AddTrbs(waves[1..], w, maxPacket, isIn, dmaOffset);
      assert (waves + [w])[1..] == waves[1..] + [w];
    }
  }

  /** The last byte of `p` is the last byte of one of the waves. */
  ghost predicate EndsWave(waves: seq<Piece>, p: Piece) {
    exists k :: 0 <= k < |waves| && waves[k].address + waves[k].length == p.address + p.length
  }

  /**
    A Normal TRB that names a piece of memory by its bus address and length; it is chained to
    the next one unless a wave ends with it, and then it reports.
   */
  ghost predicate Names(t: Trb, p: Piece, isIn: bool, last: bool, dmaOffset: nat) {
    && (p.address + dmaOffset < 0x1_0000_0000_0000_0000 ==> t.low + t.high * 0x1_0000_0000 == p.address + dmaOffset)
    && t.status % 0x2_0000 == p.length
    && NormalTrb(t.control, isIn, !last)
  }

  lemma DescribesNames(t: Trb, p: Piece, v: Wave, last: bool)
    requires Describes(t, p, v, last)
    ensures Names(t, p, v.isIn, last, v.dmaOffset)
  {
  }

  /** Pieces that follow one another, none of them empty. */
  ghost predicate Train(waves: seq<Piece>, address: nat) {
    Contiguous(waves, address) && forall w :: w in waves ==> w.length > 0
  }

  /** A piece lies within its buffer, and only the last one reaches its end. */
  lemma {:induction false} PieceWithin(address: nat, length: nat, i: nat)
    requires i < |Pieces(address, length)|
    ensures var p := Pieces(address, length)[i];
      && address < p.address + p.length <= address + length
      && (p.address + p.length == address + length <==> i == |Pieces(address, length)| - 1)
    decreases length
  {
    hide Chunk;
    var c := Chunk(address, length);
    if i > 0 {
      PieceWithin(address + c, length - c, i - 1);
    } else if length > c {
      assert |Pieces(address + c, length - c)| > 0;
    }
  }

  /** Waves from `address` on all end after it. */
  lemma {:induction false} EndsLater(waves: seq<Piece>, address: nat, p: Piece)
    requires Train(waves, address) && EndsWave(waves, p)
    ensures p.address + p.length > address
  {
    if waves[0].address + waves[0].length != p.address + p.length {
      EndsRest(waves, p);
      EndsLater(waves[1..], address + waves[0].length, p);
    }
  }

  lemma EndsRest(waves: seq<Piece>, p: Piece)
    requires waves != []
    ensures EndsWave(waves, p) <==>
      (waves[0].address + waves[0].length == p.address + p.length || EndsWave(waves[1..], p))
  {
    if EndsWave(waves[1..], p) {
      var k :| 0 <= k < |waves[1..]| && waves[1..][k].address + waves[1..][k].length == p.address + p.length;
      assert waves[k + 1] == waves[1..][k];
    }
    if EndsWave(waves, p) && waves[0].address + waves[0].length != p.address + p.length {
      var k :| 0 <= k < |waves| && waves[k].address + waves[k].length == p.address + p.length;
      assert waves[1..][k - 1] == waves[k];
    }
  }

  /** Only the last piece of the first wave ends a wave. */
  lemma EndsFirst(waves: seq<Piece>, address: nat, i: nat)
    requires Train(waves, address) && waves != [] && i < |Pieces(address, waves[0].length)|
    ensures EndsWave(waves, Pieces(address, waves[0].length)[i]) <==> i == |Pieces(address, waves[0].length)| - 1
  {
    hide Pieces, EndsWave;
    var p := Pieces(address, waves[0].length)[i];
    PieceWithin(address, waves[0].length, i);
    EndsRest(waves, p);
    if EndsWave(waves[1..], p) {
      EndsLater(waves[1..], address + waves[0].length, p);
    }
  }

  lemma {:induction false} PiecesBeyond(waves: seq<Piece>, address: nat, i: nat)
    requires Train(waves, address) && i < |TrbsOf(waves)|
    ensures TrbsOf(waves)[i].address + TrbsOf(waves)[i].length > address
  {
    hide Pieces;
    var ps := Pieces(address, waves[0].length);
    if i < |ps| {
      PieceWithin(address, waves[0].length, i);
    } else {
      PiecesBeyond(waves[1..], address + waves[0].length, i - |ps|);
    }
  }

  lemma {:induction false} TrbsSentLength(waves: seq<Piece>, maxPacket: nat, isIn: bool, dmaOffset: nat)
    ensures |TrbsSent(waves, maxPacket, isIn, dmaOffset)| == |TrbsOf(waves)|
  {
    hide WaveTrbs, Pieces;
    if waves != [] {
      var v := Wave(waves[0].address, waves[0].length, maxPacket, isIn, dmaOffset);
      assert v.address + 0 == v.address && v.length - 0 == v.length;
      WaveTrbsLength(v, 0);
      TrbsSentLength(waves[1..], maxPacket, isIn, dmaOffset);
    }
  }

  /** TRB `i` of the waves names piece `i`. */
  lemma {:induction false} TrbsSentName(waves: seq<Piece>, address: nat, maxPacket: nat, isIn: bool, dmaOffset: nat,
                                        i: nat)
    requires Train(waves, address) && i < |TrbsOf(waves)|
    ensures |TrbsSent(waves, maxPacket, isIn, dmaOffset)| == |TrbsOf(waves)|
    ensures var p := TrbsOf(waves)[i];
      Names(TrbsSent(waves, maxPacket, isIn, dmaOffset)[i], p, isIn, EndsWave(waves, p), dmaOffset)
  {
    hide WaveTrbs, Pieces, Names, Describes, EndsWave;
    TrbsSentLength(waves, maxPacket, isIn, dmaOffset);
    var v := Wave(waves[0].address, waves[0].length, maxPacket, isIn, dmaOffset);
    var first, ps, rest := WaveTrbs(v, 0), Pieces(v.address, v.length), waves[1..];
    assert v.address + 0 == v.address && v.length - 0 == v.length;
    WaveTrbsLength(v, 0);
    if i < |ps| {
      WaveTrbsDescribe(v, 0, i);
      DescribesNames(first[i], ps[i], v, i == |first| - 1);
      EndsFirst(waves, address, i);
    } else {
      TrbsSentName(rest, address + v.length, maxPacket, isIn, dmaOffset, i - |ps|);
      PiecesBeyond(rest, address + v.length, i - |ps|);
      EndsRest(waves, TrbsOf(waves)[i]);
    }
  }

  lemma WavesTrain(address: nat, length: nat)
    ensures Train(Waves(address, length), address)
  {
    hide Waves, Contiguous, TrbsOf, Pieces, Total;
    WavesPartition(address, length);
    forall i | 0 <= i < |Waves(address, length)| ensures Waves(address, length)[i].length > 0 {
      WavesFit(address, length, i);
    }
  }

  /**
    The TRBs of a whole transfer name the pieces of its buffer, each once and in order, as Normal
    TRBs, and exactly those that end a wave report to the driver.
   */
  lemma TransferCovers(address: nat, length: nat, maxPacket: nat, isIn: bool, dmaOffset: nat)
    ensures var ts, ps := TrbsSent(Waves(address, length), maxPacket, isIn, dmaOffset), Pieces(address, length);
      && |ts| == |ps| && Contiguous(ps, address) && Total(ps) == length
      && forall i :: 0 <= i < |ps| ==> Names(ts[i], ps[i], isIn, EndsWave(Waves(address, length), ps[i]), dmaOffset)
  {
    hide *;
    WavesPartition(address, length);
    WavesTrain(address, length);
    PiecesPartition(address, length);
    TrbsSentLength(Waves(address, length), maxPacket, isIn, dmaOffset);
    forall i | 0 <= i < |Pieces(address, length)|
      ensures Names(TrbsSent(Waves(address, length), maxPacket, isIn, dmaOffset)[i], Pieces(address, length)[i], isIn,
                    EndsWave(Waves(address, length), Pieces(address, length)[i]), dmaOffset)
    {
      TrbsSentName(Waves(address, length), address, maxPacket, isIn, dmaOffset, i);
    }
  }
}
