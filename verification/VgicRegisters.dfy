/**
  What a guest's write means by its offset and width (GICv2 architecture specification IHI 0048B,
  section 4.3), in terms of the registers' own fields.
 */
module VgicRegisters {
  import opened Common
  import opened VgicDelivery
  import opened VgicDistributor
  import opened VgicLists
  import opened VgicMmio
  import opened VgicRaise
  import opened VgicRedeliver

  // ---------------------------------------------------------------- one-bit registers

  /**
    The bits of interrupt `id` after a write to register `r` of a block: 1 is the group registers,
    2 and 3 set and clear enable bits, 4 and 5 pending bits, 6 and 7 active bits.
   */
  ghost predicate BitsAfter(d: Dist, d': Dist, cpu: nat, block: nat, r: nat, value: bv32, id: nat)
    requires cpu < |d.banked| && cpu < |d'.banked|
  {
    var was, now := Regs(d, cpu, id), Regs(d', cpu, id);
    var hit := id / 32 == r && Told(value, id);
    && (id in now.group <==> if block == 1 && id / 32 == r then Told(value, id) else id in was.group)
    && (id in now.enable <==> (block == 2 && hit) || (id in was.enable && !(block == 3 && hit)))
    && (id in now.pending <==> (block == 4 && hit) || (id in was.pending && !(block == 5 && hit)))
    && (id in now.active <==> (block == 6 && hit) || (id in was.active && !(block == 7 && hit)))
  }

  /** Everything but one-bit registers of this CPU's view and the queue is as it was. */
  ghost predicate OnlyBits(d: Dist, d': Dist, cpu: nat) {
    && |d'.banked| == |d.banked| && d'.ctlr == d.ctlr && d'.target == d.target && d'.own == d.own
    && (forall c :: 0 <= c < |d.banked| && c != cpu ==> d'.banked[c] == d.banked[c])
    && (cpu < |d.banked| ==> SameWords(d.banked[cpu], d'.banked[cpu])) && SameWords(d.shared, d'.shared)
  }

  ghost predicate SameWords(b: Bank, b': Bank) {
    b'.priority == b.priority && b'.configuration == b.configuration
  }

  /** The registers after, with the queue before. */
  ghost function BeforeRaising(s: Local, s': Local): Local {
    Local(s'.d.(queue := s.d.queue, serial := s.d.serial), s.lrs)
  }

  /** A write to a one-bit register; what it makes deliverable is raised again. */
  ghost predicate BitsWritten(s: Local, s': Local, cpu: nat, block: nat, r: nat, value: bv32) {
    && cpu < |s.d.banked| == |s'.d.banked| && OnlyBits(s.d, s'.d, cpu)
    && (forall id: nat :: BitsAfter(s.d, s'.d, cpu, block, r, value, id))
    && (if block == 2 || block == 4 then Redelivered(BeforeRaising(s, s'), s', cpu, r, value, 0)
        else s'.lrs == s.lrs && s'.d.queue == s.d.queue)
  }

  /** The register a one-bit write goes to. */
  function OneBitRegister(block: nat, r: nat): Register
    requires 1 <= block <= 7
  {
    if block == 1 then Group(r) else if block == 2 then SetEnable(r) else if block == 3 then ClearEnable(r)
    else if block == 4 then SetPend(r) else if block == 5 then ClearPend(r) else if block == 6 then SetAct(r)
    else ClearAct(r)
  }

  lemma DecodeBits(offset: nat)
    requires 0x080 <= offset < 0x400 && offset % 0x80 <= 0x7C
    ensures 1 <= offset / 0x80 <= 7 && Decode(offset, 32) == OneBitRegister(offset / 0x80, offset % 0x80 / 4)
  {
  }

  lemma MeaningIs(s: Local, d': Dist, cpu: nat, block: nat, r: nat, value: bv32, id: nat)
    requires Valid(s.d) && Valid(d') && cpu < MAX_CPU_INTERFACES && 1 <= block <= 7
    requires var g := OneBitRegister(block, r);
      BitsOf(d', cpu, id)
        == if InRegister(r, id) then Meaning(g, BitsOf(s.d, cpu, id), Written(r, value, id)) else BitsOf(s.d, cpu, id)
    ensures |s.d.banked| == |d'.banked| == MAX_CPU_INTERFACES && BitsAfter(s.d, d', cpu, block, r, value, id)
  {
    hide Told, Bit;
    RegsAre(s.d, cpu, id);
    RegsAre(d', cpu, id);
    if InRegister(r, id) { ToldIs(value, r, id - 32 * r); }
  }

  /** The registers a set-enable or set-pending write leaves behind, before anything is raised. */
  function SetBits(s: Local, cpu: nat, block: nat, r: nat, value: bv32): (s': Local)
    requires Valid(s.d) && cpu < MAX_CPU_INTERFACES
    ensures Valid(s'.d) && s'.lrs == s.lrs && s'.d.queue == s.d.queue && s'.d.serial == s.d.serial
  {
    var b := BankOf(s.d, cpu, 32 * r);
    s.(d := WithBank(s.d, cpu, 32 * r, if block == 2 then b.(enable := b.enable + IdsIn(r, value))
                                       else b.(pending := b.pending + IdsIn(r, value))))
  }

  lemma SetBitsOnly(s: Local, cpu: nat, block: nat, r: nat, value: bv32)
    requires Valid(s.d) && cpu < MAX_CPU_INTERFACES
    ensures OnlyBits(s.d, SetBits(s, cpu, block, r, value).d, cpu)
  {
    hide IdsIn;
  }

  lemma WriteIsSet(s: Local, cpu: nat, block: nat, r: nat, value: bv32)
    requires Valid(s.d) && cpu < MAX_CPU_INTERFACES && (block == 2 || block == 4) && r < 32 && InDomain(r, value)
    ensures Write(s, cpu, OneBitRegister(block, r), value)
         == RetriggerBits(SetBits(s, cpu, block, r, value), cpu, r, value, 0, block == 2)
    ensures block == 4 ==> forall k :: 0 <= k < 32 && Bit(value, k) ==>
      IsPending(SetBits(s, cpu, block, r, value).d, cpu, 32 * r + k)
  {
    hide RetriggerBits, Bit, IdsIn, InDomain, IsPending;
    if block == 4 { NowPending(s.d, cpu, r, value); }
  }

  lemma BitsRaised(s: Local, cpu: nat, block: nat, r: nat, value: bv32)
    requires Valid(s.d) && cpu < MAX_CPU_INTERFACES && NoDuplicates(s.lrs) && (block == 2 || block == 4) && r < 32
      && InDomain(r, value)
    ensures var s' := Write(s, cpu, OneBitRegister(block, r), value);
      OnlyBits(s.d, s'.d, cpu) && Redelivered(BeforeRaising(s, s'), s', cpu, r, value, 0)
  {
    hide Valid, NoDuplicates, RetriggerBits, Bit, Redelivered, Raises, IsPending, SetBits, Write, InDomain;
    var s1 := SetBits(s, cpu, block, r, value);
    var s' := Write(s, cpu, OneBitRegister(block, r), value);
    WriteIsSet(s, cpu, block, r, value);
    SetBitsOnly(s, cpu, block, r, value);
    RetriggerBitsExact(s1, cpu, r, value, 0, block == 2);
    RetriggerBitsRaises(s1, cpu, r, value, 0, block == 2);
    QuietBits(s1, cpu, r, value, 0, block == 2);
    RaisesSame(s1, s', cpu);
    assert BeforeRaising(s, s') == s1;
  }

  lemma RaisesSame(s: Local, s': Local, cpu: nat)
    requires Valid(s.d) && Valid(s'.d) && Raises(s, s', cpu)
    ensures s'.d.own == s.d.own && s'.d.ctlr == s.d.ctlr && s'.d.target == s.d.target
  {
  }

  lemma BitsQuiet(s: Local, cpu: nat, block: nat, r: nat, value: bv32)
    requires Valid(s.d) && cpu < MAX_CPU_INTERFACES && 1 <= block <= 7 && block != 2 && block != 4 && r < 32
    ensures var s' := Write(s, cpu, OneBitRegister(block, r), value);
      OnlyBits(s.d, s'.d, cpu) && s'.lrs == s.lrs && s'.d.queue == s.d.queue
  {
    hide IdsIn, IdsOf;
  }

  lemma BitsWrite(s: Local, cpu: nat, block: nat, r: nat, value: bv32)
    requires Valid(s.d) && cpu < MAX_CPU_INTERFACES && NoDuplicates(s.lrs) && 1 <= block <= 7 && r < 32
    requires block == 2 || block == 4 ==> InDomain(r, value)
    ensures BitsWritten(s, Write(s, cpu, OneBitRegister(block, r), value), cpu, block, r, value)
  {
    hide Valid, Write, NoDuplicates, InDomain, BitsAfter, BitsOf, Meaning, Written, OnlyBits, Redelivered;
    var g := OneBitRegister(block, r);
    var s' := Write(s, cpu, g, value);
    RegsAre(s.d, cpu, 0);
    RegsAre(s'.d, cpu, 0);
    forall id: nat ensures BitsAfter(s.d, s'.d, cpu, block, r, value, id)
    {
      RegisterMeaning(s, cpu, g, value, id);
      MeaningIs(s, s'.d, cpu, block, r, value, id);
    }
    if block == 2 || block == 4 { BitsRaised(s, cpu, block, r, value); } else { BitsQuiet(s, cpu, block, r, value); }
  }

  // ---------------------------------------------------------------- words and bytes

  /** Priority register `r` in a CPU's view replaced. */
  ghost function PutPriority(d: Dist, cpu: nat, r: nat, w: bv32): Dist
    requires Valid(d) && cpu < MAX_CPU_INTERFACES && r < 255
  {
    if r < 8 then d.(banked := d.banked[cpu := d.banked[cpu].(priority := d.banked[cpu].priority[r := w])])
    else d.(shared := d.shared.(priority := d.shared.priority[r := w]))
  }

  ghost function PriorityRegister(d: Dist, cpu: nat, r: nat): bv32
    requires Valid(d) && cpu < MAX_CPU_INTERFACES && r < 255
  {
    if r < 8 then d.banked[cpu].priority[r] else d.shared.priority[r]
  }

  ghost function PutConfiguration(d: Dist, cpu: nat, r: nat, w: bv32): Dist
    requires Valid(d) && cpu < MAX_CPU_INTERFACES && r < 64
  {
    if r < 2 then d.(banked := d.banked[cpu := d.banked[cpu].(configuration := d.banked[cpu].configuration[r := w])])
    else d.(shared := d.shared.(configuration := d.shared.configuration[r := w]))
  }

  /** Register `w` after a byte-wide write of `value` to byte `k`. */
  ghost predicate ByteSet(w: bv32, w': bv32, k: nat, value: bv32)
    requires k < 4
  {
    forall j :: 0 <= j < 4 ==> ByteAt(w', j) == AfterByte(w, k, value, j)
  }

  /** Byte-wide and word-wide writes from 0x400 on: one byte, or four, of the priorities from that interrupt on. */
  ghost predicate PriorityWritten(s: Local, s': Local, cpu: nat, id: nat, width: nat, value: bv32)
    requires Valid(s.d) && cpu < MAX_CPU_INTERFACES && id < INT_IDS
  {
    if width == 8 then
      exists w :: ByteSet(PriorityRegister(s.d, cpu, id / 4), w, id % 4, value)
                  && s' == s.(d := PutPriority(s.d, cpu, id / 4, w))
    else if width == 32 && id % 4 == 0 then s' == s.(d := PutPriority(s.d, cpu, id / 4, value))
    else s' == s
  }

  /** The same from 0x800 on for the targets; those of private interrupts cannot be written. */
  ghost predicate TargetWritten(s: Local, s': Local, id: nat, width: nat, value: bv32)
    requires Valid(s.d) && id < INT_IDS
  {
    if id < 32 then s' == s
    else if width == 8 then
      exists w :: ByteSet(s.d.target[id / 4], w, id % 4, value)
                  && s' == s.(d := s.d.(target := s.d.target[id / 4 := w]))
    else if width == 32 && id % 4 == 0 then s' == s.(d := s.d.(target := s.d.target[id / 4 := value]))
    else s' == s
  }

  lemma BytesSet(w: bv32, k: nat, value: bv32)
    requires k < 4
    ensures ByteSet(w, WriteByte(w, k, value), k, value)
  {
    hide ByteAt, WriteByte, AfterByte;
    forall j | 0 <= j < 4 ensures ByteAt(WriteByte(w, k, value), j) == AfterByte(w, k, value, j) {
      ByteWritten(w, k, value, j);
    }
  }

  lemma PriorityWrite(s: Local, cpu: nat, id: nat, width: nat, value: bv32)
    requires Valid(s.d) && cpu < MAX_CPU_INTERFACES && id < INT_IDS
    ensures PriorityWritten(s, Write(s, cpu, Decode(0x400 + id, width), value), cpu, id, width, value)
  {
    hide ByteSet, WriteByte;
    BytesSet(PriorityRegister(s.d, cpu, id / 4), id % 4, value);
  }

  lemma TargetWrite(s: Local, cpu: nat, id: nat, width: nat, value: bv32)
    requires Valid(s.d) && cpu < MAX_CPU_INTERFACES && id < INT_IDS
    ensures TargetWritten(s, Write(s, cpu, Decode(0x800 + id, width), value), id, width, value)
  {
    hide ByteSet, WriteByte;
    BytesSet(s.d.target[id / 4], id % 4, value);
  }

  // ---------------------------------------------------------------- software-generated interrupts

  /** `n` is the number in bits 0 to 3 of the value. */
  ghost predicate SgiNumberIs(value: bv32, n: nat) {
    && n < 16
    && (n % 2 == 1 <==> value & 1 != 0) && (n / 2 % 2 == 1 <==> value & 2 != 0)
    && (n / 4 % 2 == 1 <==> value & 4 != 0) && (n / 8 == 1 <==> value & 8 != 0)
  }

  /**
    CPU `t` is meant: listed in bits 16 to 23 if bits 24 and 25 are 0, one of the other three
    CPUs of the platform if they are 1, and else the writer.
   */
  ghost predicate SgiFor(value: bv32, cpu: nat, t: nat) {
    if (value >> 24) & 3 == 0 then t < 8 && (value >> (16 + t)) & 1 == 1
    else if (value >> 24) & 3 == 1 then t < 4 && t != cpu
    else t == cpu
  }

  lemma SgiNumberExact(value: bv32)
    ensures SgiNumberIs(value, SgiNumber(value))
  {
    hide Bit;
    SgiBits(value);
  }

  lemma SgiBits(value: bv32)
    ensures Bit(value, 0) <==> value & 1 != 0
    ensures Bit(value, 1) <==> value & 2 != 0
    ensures Bit(value, 2) <==> value & 4 != 0
    ensures Bit(value, 3) <==> value & 8 != 0
    ensures !Bit(value, 25) && !Bit(value, 24) <==> (value >> 24) & 3 == 0
    ensures !Bit(value, 25) && Bit(value, 24) <==> (value >> 24) & 3 == 1
  {
  }

  lemma SgiTargetsExact(value: bv32, cpu: nat, t: nat)
    ensures t in SgiTargets(value, cpu) <==> SgiFor(value, cpu, t)
  {
    SgiBits(value);
  }

  /** The software-generated interrupt of the value is raised for exactly the CPUs it means. */
  ghost predicate SgiSent(s: Local, s': Local, cpu: nat, value: bv32)
    requires Valid(s.d) && Valid(s'.d) && cpu < MAX_CPU_INTERFACES
  {
    var n, targets := SgiNumber(value), SgiTargets(value, cpu);
    && SgiNumberIs(value, n) && (forall t: nat :: t in targets <==> SgiFor(value, cpu, t))
    && n / 4 < |Regs(s.d, cpu, n).priority| && Raised(s, s', cpu, n, None, targets)
    && OnlyPending(s.d, s'.d, n, targets)
  }

  lemma SgiWrite(s: Local, cpu: nat, value: bv32)
    requires Valid(s.d) && cpu < MAX_CPU_INTERFACES && NoDuplicates(s.lrs)
    ensures SgiSent(s, Write(s, cpu, SoftwareInterrupt, value), cpu, value)
  {
    hide Valid, NoDuplicates, TriggerTo, SgiTargets, SgiNumber, Raised, Raises, OnlyPending, SgiNumberIs, SgiFor, Regs;
    var n, targets := SgiNumber(value), SgiTargets(value, cpu);
    SgiNumberExact(value);
    forall t: nat ensures t in targets <==> SgiFor(value, cpu, t) { SgiTargetsExact(value, cpu, t); }
    TriggerExact(s, cpu, n, None, targets);
    TriggerRaises(s, cpu, n, None, targets);
    SgiTargetsFew(value, cpu);
  }

  lemma SgiTargetsFew(value: bv32, cpu: nat)
    requires cpu < MAX_CPU_INTERFACES
    ensures From(SgiTargets(value, cpu), 0) == SgiTargets(value, cpu)
  {
    hide Bit;
  }

  // ---------------------------------------------------------------- every write

  /** What a write of `value` at an offset means; a write with no meaning changes nothing. */
  ghost predicate Means(s: Local, s': Local, cpu: nat, offset: nat, width: nat, value: bv32)
    requires Valid(s.d) && Valid(s'.d) && cpu < MAX_CPU_INTERFACES
  {
    if offset == 0 && width == 32 then s' == s.(d := s.d.(ctlr := value))
    else if 0x080 <= offset < 0x400 && offset % 0x80 <= 0x7C && width == 32 then
      BitsWritten(s, s', cpu, offset / 0x80, offset % 0x80 / 4, value)
    else if 0x400 <= offset < 0x7FC then PriorityWritten(s, s', cpu, offset - 0x400, width, value)
    else if 0x800 <= offset < 0xBFC then TargetWritten(s, s', offset - 0x800, width, value)
    else if 0xC00 <= offset <= 0xCFC && width == 32 then
      s' == s.(d := PutConfiguration(s.d, cpu, (offset - 0xC00) / 4, value))
    else if offset == 0xF00 && width == 32 then SgiSent(s, s', cpu, value)
    else s' == s
  }

  lemma WordWrite(s: Local, cpu: nat, offset: nat, value: bv32)
    requires Valid(s.d) && cpu < MAX_CPU_INTERFACES && 0xC00 <= offset <= 0xCFC
    ensures Write(s, cpu, Decode(offset, 32), value)
         == s.(d := PutConfiguration(s.d, cpu, (offset - 0xC00) / 4, value))
  {
  }

  /** The bytes behind the last register of a one-bit block. */
  lemma DecodeGap(offset: nat, width: nat)
    requires 0x080 <= offset < 0x400 && offset % 0x80 > 0x7C
    ensures Decode(offset, width) == Nothing
  {
    var q := offset / 0x80;
    assert offset == 0x80 * q + offset % 0x80 && 1 <= q <= 7;
  }

  lemma DecodeRest(offset: nat, width: nat)
    ensures Decode(0, 32) == Control && Decode(0xF00, 32) == SoftwareInterrupt
    ensures offset < 0x080 || 0xC00 <= offset ==>
      (width == 32 && (offset == 0 || offset <= 0xCFC || offset == 0xF00)) || Decode(offset, width) == Nothing
    ensures 0 < offset < 0x080 || 0x7FC <= offset < 0x800 || 0xBFC <= offset < 0xC00 ==>
      Decode(offset, width) == Nothing
    ensures 0x080 <= offset < 0x400 && width != 32 ==> Decode(offset, width) == Nothing
  {
  }

  /** Every write means what the architecture says of its offset and width. */
  lemma WriteMeans(s: Local, cpu: nat, offset: nat, width: nat, value: bv32)
    requires Valid(s.d) && cpu < MAX_CPU_INTERFACES && Allowed(Decode(offset, width), value) && NoDuplicates(s.lrs)
    ensures Means(s, Write(s, cpu, Decode(offset, width), value), cpu, offset, width, value)
  {
    hide Valid, Decode, NoDuplicates, InDomain, BitsWritten, PriorityWritten, TargetWritten, PutConfiguration, SgiSent,
      TriggerTo, RetriggerBits, WriteByte, BankOf, WithBank;
    DecodeRest(offset, width);
    if 0x080 <= offset < 0x400 && offset % 0x80 > 0x7C {
      DecodeGap(offset, width);
    } else if 0x080 <= offset < 0x400 && offset % 0x80 <= 0x7C && width == 32 {
      DecodeBits(offset);
      BitsWrite(s, cpu, offset / 0x80, offset % 0x80 / 4, value);
    } else if 0x400 <= offset < 0x7FC {
      PriorityWrite(s, cpu, offset - 0x400, width, value);
    } else if 0x800 <= offset < 0xBFC {
      TargetWrite(s, cpu, offset - 0x800, width, value);
    } else if 0xC00 <= offset <= 0xCFC && width == 32 {
      WordWrite(s, cpu, offset, value);
    } else if offset == 0xF00 && width == 32 {
      SgiWrite(s, cpu, value);
    }
  }
}
