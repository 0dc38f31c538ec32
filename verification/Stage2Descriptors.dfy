/**
  Stage 2 descriptors (Arm ARM DDI 0487, section D8.3): 64-bit words, the setters of the
  page-table code acting on them by masking, and the fields the hardware reads out of them.
 */
module Stage2Descriptors {
  const PAGE_SIZE: nat := 0x1000
  /** Output addresses have 50 bits. */
  const ADDRESS_LIMIT: nat := 0x4_0000_0000_0000
  const FRAME_LIMIT: nat := 0x40_0000_0000

  // ---------------------------------------------------------------- numbers and words

  /** The number a word stands for, bit by bit. */
  function Value(w: bv64): (n: nat)
    ensures n == 0 <==> w == 0
    decreases w
  {
    if w == 0 then 0 else 2 * Value(w >> 1) + (if w & 1 == 1 then 1 else 0)
  }

  /** The word of a number, as a conversion to 64 bits makes it. */
  function Word(n: nat): bv64 {
    if n == 0 then 0 else if n % 2 == 1 then Odd(Word(n / 2)) else Even(Word(n / 2))
  }

  function Even(w: bv64): bv64 { w << 1 }

  function Odd(w: bv64): bv64 { (w << 1) | 1 }

  predicate TopClear(w: bv64) { w & TOP == 0 }

  const TOP: bv64 := 0x8000_0000_0000_0000

  /** `m` is set exactly in the bits from that of `p`, a power of two, upwards. */
  predicate IsHigh(m: bv64, p: nat)
    decreases p
  {
    if p <= 1 then p == 1 && m == 0xFFFF_FFFF_FFFF_FFFF
    else p % 2 == 0 && m & 1 == 0 && IsHigh((m >> 1) | TOP, p / 2)
  }

  predicate TopSet(m: bv64) { m & TOP == TOP }

  lemma HighStep(m: bv64, p: nat)
    requires IsHigh(m, p) && TopSet(m)
    ensures IsHigh(Even(m), 2 * p)
  {
    HighShift(m);
  }

  lemma HighShift(m: bv64)
    requires TopSet(m)
    ensures (Even(m) >> 1) | TOP == m && Even(m) & 1 == 0
  {
  }

  /** The masks of the numbers from 2^38 and from 2^63 on. */
  lemma HighMasks()
    ensures IsHigh(0xFFFF_FFC0_0000_0000, 0x40_0000_0000) && IsHigh(TOP, 0x8000_0000_0000_0000)
  {
    hide IsHigh, TopSet, Even, Shifted;
    AllOnes();
    HighSteps(0xFFFF_FFFF_FFFF_FFFF, 1);
    HighSteps(0xFFFF_FFFF_FFFF_FF80, 0x80);
    HighSteps(0xFFFF_FFFF_FFFF_C000, 0x4000);
    HighSteps(0xFFFF_FFFF_FFE0_0000, 0x20_0000);
    HighSteps(0xFFFF_FFFF_F000_0000, 0x1000_0000);
    HighStep(0xFFFF_FFF8_0000_0000, 0x8_0000_0000);
    HighStep(0xFFFF_FFF0_0000_0000, 0x10_0000_0000);
    HighStep(0xFFFF_FFE0_0000_0000, 0x20_0000_0000);
    HighSteps(0xFFFF_FFF8_0000_0000, 0x8_0000_0000);
    HighSteps(0xFFFF_FC00_0000_0000, 0x400_0000_0000);
    HighSteps(0xFFFE_0000_0000_0000, 0x2_0000_0000_0000);
    HighSteps(0xFF00_0000_0000_0000, 0x100_0000_0000_0000);
  }

  function Shifted(m: bv64): bv64 { m << 7 }

  lemma AllOnes()
    ensures IsHigh(0xFFFF_FFFF_FFFF_FFFF, 1)
    ensures Shifted(0xFFFF_FFFF_FFFF_FFFF) == 0xFFFF_FFFF_FFFF_FF80
      && Shifted(0xFFFF_FFFF_FFFF_FF80) == 0xFFFF_FFFF_FFFF_C000
    ensures Shifted(0xFFFF_FFFF_FFFF_C000) == 0xFFFF_FFFF_FFE0_0000
      && Shifted(0xFFFF_FFFF_FFE0_0000) == 0xFFFF_FFFF_F000_0000
    ensures Shifted(0xFFFF_FFFF_F000_0000) == 0xFFFF_FFF8_0000_0000
      && Shifted(0xFFFF_FFF8_0000_0000) == 0xFFFF_FC00_0000_0000
    ensures Shifted(0xFFFF_FC00_0000_0000) == 0xFFFE_0000_0000_0000
      && Shifted(0xFFFE_0000_0000_0000) == 0xFF00_0000_0000_0000
    ensures Shifted(0xFF00_0000_0000_0000) == TOP
    ensures Even(0xFFFF_FFF8_0000_0000) == 0xFFFF_FFF0_0000_0000 && Even(0xFFFF_FFF0_0000_0000) == 0xFFFF_FFE0_0000_0000
    ensures Even(0xFFFF_FFE0_0000_0000) == 0xFFFF_FFC0_0000_0000
    ensures TopSet(0xFFFF_FFF8_0000_0000) && TopSet(0xFFFF_FFF0_0000_0000) && TopSet(0xFFFF_FFE0_0000_0000)
  {
  }

  lemma HighSteps(m: bv64, p: nat)
    requires IsHigh(m, p) && m & 0xFE00_0000_0000_0000 == 0xFE00_0000_0000_0000
    ensures IsHigh(Shifted(m), 0x80 * p)
  {
    hide IsHigh, TopSet, Even, Shifted;
    ShiftSteps(m);
    var m2 := Even(Even(m));
    var m4 := Even(Even(m2));
    HighStep(m, p); HighStep(Even(m), 2 * p); HighStep(m2, 4 * p); HighStep(Even(m2), 8 * p);
    HighStep(m4, 0x10 * p); HighStep(Even(m4), 0x20 * p); HighStep(Even(Even(m4)), 0x40 * p);
  }

  lemma ShiftSteps(m: bv64)
    requires m & 0xFE00_0000_0000_0000 == 0xFE00_0000_0000_0000
    ensures var m2 := Even(Even(m)); var m4 := Even(Even(m2));
      && TopSet(m) && TopSet(Even(m)) && TopSet(m2) && TopSet(Even(m2)) && TopSet(m4) && TopSet(Even(m4))
          && TopSet(Even(Even(m4)))
      && Even(Even(Even(m4))) == Shifted(m)
  {
  }

  /** A number below `p` has a word without the bits of the mask. */
  lemma {:induction false} WordLow(n: nat, m: bv64, p: nat)
    requires IsHigh(m, p) && n < p
    ensures Word(n) & m == 0
    decreases p
  {
    hide Even, Odd;
    if n > 0 {
      WordLow(n / 2, (m >> 1) | TOP, p / 2);
      LowBits(Word(n / 2), m);
    }
  }

  lemma LowBits(w: bv64, m: bv64)
    requires w & ((m >> 1) | TOP) == 0 && m & 1 == 0
    ensures Even(w) & m == 0 && Odd(w) & m == 0
  {
  }

  /** And a word without them stands for a number below `p`. */
  lemma {:induction false} ValueLow(w: bv64, m: bv64, p: nat)
    requires IsHigh(m, p) && w & m == 0
    ensures Value(w) < p
    decreases p
  {
    if p > 1 {
      HighBits(w, m);
      ValueLow(w >> 1, (m >> 1) | TOP, p / 2);
    } else {
      NoBits(w);
    }
  }

  lemma HighBits(w: bv64, m: bv64)
    requires w & m == 0
    ensures (w >> 1) & ((m >> 1) | TOP) == 0
  {
  }

  lemma NoBits(w: bv64)
    requires w & 0xFFFF_FFFF_FFFF_FFFF == 0
    ensures w == 0
  {
  }

  lemma ValueTwice(w: bv64)
    requires TopClear(w)
    ensures Value(Even(w)) == 2 * Value(w) && Value(Odd(w)) == 2 * Value(w) + 1
  {
    Doubled(w);
  }

  lemma Doubled(w: bv64)
    requires TopClear(w)
    ensures Odd(w) >> 1 == w && Even(w) >> 1 == w && Odd(w) & 1 == 1 && Even(w) & 1 == 0
    ensures Odd(w) != 0 && (Even(w) == 0 <==> w == 0)
  {
  }

  /** Numbers below 2^64 survive as words. */
  lemma {:induction false} WordValue(n: nat)
    requires n < 0x1_0000_0000_0000_0000
    ensures Value(Word(n)) == n
  {
    hide Value, IsHigh, Even, Odd, TopClear;
    if n > 0 {
      WordValue(n / 2);
      HalfWord(n / 2);
      ValueTwice(Word(n / 2));
    } else {
      ValueZero();
    }
  }

  lemma HalfWord(n: nat)
    requires n < 0x8000_0000_0000_0000
    ensures TopClear(Word(n))
  {
    hide Word, IsHigh;
    HighMasks();
    WordLow(n, TOP, 0x8000_0000_0000_0000);
  }

  lemma ValueZero()
    ensures Value(0) == 0
  {
  }

  lemma FrameWord(frame: nat)
    requires frame < FRAME_LIMIT
    ensures FitsAddress(Word(frame)) && Value(Word(frame)) == frame
  {
    hide Word, Value, IsHigh;
    WordValue(frame);
    HighMasks();
    WordLow(frame, 0xFFFF_FFC0_0000_0000, 0x40_0000_0000);
  }

  lemma WordTwice(n: nat)
    ensures Word(2 * n) == Even(Word(n))
  {
    hide Even, Odd;
    assert Even(0) == 0 by { Zero(); }
  }

  lemma Zero()
    ensures Even(0) == 0
  {
  }

  lemma WordTimes(n: nat)
    ensures Word(0x10 * n) == Up4(Word(n))
  {
    hide Word, Even, Up4;
    WordTwice(n); WordTwice(2 * n); WordTwice(4 * n); WordTwice(8 * n);
    EvenUp(Word(n));
  }

  function Up4(w: bv64): bv64 { w << 4 }

  function Up12(w: bv64): bv64 { w << 12 }

  lemma EvenUp(w: bv64)
    ensures Even(Even(Even(Even(w)))) == Up4(w) && Up4(Up4(Up4(w))) == Up12(w)
  {
  }

  /** The word of a page-aligned address is that of its page number, moved up. */
  lemma AddressWord(frame: nat)
    ensures Word(frame * PAGE_SIZE) == Up12(Word(frame))
  {
    hide Word, Up4, Up12, Even;
    WordTimes(frame); WordTimes(0x10 * frame); WordTimes(0x100 * frame);
    EvenUp(Word(frame));
  }

  // ---------------------------------------------------------------- setters

  const ADDRESS_MASK: bv64 := 0x3_FFFF_FFFF_F000
  const AF: bv64 := 0x400
  const SH: bv64 := 0x300
  const S2AP: bv64 := 0xC0
  const ATTR_INDEX: bv64 := 0x3C
  const ATTR_WRITE_BACK: bv64 := 0xF
  const ATTR_DEVICE: bv64 := 0
  const INNER_SHAREABLE: bv64 := 3

  function SetOutputAddress(w: bv64, address: bv64): bv64 { (w & !ADDRESS_MASK) | address | AF }

  function SetPermission(w: bv64, permission: bv64): bv64 { (w & !S2AP) | (permission << 6) }

  function SetAttribute(w: bv64, device: bool): bv64 {
    if device then w & !ATTR_INDEX else (w & !ATTR_INDEX) | (ATTR_WRITE_BACK << 2)
  }

  function SetShareability(w: bv64, shareability: bv64): bv64 { (w & !SH) | (shareability << 8) }

  /** For a page or table descriptor. */
  function ValidatePageOrTable(w: bv64): bv64 { w | 3 }

  function ValidateBlock(w: bv64): bv64 { w | 1 }

  /** A page (level 3) or block descriptor, made from an all-zero word. */
  function LeafFrom(address: bv64, permission: bv64, device: bool, level: nat): bv64 {
    var w := SetShareability(SetAttribute(SetPermission(SetOutputAddress(0, address), permission), device),
      INNER_SHAREABLE);
    if level == 3 then ValidatePageOrTable(w) else ValidateBlock(w)
  }

  function LeafWord(address: nat, permission: bv64, device: bool, level: nat): bv64 {
    LeafFrom(Word(address), permission, device, level)
  }

  function TableFrom(address: bv64): bv64 { ValidatePageOrTable(SetOutputAddress(0, address)) }

  function TableWord(address: nat): bv64 { TableFrom(Word(address)) }

  // ---------------------------------------------------------------- fields

  /**
    `frame`: bits 12-49, the output or next-table address in pages; `af`: bit 10; `sh`:
    bits 8-9; `ap`: bits 6-7, bit 0 of the field allowing reads and bit 1 writes;
    `attr`: bits 2-5; `kind`: bits 0-1.
   */
  datatype Descriptor = Descriptor(frame: nat, af: bv64, sh: bv64, ap: bv64, attr: bv64, kind: bv64)

  function AddressField(w: bv64): bv64 { (w & ADDRESS_MASK) >> 12 }

  function AfField(w: bv64): bv64 { (w >> 10) & 1 }

  function ShField(w: bv64): bv64 { (w >> 8) & 3 }

  function ApField(w: bv64): bv64 { (w >> 6) & 3 }

  function AttrField(w: bv64): bv64 { (w >> 2) & 15 }

  function KindField(w: bv64): bv64 { w & 3 }

  /** The fields the hardware reads out of a word. */
  function Fields(w: bv64): Descriptor {
    Descriptor(Value(AddressField(w)), AfField(w), ShField(w), ApField(w), AttrField(w), KindField(w))
  }

  predicate IsTable(w: bv64) { KindField(w) == 3 }

  /** The page of the table that a table descriptor names. */
  function Target(w: bv64): nat { Value(AddressField(w)) }

  function AttributeFor(device: bool): bv64 {
    if device then ATTR_DEVICE else ATTR_WRITE_BACK
  }

  /** A field of two bits. */
  predicate TwoBits(w: bv64) { w & 3 == w }

  /** A page number of at most 38 bits. */
  predicate FitsAddress(a: bv64) { a & 0xFFFF_FFC0_0000_0000 == 0 }

  predicate HasFields(w: bv64, a: bv64, permission: bv64, attr: bv64, kind: bv64) {
    && AddressField(w) == a && AfField(w) == 1 && ShField(w) == INNER_SHAREABLE && ApField(w) == permission
    && AttrField(w) == attr && KindField(w) == kind
  }

  lemma PageBits(a: bv64, permission: bv64)
    requires FitsAddress(a) && TwoBits(permission)
    ensures HasFields(LeafFrom(Up12(a), permission, false, 3), a, permission, ATTR_WRITE_BACK, 3)
  {
  }

  lemma DevicePageBits(a: bv64, permission: bv64)
    requires FitsAddress(a) && TwoBits(permission)
    ensures HasFields(LeafFrom(Up12(a), permission, true, 3), a, permission, ATTR_DEVICE, 3)
  {
  }

  lemma BlockBits(a: bv64, permission: bv64)
    requires FitsAddress(a) && TwoBits(permission)
    ensures HasFields(LeafFrom(Up12(a), permission, false, 1), a, permission, ATTR_WRITE_BACK, 1)
  {
  }

  lemma DeviceBlockBits(a: bv64, permission: bv64)
    requires FitsAddress(a) && TwoBits(permission)
    ensures HasFields(LeafFrom(Up12(a), permission, true, 1), a, permission, ATTR_DEVICE, 1)
  {
  }

  /** What the masks and shifts of the setters leave in a word, for an address of at most 50 bits. */
  lemma LeafBits(a: bv64, permission: bv64, device: bool, level: nat)
    requires FitsAddress(a) && TwoBits(permission)
    ensures HasFields(LeafFrom(Up12(a), permission, device, level), a, permission, AttributeFor(device), if level == 3
      then 3 else 1)
  {
    hide HasFields, FitsAddress, TwoBits, Up12, SetOutputAddress, SetPermission, SetAttribute, SetShareability,
      ValidateBlock, ValidatePageOrTable;
    PageBits(a, permission); DevicePageBits(a, permission); BlockBits(a, permission); DeviceBlockBits(a, permission);
  }

  lemma TableBits(a: bv64)
    requires FitsAddress(a)
    ensures AddressField(TableFrom(Up12(a))) == a && IsTable(TableFrom(Up12(a)))
  {
  }

  /**
    No setter disturbs what another has set: the hardware reads out of the word exactly the
    address, permission and type given, for every address of at most 50 bits.
   */
  lemma LeafSurvives(frame: nat, permission: bv64, device: bool, level: nat)
    requires frame < FRAME_LIMIT && TwoBits(permission)
    ensures var w := LeafWord(frame * PAGE_SIZE, permission, device, level);
      && Fields(w) == Descriptor(frame, 1, INNER_SHAREABLE, permission, AttributeFor(device), if level == 3 then 3
          else 1)
      && (IsTable(w) <==> level == 3)
  {
    hide Word, Value, AddressField, AfField, ShField, ApField, AttrField, KindField, LeafFrom, TwoBits, Up12,
      FitsAddress;
    FrameWord(frame);
    AddressWord(frame);
    LeafBits(Word(frame), permission, device, level);
  }

  lemma TableSurvives(frame: nat)
    requires frame < FRAME_LIMIT
    ensures Target(TableWord(frame * PAGE_SIZE)) == frame && IsTable(TableWord(frame * PAGE_SIZE))
  {
    hide Word, Value, AddressField, AfField, ShField, ApField, AttrField, KindField, IsTable, TableFrom, Up12,
      FitsAddress;
    FrameWord(frame);
    AddressWord(frame);
    TableBits(Word(frame));
  }

  /** The address field cannot hold more than 50 bits. */
  lemma AddressTooLarge(frame: nat, w: bv64)
    requires frame >= FRAME_LIMIT
    ensures Fields(w).frame != frame
  {
    hide Value, IsHigh;
    HighMasks();
    AddressIsLow(w);
    ValueLow(AddressField(w), 0xFFFF_FFC0_0000_0000, 0x40_0000_0000);
  }

  lemma AddressIsLow(w: bv64)
    ensures AddressField(w) & 0xFFFF_FFC0_0000_0000 == 0
  {
  }
}
