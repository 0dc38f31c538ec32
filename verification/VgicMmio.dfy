/** Guest writes to the distributor's registers. */
module VgicMmio {
  import opened Common
  import opened VgicDelivery
  import opened VgicDistributor
  import opened VgicLists

  /** The register a write goes to: its number, and the byte for byte-wide writes. */
  datatype Register =
    | Control | Group(r: nat) | SetEnable(r: nat) | ClearEnable(r: nat) | SetPend(r: nat) | ClearPend(r: nat)
    | SetAct(r: nat) | ClearAct(r: nat) | PriorityByte(r: nat, k: nat) | PriorityWord(r: nat)
    | TargetByte(r: nat, k: nat) | TargetWord(r: nat) | Configuration(r: nat) | SoftwareInterrupt | Nothing

  predicate Known(g: Register) {
    match g
    case Group(r) => r < 32
    case SetEnable(r) => r < 32
    case ClearEnable(r) => r < 32
    case SetPend(r) => r < 32
    case ClearPend(r) => r < 32
    case SetAct(r) => r < 32
    case ClearAct(r) => r < 32
    case PriorityByte(r, k) => r < 255 && k < 4
    case PriorityWord(r) => r < 255
    case TargetByte(r, k) => 8 <= r < 255 && k < 4
    case TargetWord(r) => 8 <= r < 255
    case Configuration(r) => r < 64
    case _ => true
  }

  function Decode(offset: nat, width: nat): (g: Register)
    ensures Known(g)
  {
    if offset == 0 && width == 32 then Control
    else if 0x080 <= offset <= 0x0FC && width == 32 then Group((offset - 0x080) / 4)
    else if 0x100 <= offset <= 0x17C && width == 32 then SetEnable((offset - 0x100) / 4)
    else if 0x180 <= offset <= 0x1FC && width == 32 then ClearEnable((offset - 0x180) / 4)
    else if 0x200 <= offset <= 0x27C && width == 32 then SetPend((offset - 0x200) / 4)
    else if 0x280 <= offset <= 0x2FC && width == 32 then ClearPend((offset - 0x280) / 4)
    else if 0x300 <= offset <= 0x37C && width == 32 then SetAct((offset - 0x300) / 4)
    else if 0x380 <= offset <= 0x3FC && width == 32 then ClearAct((offset - 0x380) / 4)
    else if 0x400 <= offset < 0x7FC then
      var r, k := (offset - 0x400) / 4, (offset - 0x400) % 4;
      if width == 8 then PriorityByte(r, k) else if k == 0 && width == 32 then PriorityWord(r) else Nothing
    else if 0x800 <= offset < 0xBFC then
      var r, k := (offset - 0x800) / 4, (offset - 0x800) % 4;
      if r < 8 then Nothing
      else if width == 8 then TargetByte(r, k) else if k == 0 && width == 32 then TargetWord(r) else Nothing
    else if 0xC00 <= offset <= 0xCFC && width == 32 then Configuration((offset - 0xC00) / 4)
    else if offset == 0xF00 && width == 32 then SoftwareInterrupt
    else Nothing
  }

  // ---------------------------------------------------------------- values

  predicate Bit(value: bv32, b: nat)
    requires b < 32
  {
    (value >> b) & 1 == 1
  }

  /** Interrupt `id` has its bit in one-bit register `r`. */
  predicate InRegister(r: nat, id: nat) { 32 * r <= id < 32 * r + 32 }

  /** That bit is set in a value written to the register. */
  predicate Written(r: nat, value: bv32, id: nat) {
    InRegister(r, id) && Bit(value, id - 32 * r)
  }

  function IdsOf(r: nat): set<nat> {
    set id | 32 * r <= id < 32 * r + 32 && InRegister(r, id)
  }

  function IdsIn(r: nat, value: bv32): set<nat> {
    set id | 32 * r <= id < 32 * r + 32 && Written(r, value, id)
  }

  /** No bit is set for an interrupt number the emulation has no priority for. */
  ghost predicate InDomain(r: nat, value: bv32) {
    forall b :: 0 <= b < 32 && Bit(value, b) ==> 32 * r + b < INT_IDS
  }

  /** Puts a byte-wide write into a register; the written value is not cut to a byte. */
  function WriteByte(w: bv32, k: nat, value: bv32): bv32
    requires k < 4
  {
    (w & !((0xFF as bv32) << (8 * k))) | (value << (8 * k))
  }

  function Digit(value: bv32, b: nat): nat
    requires b < 32
  {
    if Bit(value, b) then 1 else 0
  }

  /** Bits 0-3 of GICD_SGIR. */
  function SgiNumber(value: bv32): (id: nat)
    ensures id < 16
  {
    Digit(value, 0) + 2 * Digit(value, 1) + 4 * Digit(value, 2) + 8 * Digit(value, 3)
  }

  /** Bits 16-23 of GICD_SGIR list CPUs. */
  predicate Listed(value: bv32, t: nat) { t < MAX_CPU_INTERFACES && Bit(value, 16 + t) }

  /** Bits 24-25 of GICD_SGIR choose between the listed CPUs, all other CPUs, and the writer itself. */
  function SgiTargets(value: bv32, cpu: nat): set<nat> {
    if !Bit(value, 25) && !Bit(value, 24) then set t | 0 <= t < MAX_CPU_INTERFACES && Listed(value, t)
    else if !Bit(value, 25) then {0, 1, 2, 3} - {cpu}
    else {cpu}
  }

  // ---------------------------------------------------------------- effects

  /**
    Raises again the interrupts of register `r` whose bit is set, from bit `b` on, if they are
    already pending (or enabled).
   */
  function RetriggerBits(s: Local, cpu: nat, r: nat, value: bv32, b: nat, ifPending: bool): (s': Local)
    requires Valid(s.d) && cpu < MAX_CPU_INTERFACES && b <= 32 && InDomain(r, value)
    ensures Valid(s'.d)
    decreases 32 - b
  {
    if b == 32 then s
    else
      var id := 32 * r + b;
      var again := Bit(value, b) && if ifPending then IsPending(s.d, cpu, id) else Enabled(s.d, cpu, id);
      RetriggerBits(if again then Retrigger(s, cpu, id) else s, cpu, r, value, b + 1, ifPending)
  }

  ghost predicate Allowed(g: Register, value: bv32) {
    Known(g) && (g.SetEnable? || g.SetPend? ==> InDomain(g.r, value))
  }

  function Write(s: Local, cpu: nat, g: Register, value: bv32): (s': Local)
    requires Valid(s.d) && cpu < MAX_CPU_INTERFACES && Allowed(g, value)
    ensures Valid(s'.d)
  {
    var d := s.d;
    match g
    case Control => s.(d := d.(ctlr := value))
    case Group(r) =>
      var b := BankOf(d, cpu, 32 * r);
      s.(d := WithBank(d, cpu, 32 * r, b.(group := b.group - IdsOf(r) + IdsIn(r, value))))
    case SetEnable(r) =>
      var b := BankOf(d, cpu, 32 * r);
      RetriggerBits(s.(d := WithBank(d, cpu, 32 * r, b.(enable := b.enable + IdsIn(r, value)))), cpu, r, value, 0, true)
    case ClearEnable(r) =>
      var b := BankOf(d, cpu, 32 * r);
      s.(d := WithBank(d, cpu, 32 * r, b.(enable := b.enable - IdsIn(r, value))))
    case SetPend(r) =>
      var b := BankOf(d, cpu, 32 * r);
      RetriggerBits(s.(d := WithBank(d, cpu, 32 * r, b.(pending := b.pending + IdsIn(r, value)))), cpu, r, value, 0,
        false)
    case ClearPend(r) =>
      var b := BankOf(d, cpu, 32 * r);
      s.(d := WithBank(d, cpu, 32 * r, b.(pending := b.pending - IdsIn(r, value))))
    case SetAct(r) =>
      var b := BankOf(d, cpu, 32 * r);
      s.(d := WithBank(d, cpu, 32 * r, b.(active := b.active + IdsIn(r, value))))
    case ClearAct(r) =>
      var b := BankOf(d, cpu, 32 * r);
      s.(d := WithBank(d, cpu, 32 * r, b.(active := b.active - IdsIn(r, value))))
    case PriorityByte(r, k) =>
      var b := BankOf(d, cpu, 4 * r);
      s.(d := WithBank(d, cpu, 4 * r, b.(priority := b.priority[r := WriteByte(b.priority[r], k, value)])))
    case PriorityWord(r) =>
      var b := BankOf(d, cpu, 4 * r);
      s.(d := WithBank(d, cpu, 4 * r, b.(priority := b.priority[r := value])))
    case TargetByte(r, k) => s.(d := d.(target := d.target[r := WriteByte(d.target[r], k, value)]))
    case TargetWord(r) => s.(d := d.(target := d.target[r := value]))
    case Configuration(r) =>
      var b := BankOf(d, cpu, 16 * r);
      s.(d := WithBank(d, cpu, 16 * r, b.(configuration := b.configuration[r := value])))
    case SoftwareInterrupt => TriggerTo(s, cpu, SgiNumber(value), None, SgiTargets(value, cpu))
    case Nothing => s
  }

  // ---------------------------------------------------------------- isolation

  /** The private registers of every other CPU are as they were. */
  ghost predicate OtherBanks(d: Dist, d': Dist, cpu: nat)
    requires Valid(d) && Valid(d')
  {
    forall c :: 0 <= c < MAX_CPU_INTERFACES && c != cpu ==> d'.banked[c] == d.banked[c]
  }

  /** No pending bit is lost. */
  ghost predicate PendingStays(d: Dist, d': Dist)
    requires Valid(d) && Valid(d')
  {
    d.shared.pending <= d'.shared.pending
    && forall c :: 0 <= c < MAX_CPU_INTERFACES ==> d.banked[c].pending <= d'.banked[c].pending
  }

  /** What an operation that raises interrupts does besides its own registers. */
  ghost predicate Raises(s: Local, s': Local, cpu: nat)
    requires Valid(s.d) && Valid(s'.d)
  {
    && Appends(s.d, s'.d, cpu) && NoDuplicates(s'.lrs) && Keeps(s.lrs, s'.lrs)
    && PendingStays(s.d, s'.d) && SameButPending(s.d, s'.d)
  }

  /** Nothing but pending bits has changed. */
  ghost predicate SameButPending(d: Dist, d': Dist)
    requires Valid(d) && Valid(d')
  {
    && (forall c :: 0 <= c < MAX_CPU_INTERFACES ==> d'.banked[c] == d.banked[c].(pending := d'.banked[c].pending))
    && d'.shared == d.shared.(pending := d'.shared.pending)
    && d'.own == d.own && d'.ctlr == d.ctlr && d'.target == d.target
  }

  lemma RaisesTrans(a: Local, b: Local, c: Local, cpu: nat)
    requires Valid(a.d) && Valid(b.d) && Valid(c.d) && Raises(a, b, cpu) && Raises(b, c, cpu)
    ensures Raises(a, c, cpu)
  {
  }

  lemma RaisesSelf(s: Local, cpu: nat)
    requires Valid(s.d) && NoDuplicates(s.lrs)
    ensures Raises(s, s, cpu)
  {
  }

  lemma TriggerRaises(s: Local, cpu: nat, id: nat, physical: Option<nat>, targets: set<nat>)
    requires Valid(s.d) && cpu < MAX_CPU_INTERFACES && id < INT_IDS && NoDuplicates(s.lrs)
    ensures Raises(s, TriggerTo(s, cpu, id, physical, targets), cpu)
    ensures OnlyPending(s.d, TriggerTo(s, cpu, id, physical, targets).d, id, From(targets, 0))
  {
    hide Appends, Keeps, NoDuplicates, TriggerFrom;
    TriggerFromKeeps(s, cpu, id, physical, targets, 0);
  }

  lemma RetriggerRaises(s: Local, cpu: nat, id: nat)
    requires Valid(s.d) && cpu < MAX_CPU_INTERFACES && id < INT_IDS && NoDuplicates(s.lrs)
    ensures Raises(s, Retrigger(s, cpu, id), cpu) && OtherBanks(s.d, Retrigger(s, cpu, id).d, cpu)
  {
    hide Appends, Keeps, NoDuplicates, TriggerTo, Raises;
    TriggerRaises(s, cpu, id, None, if id < BANKED_INT_ID_COUNT then {cpu} else {s.d.own});
  }

  lemma {:induction false} RetriggerBitsRaises(s: Local, cpu: nat, r: nat, value: bv32, b: nat, ifPending: bool)
    requires Valid(s.d) && cpu < MAX_CPU_INTERFACES && b <= 32 && InDomain(r, value) && NoDuplicates(s.lrs)
    ensures var s' := RetriggerBits(s, cpu, r, value, b, ifPending);
      Raises(s, s', cpu) && OtherBanks(s.d, s'.d, cpu)
    decreases 32 - b
  {
    hide Valid, Retrigger, Bit, IsPending, Enabled, OtherBanks;
    if b == 32 {
      RaisesSelf(s, cpu);
      SameBanks(s.d, cpu);
    } else {
      var id := 32 * r + b;
      var again := Bit(value, b) && if ifPending then IsPending(s.d, cpu, id) else Enabled(s.d, cpu, id);
      if again {
        var s1 := Retrigger(s, cpu, id);
        RetriggerRaises(s, cpu, id);
        RetriggerBitsRaises(s1, cpu, r, value, b + 1, ifPending);
        var s2 := RetriggerBits(s1, cpu, r, value, b + 1, ifPending);
        RaisesTrans(s, s1, s2, cpu);
        BanksTrans(s.d, s1.d, s2.d, cpu);
      } else {
        RetriggerBitsRaises(s, cpu, r, value, b + 1, ifPending);
      }
    }
  }

  lemma SameBanks(d: Dist, cpu: nat)
    requires Valid(d)
    ensures OtherBanks(d, d, cpu)
  {
  }

  lemma BanksTrans(a: Dist, b: Dist, c: Dist, cpu: nat)
    requires Valid(a) && Valid(b) && Valid(c) && OtherBanks(a, b, cpu) && OtherBanks(b, c, cpu)
    ensures OtherBanks(a, c, cpu)
  {
  }

  /** A write, other than of GICD_SGIR, never touches another CPU's private registers. */
  lemma WriteIsolated(s: Local, cpu: nat, g: Register, value: bv32)
    requires Valid(s.d) && cpu < MAX_CPU_INTERFACES && Allowed(g, value) && NoDuplicates(s.lrs) && !g.SoftwareInterrupt?
    ensures OtherBanks(s.d, Write(s, cpu, g, value).d, cpu)
  {
    hide NoDuplicates, RetriggerBits, IdsIn, IdsOf, WriteByte, InDomain;
    if g.SetEnable? || g.SetPend? {
      var b := BankOf(s.d, cpu, 32 * g.r);
      var b' := if g.SetEnable? then b.(enable := b.enable + IdsIn(g.r, value))
        else b.(pending := b.pending + IdsIn(g.r, value));
      var s1 := s.(d := WithBank(s.d, cpu, 32 * g.r, b'));
      RetriggerBitsRaises(s1, cpu, g.r, value, 0, g.SetEnable?);
      BanksTrans(s.d, s1.d, Write(s, cpu, g, value).d, cpu);
    }
  }

  /**
    A GICD_SGIR write sets the pending bit of its interrupt in the banks of exactly the chosen
    CPUs, and changes no other register.
   */
  lemma SgiExact(s: Local, cpu: nat, value: bv32)
    requires Valid(s.d) && cpu < MAX_CPU_INTERFACES && NoDuplicates(s.lrs)
    ensures var d' := Write(s, cpu, SoftwareInterrupt, value).d;
      && (forall c :: 0 <= c < MAX_CPU_INTERFACES ==>
            d'.banked[c] == (if c in SgiTargets(value, cpu)
                             then s.d.banked[c].(pending := s.d.banked[c].pending + {SgiNumber(value)})
                               else s.d.banked[c]))
      && d'.shared == s.d.shared && d'.ctlr == s.d.ctlr && d'.target == s.d.target
  {
    hide NoDuplicates, TriggerTo, SgiTargets, SgiNumber, Raises;
    TriggerRaises(s, cpu, SgiNumber(value), None, SgiTargets(value, cpu));
    var d' := Write(s, cpu, SoftwareInterrupt, value).d;
    assert d'.shared.pending == s.d.shared.pending;
    assert forall c :: 0 <= c < MAX_CPU_INTERFACES && c !in SgiTargets(value, cpu) ==>
      s.d.banked[c].pending + {} == s.d.banked[c].pending;
  }

  /** A write's effect on queue, List Registers and pending bits. */
  ghost predicate WriteEffect(s: Local, s': Local, cpu: nat, g: Register, value: bv32)
    requires Valid(s.d) && Valid(s'.d) && cpu < MAX_CPU_INTERFACES && Allowed(g, value)
  {
    && Appends(s.d, s'.d, cpu) && NoDuplicates(s'.lrs) && Keeps(s.lrs, s'.lrs)
    && forall c, id :: 0 <= c < MAX_CPU_INTERFACES && 0 <= id && IsPending(s.d, c, id) && !IsPending(s'.d, c, id) ==>
         g.ClearPend? && id in IdsIn(g.r, value) && (id < BANKED_INT_ID_COUNT ==> c == cpu)
  }

  /** Raising interrupts after a register changed that is not a pending one, or only gained pending bits. */
  lemma RaisesEffect(s: Local, s1: Local, s': Local, cpu: nat, g: Register, value: bv32)
    requires Valid(s.d) && Valid(s1.d) && Valid(s'.d) && cpu < MAX_CPU_INTERFACES && Allowed(g, value)
    requires s1.lrs == s.lrs && s1.d.queue == s.d.queue && s1.d.serial == s.d.serial && PendingStays(s.d, s1.d)
    requires Raises(s1, s', cpu)
    ensures WriteEffect(s, s', cpu, g, value)
  {
    hide NoDuplicates, Appends, Keeps, Allowed, IdsIn, SameButPending;
    AppendsSame(s.d, s1.d, s'.d, cpu);
  }

  /** A write clears a pending bit only through an ICPENDR register that holds that interrupt. */
  lemma WritePending(s: Local, cpu: nat, g: Register, value: bv32)
    requires Valid(s.d) && cpu < MAX_CPU_INTERFACES && Allowed(g, value) && NoDuplicates(s.lrs)
    ensures WriteEffect(s, Write(s, cpu, g, value), cpu, g, value)
  {
    hide NoDuplicates, RetriggerBits, IdsIn, IdsOf, WriteByte, InDomain, TriggerTo, SgiTargets, SgiNumber, Appends,
      Keeps, Raises;
    if g.SetEnable? || g.SetPend? {
      var b := BankOf(s.d, cpu, 32 * g.r);
      var b' := if g.SetEnable? then b.(enable := b.enable + IdsIn(g.r, value))
        else b.(pending := b.pending + IdsIn(g.r, value));
      var s1 := s.(d := WithBank(s.d, cpu, 32 * g.r, b'));
      RetriggerBitsRaises(s1, cpu, g.r, value, 0, g.SetEnable?);
      RaisesEffect(s, s1, Write(s, cpu, g, value), cpu, g, value);
    } else if g.SoftwareInterrupt? {
      TriggerRaises(s, cpu, SgiNumber(value), None, SgiTargets(value, cpu));
      RaisesEffect(s, s, Write(s, cpu, g, value), cpu, g, value);
    } else {
      AppendsSame(s.d, s.d, Write(s, cpu, g, value).d, cpu);
      KeepsSelf(s.lrs);
    }
  }

  lemma AppendsSame(a: Dist, b: Dist, c: Dist, cpu: nat)
    requires b.queue == a.queue && b.serial == a.serial
    ensures Appends(b, c, cpu) ==> Appends(a, c, cpu)
    ensures c.queue == a.queue && c.serial == a.serial ==> Appends(a, c, cpu)
  {
  }

  // ---------------------------------------------------------------- what the one-bit registers mean

  /** The four one-bit facts about an interrupt in a CPU's view. */
  datatype Bits = Bits(group: bool, enabled: bool, pending: bool, active: bool)

  function BitsOf(d: Dist, cpu: nat, id: nat): Bits
    requires Valid(d) && cpu < MAX_CPU_INTERFACES
  {
    var b := BankOf(d, cpu, id);
    Bits(id in b.group, id in b.enable, id in b.pending, id in b.active)
  }

  /** What a write does to an interrupt whose bit is `bit` in the value, as the architecture has it. */
  function Meaning(g: Register, was: Bits, bit: bool): Bits {
    match g
    case Group(_) => was.(group := bit)
    case SetEnable(_) => if bit then was.(enabled := true) else was
    case ClearEnable(_) => if bit then was.(enabled := false) else was
    case SetPend(_) => if bit then was.(pending := true) else was
    case ClearPend(_) => if bit then was.(pending := false) else was
    case SetAct(_) => if bit then was.(active := true) else was
    case ClearAct(_) => if bit then was.(active := false) else was
    case _ => was
  }

  /** The writes that go to one-bit registers. */
  predicate OneBit(g: Register) {
    g.Group? || g.SetEnable? || g.ClearEnable? || g.SetPend? || g.ClearPend? || g.SetAct? || g.ClearAct?
  }

  /** Raising an interrupt that is pending already changes no register. */
  lemma QuietRetrigger(s: Local, cpu: nat, id: nat)
    requires Valid(s.d) && cpu < MAX_CPU_INTERFACES && id < INT_IDS && NoDuplicates(s.lrs) && IsPending(s.d, cpu, id)
    ensures var d := Retrigger(s, cpu, id).d; d.banked == s.d.banked && d.shared == s.d.shared
  {
    hide Appends, Keeps, NoDuplicates, TriggerTo, Raises;
    var targets := if id < BANKED_INT_ID_COUNT then {cpu} else {s.d.own};
    TriggerRaises(s, cpu, id, None, targets);
    var d := Retrigger(s, cpu, id).d;
    assert d.shared.pending == s.d.shared.pending;
    forall c | 0 <= c < MAX_CPU_INTERFACES
      ensures d.banked[c] == s.d.banked[c]
    {
      assert d.banked[c].pending == s.d.banked[c].pending;
    }
  }

  lemma {:induction false} QuietBits(s: Local, cpu: nat, r: nat, value: bv32, b: nat, ifPending: bool)
    requires Valid(s.d) && cpu < MAX_CPU_INTERFACES && b <= 32 && InDomain(r, value) && NoDuplicates(s.lrs)
    requires ifPending || forall k :: 0 <= k < 32 && Bit(value, k) ==> IsPending(s.d, cpu, 32 * r + k)
    ensures var d := RetriggerBits(s, cpu, r, value, b, ifPending).d; d.banked == s.d.banked && d.shared == s.d.shared
    decreases 32 - b
  {
    hide Valid, Retrigger, Bit, Enabled, NoDuplicates;
    if b < 32 {
      var id := 32 * r + b;
      var again := Bit(value, b) && if ifPending then IsPending(s.d, cpu, id) else Enabled(s.d, cpu, id);
      if again {
        QuietRetrigger(s, cpu, id);
        RetriggerRaises(s, cpu, id);
        SameView(s.d, Retrigger(s, cpu, id).d, cpu);
        QuietBits(Retrigger(s, cpu, id), cpu, r, value, b + 1, ifPending);
      } else {
        QuietBits(s, cpu, r, value, b + 1, ifPending);
      }
    }
  }

  lemma SameView(d: Dist, d': Dist, cpu: nat)
    requires Valid(d) && Valid(d') && cpu < MAX_CPU_INTERFACES && d'.banked == d.banked && d'.shared == d.shared
    ensures forall id: nat ::
      && BitsOf(d', cpu, id) == BitsOf(d, cpu, id)
      && IsPending(d', cpu, id) == IsPending(d, cpu, id)
  {
  }

  /**
    Interrupt by interrupt, a write to a one-bit register means to its own CPU what the
    architecture says: interrupts of the register change as told, all others keep their bits.
   */
  lemma RegisterMeaning(s: Local, cpu: nat, g: Register, value: bv32, id: nat)
    requires Valid(s.d) && cpu < MAX_CPU_INTERFACES && Allowed(g, value) && NoDuplicates(s.lrs) && OneBit(g)
    ensures BitsOf(Write(s, cpu, g, value).d, cpu, id)
         == if InRegister(g.r, id) then Meaning(g, BitsOf(s.d, cpu, id), Written(g.r, value, id))
           else BitsOf(s.d, cpu, id)
  {
    hide NoDuplicates, RetriggerBits, InDomain, Bit, Written;
    if g.SetEnable? || g.SetPend? {
      var b := BankOf(s.d, cpu, 32 * g.r);
      var b' := if g.SetEnable? then b.(enable := b.enable + IdsIn(g.r, value))
        else b.(pending := b.pending + IdsIn(g.r, value));
      var s1 := s.(d := WithBank(s.d, cpu, 32 * g.r, b'));
      if g.SetPend? { NowPending(s.d, cpu, g.r, value); }
      QuietBits(s1, cpu, g.r, value, 0, g.SetEnable?);
      SameView(s1.d, Write(s, cpu, g, value).d, cpu);
    }
  }

  lemma NowPending(d: Dist, cpu: nat, r: nat, value: bv32)
    requires Valid(d) && cpu < MAX_CPU_INTERFACES
    ensures var b := BankOf(d, cpu, 32 * r);
      var d' := WithBank(d, cpu, 32 * r, b.(pending := b.pending + IdsIn(r, value)));
      forall k :: 0 <= k < 32 && Bit(value, k) ==> IsPending(d', cpu, 32 * r + k)
  {
    hide Bit;
    forall k | 0 <= k < 32 && Bit(value, k)
      ensures 32 * r + k in IdsIn(r, value)
    {
      assert Written(r, value, 32 * r + k);
    }
  }

  // ---------------------------------------------------------------- what byte-wide writes mean

  /**
    Byte `j` of a register after a byte-wide write to byte `k`: the byte itself becomes the low
    byte of the value, lower bytes stay, and the rest of the value is or-ed into higher bytes.
   */
  function AfterByte(w: bv32, k: nat, value: bv32, j: nat): bv8
    requires k < 4 && j < 4
  {
    if j < k then ByteAt(w, j) else if j == k then ByteAt(value, 0) else ByteAt(w, j) | ByteAt(value, j - k)
  }

  lemma Byte0(w: bv32, value: bv32)
    ensures WriteByte(w, 0, value) == (w & 0xFFFF_FF00) | value
  {
  }

  lemma Bytes0(w: bv32, value: bv32)
    ensures var x := (w & 0xFFFF_FF00) | value;
      && ByteAt(x, 0) == AfterByte(w, 0, value, 0) && ByteAt(x, 1) == AfterByte(w, 0, value, 1)
      && ByteAt(x, 2) == AfterByte(w, 0, value, 2) && ByteAt(x, 3) == AfterByte(w, 0, value, 3)
  {
  }

  lemma Byte1(w: bv32, value: bv32)
    ensures WriteByte(w, 1, value) == (w & 0xFFFF_00FF) | (value << 8)
  {
  }

  lemma Bytes1(w: bv32, value: bv32)
    ensures var x := (w & 0xFFFF_00FF) | (value << 8);
      && ByteAt(x, 0) == AfterByte(w, 1, value, 0) && ByteAt(x, 1) == AfterByte(w, 1, value, 1)
      && ByteAt(x, 2) == AfterByte(w, 1, value, 2) && ByteAt(x, 3) == AfterByte(w, 1, value, 3)
  {
  }

  lemma Byte2(w: bv32, value: bv32)
    ensures WriteByte(w, 2, value) == (w & 0xFF00_FFFF) | (value << 16)
  {
  }

  lemma Bytes2(w: bv32, value: bv32)
    ensures var x := (w & 0xFF00_FFFF) | (value << 16);
      && ByteAt(x, 0) == AfterByte(w, 2, value, 0) && ByteAt(x, 1) == AfterByte(w, 2, value, 1)
      && ByteAt(x, 2) == AfterByte(w, 2, value, 2) && ByteAt(x, 3) == AfterByte(w, 2, value, 3)
  {
  }

  lemma Byte3(w: bv32, value: bv32)
    ensures WriteByte(w, 3, value) == (w & 0x00FF_FFFF) | (value << 24)
  {
  }

  lemma Bytes3(w: bv32, value: bv32)
    ensures var x := (w & 0x00FF_FFFF) | (value << 24);
      && ByteAt(x, 0) == AfterByte(w, 3, value, 0) && ByteAt(x, 1) == AfterByte(w, 3, value, 1)
      && ByteAt(x, 2) == AfterByte(w, 3, value, 2) && ByteAt(x, 3) == AfterByte(w, 3, value, 3)
  {
  }

  lemma ByteWritten(w: bv32, k: nat, value: bv32, j: nat)
    requires k < 4 && j < 4
    ensures ByteAt(WriteByte(w, k, value), j) == AfterByte(w, k, value, j)
  {
    hide ByteAt, WriteByte, AfterByte;
    if k == 0 {
      Byte0(w, value); Bytes0(w, value);
    } else if k == 1 {
      Byte1(w, value); Bytes1(w, value);
    } else if k == 2 {
      Byte2(w, value); Bytes2(w, value);
    } else {
      Byte3(w, value); Bytes3(w, value);
    }
  }

  /** The bits of the value that fall on higher bytes are set there already. */
  ghost predicate NoSpill(w: bv32, k: nat, value: bv32)
    requires k < 4
  {
    forall j :: k < j < 4 ==> ByteAt(w, j) | ByteAt(value, j - k) == ByteAt(w, j)
  }

  /** A value of one byte spills nothing. */
  lemma ByteDoesNotSpill(w: bv32, k: nat, value: bv32)
    requires k < 4 && value & 0xFF == value
    ensures NoSpill(w, k, value)
  {
    forall j | k < j < 4
      ensures ByteAt(w, j) | ByteAt(value, j - k) == ByteAt(w, j)
    {
      hide AfterByte;
      NoHighByte(value, j - k);
      OrZero(ByteAt(w, j));
    }
  }

  lemma NoHighByte(value: bv32, j: nat)
    requires value & 0xFF == value && 0 < j < 4
    ensures ByteAt(value, j) == 0
  {
  }

  lemma OrZero(b: bv8)
    ensures b | 0 == b
  {
  }

  /** A 32-bit value stored with a byte-wide access: its second byte lands on the neighbour. */
  lemma SpillingWrite()
    ensures ByteAt(WriteByte(0, 0, 0x1A0), 0) == 0xA0 && ByteAt(WriteByte(0, 0, 0x1A0), 1) == 1 && !NoSpill(0, 0, 0x1A0)
  {
    hide WriteByte;
    Byte0(0, 0x1A0);
    Bytes0(0, 0x1A0);
    assert ByteAt(0, 1) | ByteAt(0x1A0, 1 - 0) != ByteAt(0, 1);
  }

  /** The register that holds the priority byte of an interrupt, in a CPU's view. */
  function PriorityWordOf(d: Dist, cpu: nat, id: nat): bv32
    requires Valid(d) && cpu < MAX_CPU_INTERFACES && id < INT_IDS
  {
    BankOf(d, cpu, id).priority[id / 4]
  }

  /** The target byte of an interrupt. */
  function TargetMask(d: Dist, id: nat): bv8
    requires Valid(d) && id < INT_IDS
  {
    ByteAt(d.target[id / 4], id % 4)
  }

  /** Interrupt by interrupt, what a byte-wide write to a priority register means to its own CPU. */
  lemma PriorityByteMeans(s: Local, cpu: nat, r: nat, k: nat, value: bv32, id: nat)
    requires Valid(s.d) && cpu < MAX_CPU_INTERFACES && Known(PriorityByte(r, k)) && id < INT_IDS
    ensures Priority(Write(s, cpu, PriorityByte(r, k), value).d, cpu, id)
         == if id / 4 == r then AfterByte(PriorityWordOf(s.d, cpu, id), k, value, id % 4) as nat
           else Priority(s.d, cpu, id)
  {
    hide ByteAt, WriteByte, AfterByte;
    if id / 4 == r {
      ByteWritten(PriorityWordOf(s.d, cpu, id), k, value, id % 4);
    }
  }

  /** And a byte-wide write to a target register. */
  lemma TargetByteMeans(s: Local, cpu: nat, r: nat, k: nat, value: bv32, id: nat)
    requires Valid(s.d) && cpu < MAX_CPU_INTERFACES && Known(TargetByte(r, k)) && id < INT_IDS
    ensures TargetMask(Write(s, cpu, TargetByte(r, k), value).d, id)
         == if id / 4 == r then AfterByte(s.d.target[r], k, value, id % 4) else TargetMask(s.d, id)
  {
    hide ByteAt, WriteByte, AfterByte;
    if id / 4 == r {
      ByteWritten(s.d.target[r], k, value, id % 4);
    }
  }

  /**
    The interrupt a byte belongs to gets the low byte of the value, and no other interrupt
    changes exactly if nothing spills.
   */
  lemma PriorityByteAlone(s: Local, cpu: nat, r: nat, k: nat, value: bv32)
    requires Valid(s.d) && cpu < MAX_CPU_INTERFACES && Known(PriorityByte(r, k))
    ensures var d' := Write(s, cpu, PriorityByte(r, k), value).d;
      && Priority(d', cpu, 4 * r + k) == ByteAt(value, 0) as nat
      && ((forall id: nat :: id < INT_IDS && id != 4 * r + k ==> Priority(d', cpu, id) == Priority(s.d, cpu, id)) <==>
          NoSpill(PriorityWordOf(s.d, cpu, 4 * r + k), k, value))
  {
    hide ByteAt, Write, Priority, AfterByte, NoSpill, PriorityWordOf;
    var d', w := Write(s, cpu, PriorityByte(r, k), value).d, PriorityWordOf(s.d, cpu, 4 * r + k);
    forall id: nat | id < INT_IDS
      ensures Priority(d', cpu, id) == if id / 4 == r then AfterByte(w, k, value, id % 4) as nat
        else Priority(s.d, cpu, id)
      ensures id / 4 == r ==> Priority(s.d, cpu, id) == ByteAt(w, id % 4) as nat
    {
      PriorityByteMeans(s, cpu, r, k, value, id);
      SameWord(s.d, cpu, id, r, k);
    }
    OwnByte(w, k, value);
    assert (4 * r + k) / 4 == r && (4 * r + k) % 4 == k;
    if NoSpill(w, k, value) {
      NothingSpilled(w, k, value);
    } else {
      var j := Spilled(w, k, value);
      assert (4 * r + j) / 4 == r && (4 * r + j) % 4 == j;
    }
  }

  lemma OwnByte(w: bv32, k: nat, value: bv32)
    requires k < 4
    ensures AfterByte(w, k, value, k) == ByteAt(value, 0)
  {
  }

  lemma NothingSpilled(w: bv32, k: nat, value: bv32)
    requires k < 4 && NoSpill(w, k, value)
    ensures forall j :: 0 <= j < 4 && j != k ==> AfterByte(w, k, value, j) == ByteAt(w, j)
  {
    hide ByteAt;
  }

  lemma Spilled(w: bv32, k: nat, value: bv32) returns (j: nat)
    requires k < 4 && !NoSpill(w, k, value)
    ensures k < j < 4 && AfterByte(w, k, value, j) as nat != ByteAt(w, j) as nat
  {
    hide ByteAt;
    j :| k < j < 4 && ByteAt(w, j) | ByteAt(value, j - k) != ByteAt(w, j);
    BytesDiffer(AfterByte(w, k, value, j), ByteAt(w, j));
  }

  lemma SameWord(d: Dist, cpu: nat, id: nat, r: nat, k: nat)
    requires Valid(d) && cpu < MAX_CPU_INTERFACES && id < INT_IDS && 4 * r + k < INT_IDS && k < 4
    ensures id / 4 == r ==> PriorityWordOf(d, cpu, id) == PriorityWordOf(d, cpu, 4 * r + k)
    ensures id / 4 == r ==> Priority(d, cpu, id) == ByteAt(PriorityWordOf(d, cpu, 4 * r + k), id % 4) as nat
  {
    hide ByteAt;
    assert (4 * r + k) / 4 == r;
  }

  lemma BytesDiffer(a: bv8, b: bv8)
    requires a != b
    ensures a as nat != b as nat
  {
  }
}
