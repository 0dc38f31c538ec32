/**
  Cooperative switching between the virtual CPUs of one physical CPU: each yield saves the
  running one, with the program counter after the yielding instruction, and restores the
  next one in creation order.
 */
module VcpuSwitch {
  import Arith
  import opened Common

  const NUMBER_OF_SUPPORTED_LRS: nat := 4
  const WORD_SIZE: nat := 0x1_0000_0000_0000_0000

  /**
    What a guest has in the hardware: general registers, return address and state, List
    Registers, and the EL0/EL1 system registers.
   */
  datatype Context = Context(regs: seq<nat>, elr: nat, spsr: nat, lrs: seq<nat>, el1: seq<nat>)

  datatype Vm = Vm(id: nat, affinity: nat, table: nat, vmid: nat, context: Context)

  /** Past the instruction that yielded. */
  function Advanced(c: Context): Context { c.(elr := (c.elr + 4) % WORD_SIZE) }

  /** One physical CPU: the list of machines, the live registers, TPIDR_EL2 and VTTBR_EL2. */
  datatype Pcpu = Pcpu(affinity: nat, vms: seq<Vm>, live: Context, tpidr: nat, table: nat, vmid: nat)

  // ---------------------------------------------------------------- who is next

  /** Positions of the machines of one CPU, in creation order. */
  function Candidates(vms: seq<Vm>, affinity: nat, n: nat): (cs: seq<nat>)
    requires n <= |vms|
    ensures forall i :: 0 <= i < |cs| ==> cs[i] < n && vms[cs[i]].affinity == affinity
    ensures forall i, j :: 0 <= i < j < |cs| ==> cs[i] < cs[j]
    ensures forall k :: 0 <= k < n && vms[k].affinity == affinity ==> k in cs
  {
    if n == 0 then []
    else if vms[n - 1].affinity == affinity then Candidates(vms, affinity, n - 1) + [n - 1]
    else Candidates(vms, affinity, n - 1)
  }

  /** Identifiers are unique. */
  ghost predicate Unique(vms: seq<Vm>) {
    forall i, j :: 0 <= i < j < |vms| ==> vms[i].id != vms[j].id
  }

  /** The place of a machine among the candidates. */
  function PlaceOf(vms: seq<Vm>, cs: seq<nat>, id: nat): (r: Option<nat>)
    requires forall i :: 0 <= i < |cs| ==> cs[i] < |vms|
    ensures r.Some? ==> r.value < |cs| && vms[cs[r.value]].id == id && forall j :: 0 <= j < r.value ==>
      vms[cs[j]].id != id
    ensures r.None? ==> forall j :: 0 <= j < |cs| ==> vms[cs[j]].id != id
  {
    if cs == [] then None
    else if vms[cs[0]].id == id then Some(0)
    else match PlaceOf(vms, cs[1..], id)
      case None => None
      case Some(i) => Some(i + 1)
  }

  /** The machine to run after `id`: the next in the round, if there is another. */
  function FindNext(vms: seq<Vm>, id: nat, affinity: nat): (r: Option<nat>)
    ensures r.Some? ==> r.value < |vms| && vms[r.value].affinity == affinity
  {
    var cs := Candidates(vms, affinity, |vms|);
    if |cs| <= 1 then None
    else match PlaceOf(vms, cs, id)
      case None => None
      case Some(p) => Some(cs[(p + 1) % |cs|])
  }

  function IndexOf(vms: seq<Vm>, id: nat): (r: Option<nat>)
    ensures r.Some? ==> r.value < |vms| && vms[r.value].id == id
    ensures r.None? ==> forall i :: 0 <= i < |vms| ==> vms[i].id != id
  {
    if vms == [] then None
    else if vms[0].id == id then Some(0)
    else match IndexOf(vms[1..], id)
      case None => None
      case Some(i) => Some(i + 1)
  }

  // ---------------------------------------------------------------- a yield

  /** The state after a yield, and whether there was anything to switch to. */
  function Yield(s: Pcpu): (Pcpu, bool) {
    var current := IndexOf(s.vms, s.tpidr);
    var next := FindNext(s.vms, s.tpidr, s.affinity);
    if current.None? || next.None? then (s, false)
    else
      var vms := s.vms[current.value := s.vms[current.value].(context := Advanced(s.live))];
      var n := vms[next.value];
      (Pcpu(s.affinity, vms, n.context, n.id, n.table, n.vmid), true)
  }

  /** Machine `i` is the running one, of this CPU, and its Stage 2 table is live. */
  ghost predicate RunsAt(s: Pcpu, i: nat)
    requires i < |s.vms|
  {
    s.vms[i].id == s.tpidr && s.vms[i].affinity == s.affinity && s.vms[i].table == s.table && s.vms[i].vmid == s.vmid
  }

  lemma SameIndex(vms: seq<Vm>, i: nat, j: nat)
    requires Unique(vms) && i < |vms| && j < |vms| && vms[i].id == vms[j].id
    ensures i == j
  {
  }

  /** Saving a context changes neither the round nor the identities. */
  lemma {:induction false} SaveKeepsRound(vms: seq<Vm>, i: nat, c: Context, affinity: nat, n: nat)
    requires i < |vms| && n <= |vms|
    ensures Candidates(vms[i := vms[i].(context := c)], affinity, n) == Candidates(vms, affinity, n)
    decreases n
  {
    if n > 0 { SaveKeepsRound(vms, i, c, affinity, n - 1); }
  }

  // ---------------------------------------------------------------- steps

  /**
    The running machine's own instructions, a yield, a machine created here, or anything other
    CPUs do to their own machines.
   */
  datatype Op = Guest(context: Context) | Yields | Create(vm: Vm) | Others(vms: seq<Vm>)

  ghost predicate HasVm(s: Pcpu) {
    exists i :: 0 <= i < |s.vms| && s.vms[i].affinity == s.affinity
  }

  /** The first machine of a CPU is booted at once; later ones are queued. */
  function Created(s: Pcpu, vm: Vm): Pcpu {
    if Candidates(s.vms, s.affinity, |s.vms|) == []
      then Pcpu(s.affinity, s.vms + [vm], vm.context, vm.id, vm.table, vm.vmid)
    else s.(vms := s.vms + [vm])
  }

  /** Other CPUs create and run machines of their own only. */
  ghost predicate OthersOnly(vms: seq<Vm>, vms': seq<Vm>, affinity: nat) {
    && |vms| <= |vms'| && Unique(vms')
    && (forall i :: 0 <= i < |vms| ==>
        vms'[i].affinity == vms[i].affinity && (vms[i].affinity == affinity ==> vms'[i] == vms[i]))
    && (forall i :: |vms| <= i < |vms'| ==> vms'[i].affinity != affinity)
  }

  ghost predicate Step(s: Pcpu, op: Op, s': Pcpu) {
    match op
    case Guest(c) => s' == s.(live := c)
    case Yields => s' == Yield(s).0
    case Create(vm) => vm.affinity == s.affinity && Unique(s.vms + [vm]) && s' == Created(s, vm)
    case Others(vms) => OthersOnly(s.vms, vms, s.affinity) && s' == s.(vms := vms)
  }

  ghost predicate Sound(s: Pcpu) {
    Unique(s.vms) && (HasVm(s) ==> exists i :: 0 <= i < |s.vms| && RunsAt(s, i))
  }

  lemma YieldSound(s: Pcpu)
    requires Sound(s)
    ensures Sound(Yield(s).0) && Yield(s).0.affinity == s.affinity
  {
    var s' := Yield(s).0;
    if Yield(s).1 {
      var current, next := IndexOf(s.vms, s.tpidr).value, FindNext(s.vms, s.tpidr, s.affinity).value;
      assert RunsAt(s', next);
    }
  }

  lemma StepSound(s: Pcpu, op: Op, s': Pcpu)
    requires Sound(s) && Step(s, op, s')
    ensures Sound(s') && s'.affinity == s.affinity
  {
    hide Yield;
    match op
    case Guest(c) =>
      if HasVm(s) {
        var i :| 0 <= i < |s.vms| && RunsAt(s, i);
        assert RunsAt(s', i);
      }
    case Yields => YieldSound(s);
    case Create(vm) => CreateSound(s, vm);
    case Others(vms) =>
      if HasVm(s') {
        var j :| 0 <= j < |s'.vms| && s'.vms[j].affinity == s'.affinity;
        assert j < |s.vms| && s.vms[j].affinity == s.affinity;
        var i :| 0 <= i < |s.vms| && RunsAt(s, i);
        assert RunsAt(s', i);
      }
  }

  lemma CreateSound(s: Pcpu, vm: Vm)
    requires Sound(s) && vm.affinity == s.affinity && Unique(s.vms + [vm])
    ensures Sound(Created(s, vm))
  {
    var s' := Created(s, vm);
    var cs := Candidates(s.vms, s.affinity, |s.vms|);
    if cs == [] {
      assert RunsAt(s', |s.vms|);
    } else {
      assert s.vms[cs[0]].affinity == s.affinity;
      var i :| 0 <= i < |s.vms| && RunsAt(s, i);
      assert RunsAt(s', i);
    }
  }

  // ---------------------------------------------------------------- whole runs

  ghost predicate Run(states: seq<Pcpu>, ops: seq<Op>) {
    && |states| == |ops| + 1 && states[0].vms == []
    && forall k :: 0 <= k < |ops| ==> Step(states[k], ops[k], states[k + 1])
  }

  lemma {:induction false} RunSound(states: seq<Pcpu>, ops: seq<Op>, n: nat)
    requires Run(states, ops) && n < |states|
    ensures Sound(states[n]) && states[n].affinity == states[0].affinity
  {
    hide Step, Yield;
    if n > 0 {
      RunSound(states, ops, n - 1);
      StepSound(states[n - 1], ops[n - 1], states[n]);
    }
  }

  /**
    The live Stage 2 table and VMID always belong to the machine TPIDR_EL2 names, and that is a
    machine of this CPU.
   */
  lemma LiveTable(states: seq<Pcpu>, ops: seq<Op>, n: nat, i: nat)
    requires Run(states, ops) && n < |states| && HasVm(states[n]) && i < |states[n].vms|
      && states[n].vms[i].id == states[n].tpidr
    ensures RunsAt(states[n], i)
  {
    RunSound(states, ops, n);
    var s := states[n];
    var j :| 0 <= j < |s.vms| && RunsAt(s, j);
    SameIndex(s.vms, i, j);
  }

  // ---------------------------------------------------------------- resuming

  /** Machine `v` of this CPU is either suspended with context `c` or running with it. */
  ghost predicate Keeps(s: Pcpu, i: nat, v: nat, c: Context) {
    && i < |s.vms| && s.vms[i].id == v && s.vms[i].affinity == s.affinity
    && (if s.tpidr == v then s.live == c else s.vms[i].context == c)
  }

  lemma StepKeeps(s: Pcpu, op: Op, s': Pcpu, i: nat, v: nat, c: Context)
    requires Sound(s) && Step(s, op, s') && Keeps(s, i, v, c) && s.tpidr != v
    ensures Keeps(s', i, v, c)
  {
    match op
    case Yields =>
      if Yield(s).1 {
        var current, next := IndexOf(s.vms, s.tpidr).value, FindNext(s.vms, s.tpidr, s.affinity).value;
        assert current != i;
        if s'.tpidr == v { SameIndex(s.vms, i, next); }
      }
    case Create(vm) =>
      assert s.vms[i].affinity == s.affinity && i in Candidates(s.vms, s.affinity, |s.vms|);
    case _ =>
  }

  lemma {:induction false} KeptUntilResumed(states: seq<Pcpu>, ops: seq<Op>, m: nat, n: nat, i: nat, v: nat, c: Context)
    requires Run(states, ops) && m <= n < |states| && Keeps(states[m], i, v, c) && states[m].tpidr != v
    requires forall k :: m <= k < n ==> states[k].tpidr != v
    ensures Keeps(states[n], i, v, c)
    decreases n
  {
    hide Step, Keeps, Sound;
    if m < n {
      KeptUntilResumed(states, ops, m, n - 1, i, v, c);
      RunSound(states, ops, n - 1);
      StepKeeps(states[n - 1], ops[n - 1], states[n], i, v, c);
    }
  }

  /**
    A machine that yields in step `m` and next runs in state `n` finds there exactly the
    registers, List Registers and EL1 state it had, with its return address one instruction on.
   */
  lemma ResumesExactly(states: seq<Pcpu>, ops: seq<Op>, m: nat, n: nat)
    requires Run(states, ops) && m < n < |states| && ops[m].Yields? && Yield(states[m]).1
    requires (forall k :: m < k < n ==> states[k].tpidr != states[m].tpidr) && states[n].tpidr == states[m].tpidr
    ensures var was := states[m].live; states[n].live == was.(elr := (was.elr + 4) % 0x1_0000_0000_0000_0000)
  {
    hide Sound;
    var s := states[m];
    var v, i := s.tpidr, IndexOf(s.vms, s.tpidr).value;
    RunSound(states, ops, m);
    NextDiffers(s);
    assert Step(s, ops[m], states[m + 1]);
    SavedNow(s, states[m + 1], i);
    KeptUntilResumed(states, ops, m + 1, n, i, v, Advanced(s.live));
  }

  /** A switch always goes to another machine. */
  lemma NextDiffers(s: Pcpu)
    requires Sound(s) && Yield(s).1
    ensures Yield(s).0.tpidr != s.tpidr
  {
    hide Candidates, PlaceOf, IndexOf;
    var cs := Candidates(s.vms, s.affinity, |s.vms|);
    var p := PlaceOf(s.vms, cs, s.tpidr).value;
    var q := (p + 1) % |cs|;
    assert p != q by { RoundStep(p, |cs|); }
    assert cs[p] != cs[q];
  }

  lemma RoundStep(p: nat, n: nat)
    requires p < n
    ensures (p + 1) % n == if p + 1 == n then 0 else p + 1
  {
  }

  lemma SmallMod(x: nat, n: nat)
    requires x < n
    ensures x % n == x
  {
  }

  lemma SavedNow(s: Pcpu, s': Pcpu, i: nat)
    requires Sound(s) && s' == Yield(s).0
    requires Yield(s).1 && IndexOf(s.vms, s.tpidr) == Some(i) && s'.tpidr != s.tpidr
    ensures Keeps(s', i, s.tpidr, Advanced(s.live))
  {
    var next := FindNext(s.vms, s.tpidr, s.affinity).value;
    assert HasVm(s) by { assert s.vms[next].affinity == s.affinity; }
    var j :| 0 <= j < |s.vms| && RunsAt(s, j);
    SameIndex(s.vms, i, j);
  }

  // ---------------------------------------------------------------- the round

  function RoundOf(s: Pcpu): seq<nat> { Candidates(s.vms, s.affinity, |s.vms|) }

  /** The running machine's place in the round. */
  ghost predicate At(s: Pcpu, p: nat) {
    p < |RoundOf(s)| && s.vms[RoundOf(s)[p]].id == s.tpidr
  }

  lemma {:induction false} SameCandidates(vms: seq<Vm>, vms': seq<Vm>, affinity: nat, n: nat)
    requires n <= |vms| <= |vms'| && forall i :: 0 <= i < |vms| ==>
      (vms'[i].affinity == affinity <==> vms[i].affinity == affinity)
    ensures Candidates(vms', affinity, n) == Candidates(vms, affinity, n)
  {
    if n > 0 { SameCandidates(vms, vms', affinity, n - 1); }
  }

  lemma {:induction false} NoMoreCandidates(vms: seq<Vm>, affinity: nat, m: nat, n: nat)
    requires m <= n <= |vms| && forall i :: m <= i < n ==> vms[i].affinity != affinity
    ensures Candidates(vms, affinity, n) == Candidates(vms, affinity, m)
    decreases n
  {
    if m < n { NoMoreCandidates(vms, affinity, m, n - 1); }
  }

  lemma PlaceIs(s: Pcpu, p: nat)
    requires Unique(s.vms) && At(s, p)
    ensures PlaceOf(s.vms, RoundOf(s), s.tpidr) == Some(p)
  {
  }

  lemma Injective(cs: seq<nat>, p: nat, q: nat)
    requires p < |cs| && q < |cs| && forall i, j :: 0 <= i < j < |cs| ==> cs[i] < cs[j]
    ensures cs[p] == cs[q] <==> p == q
  {
  }

  /** A yield moves to the next place of the same round. */
  lemma YieldMoves(s: Pcpu, p: nat)
    requires Sound(s) && At(s, p)
    ensures var s' := Yield(s).0; RoundOf(s') == RoundOf(s) && At(s', (p + 1) % |RoundOf(s)|)
  {
    hide Candidates, PlaceOf, IndexOf;
    var cs := RoundOf(s);
    PlaceIs(s, p);
    RoundStep(p, |cs|);
    if |cs| > 1 {
      var current := IndexOf(s.vms, s.tpidr);
      assert current.Some?;
      SaveKeepsRound(s.vms, current.value, Advanced(s.live), s.affinity, |s.vms|);
    }
  }

  /** Steps other than yields and creations do not move the round. */
  lemma OtherStepStays(s: Pcpu, op: Op, s': Pcpu, p: nat)
    requires Sound(s) && At(s, p) && Step(s, op, s') && (op.Guest? || op.Others?)
    ensures RoundOf(s') == RoundOf(s) && At(s', p)
  {
    if op.Others? {
      SameCandidates(s.vms, s'.vms, s.affinity, |s.vms|);
      NoMoreCandidates(s'.vms, s.affinity, |s.vms|, |s'.vms|);
    }
  }

  ghost function YieldCount(ops: seq<Op>, m: nat, n: nat): nat
    requires m <= n <= |ops|
    decreases n
  {
    if m == n then 0 else YieldCount(ops, m, n - 1) + (if ops[n - 1].Yields? then 1 else 0)
  }

  /** Round robin: after `y` yields the running machine is `y` places on. */
  lemma {:induction false} RoundRobin(states: seq<Pcpu>, ops: seq<Op>, m: nat, n: nat, p: nat)
    requires Run(states, ops) && m <= n < |states| && At(states[m], p)
    requires forall k :: m <= k < n ==> !ops[k].Create?
    ensures RoundOf(states[n]) == RoundOf(states[m])
      && At(states[n], (p + YieldCount(ops, m, n)) % |RoundOf(states[m])|)
    decreases n
  {
    hide Step, Sound, At, Yield, RoundOf;
    var size := |RoundOf(states[m])|;
    assert p < size by { InRound(states[m], p); }
    if m == n {
      SmallMod(p, size);
    } else {
      RoundRobin(states, ops, m, n - 1, p);
      RunSound(states, ops, n - 1);
      var q := (p + YieldCount(ops, m, n - 1)) % size;
      assert Step(states[n - 1], ops[n - 1], states[n]);
      if ops[n - 1].Yields? {
        YieldStep(states[n - 1], states[n]);
        YieldMoves(states[n - 1], q);
        ModStep(p + YieldCount(ops, m, n - 1), size);
      } else {
        OtherStepStays(states[n - 1], ops[n - 1], states[n], q);
      }
    }
  }

  lemma InRound(s: Pcpu, p: nat)
    requires At(s, p)
    ensures p < |RoundOf(s)|
  {
  }

  lemma YieldStep(s: Pcpu, s': Pcpu)
    requires Step(s, Yields, s')
    ensures s' == Yield(s).0
  {
  }

  lemma ModStep(x: nat, n: nat)
    requires n > 0
    ensures (x % n + 1) % n == (x + 1) % n
  {
    var q, r := x / n, x % n;
    assert x == q * n + r;
    RoundStep(r, n);
    if r + 1 < n {
      Arith.DivStep(q, r + 1, n);
    } else {
      assert x + 1 == (q + 1) * n + 0;
      Arith.DivStep(q + 1, 0, n);
    }
  }

  /**
    In any n consecutive yields of n machines each place of the round comes up exactly once:
    after fewer than n yields it is another one than before, after n the same.
   */
  lemma EachRunsOnce(states: seq<Pcpu>, ops: seq<Op>, m: nat, n: nat, p: nat)
    requires Run(states, ops) && m <= n < |states| && At(states[m], p)
    requires forall k :: m <= k < n ==> !ops[k].Create?
    requires YieldCount(ops, m, n) <= |RoundOf(states[m])|
    ensures var y, size := YieldCount(ops, m, n), |RoundOf(states[m])|;
      && (0 < y < size ==> states[n].tpidr != states[m].tpidr)
      && (y == size ==> states[n].tpidr == states[m].tpidr)
      && At(states[n], if p + y < size then p + y else p + y - size)
  {
    hide Step, Sound, Yield, At, RoundOf, YieldCount;
    var y, size := YieldCount(ops, m, n), |RoundOf(states[m])|;
    RoundRobin(states, ops, m, n, p);
    InRound(states[m], p);
    OnceAround(p, y, size);
    SameMachines(states, ops, m, n, p, if p + y < size then p + y else p + y - size);
  }

  lemma OnceAround(p: nat, y: nat, n: nat)
    requires p < n && y <= n
    ensures (p + y) % n == if p + y < n then p + y else p + y - n
  {
  }

  /** Between creations the machines of the round keep their identities. */
  lemma SameMachines(states: seq<Pcpu>, ops: seq<Op>, m: nat, n: nat, p: nat, q: nat)
    requires Run(states, ops) && m <= n < |states| && At(states[m], p) && At(states[n], q)
      && RoundOf(states[n]) == RoundOf(states[m])
    ensures states[n].tpidr == states[m].tpidr <==> p == q
  {
    RunSound(states, ops, n);
    RunSound(states, ops, m);
    IdsStay(states, ops, m, n, RoundOf(states[m])[p]);
    var cs := RoundOf(states[m]);
    Injective(cs, p, q);
  }

  lemma {:induction false} IdsStay(states: seq<Pcpu>, ops: seq<Op>, m: nat, n: nat, i: nat)
    requires Run(states, ops) && m <= n < |states| && i < |states[m].vms|
      && states[m].vms[i].affinity == states[m].affinity
    ensures i < |states[n].vms| && states[n].vms[i].id == states[m].vms[i].id
      && states[n].vms[i].affinity == states[n].affinity
    decreases n
  {
    hide Sound;
    if m < n {
      IdsStay(states, ops, m, n - 1, i);
      assert Step(states[n - 1], ops[n - 1], states[n]);
    }
  }

  // ---------------------------------------------------------------- the code

  /** A physical CPU with its registers, and the list of all machines. */
  class PhysicalCpu {
    const affinity: nat
    var vms: seq<Vm>
    var regs: seq<nat>
    var elr: nat
    var spsr: nat
    const listRegisters: array<nat>
    var el1: seq<nat>
    var tpidr: nat
    var table: nat
    var vmid: nat

    ghost predicate Valid()
      reads this
    {
      listRegisters.Length == NUMBER_OF_SUPPORTED_LRS && forall i :: 0 <= i < |vms| ==>
        |vms[i].context.lrs| == NUMBER_OF_SUPPORTED_LRS
    }

    ghost function View(): Pcpu
      reads this, listRegisters
    {
      Pcpu(affinity, vms, Context(regs, elr, spsr, listRegisters[..], el1), tpidr, table, vmid)
    }

    /** Copies what the guest has in the hardware. */
    method SaveContext(elrValue: nat, spsrValue: nat) returns (c: Context)
      requires Valid()
      ensures c == Context(regs, elrValue, spsrValue, listRegisters[..], el1)
    {
      var lrs := [];
      var i := 0;
      while i < NUMBER_OF_SUPPORTED_LRS
        invariant i <= NUMBER_OF_SUPPORTED_LRS && lrs == listRegisters[..i]
      {
        lrs := lrs + [listRegisters[i]];
        i := i + 1;
      }
      c := Context(regs, elrValue, spsrValue, lrs, el1);
    }

    /** Puts a saved context into the hardware; the caller programs the return address and state. */
    method RestoreContext(c: Context) returns (elrValue: nat, spsrValue: nat)
      requires Valid() && |c.lrs| == NUMBER_OF_SUPPORTED_LRS
      modifies this`regs, this`el1, listRegisters
      ensures Valid() && regs == c.regs && el1 == c.el1 && listRegisters[..] == c.lrs && elrValue == c.elr
        && spsrValue == c.spsr
    {
      regs := c.regs;
      var i := 0;
      while i < NUMBER_OF_SUPPORTED_LRS
        invariant i <= NUMBER_OF_SUPPORTED_LRS && listRegisters[..i] == c.lrs[..i] && regs == c.regs && Valid()
      {
        listRegisters[i] := c.lrs[i];
        i := i + 1;
      }
      el1 := c.el1;
      return c.elr, c.spsr;
    }

    /** The machines of this CPU, in creation order. */
    method CollectCandidates() returns (candidates: seq<nat>)
      ensures candidates == Candidates(vms, affinity, |vms|)
    {
      candidates := [];
      var i := 0;
      while i < |vms|
        invariant i <= |vms| && candidates == Candidates(vms, affinity, i)
      {
        if vms[i].affinity == affinity {
          candidates := candidates + [i];
        }
        i := i + 1;
      }
    }

    /** The machine whose turn it is after the current one. */
    method FindNextSameAffinityVcpu() returns (r: Option<nat>)
      ensures r == FindNext(vms, tpidr, affinity)
    {
      hide Candidates, PlaceOf;
      var candidates := CollectCandidates();
      if |candidates| <= 1 {
        return None;
      }
      var place := FindPlace(candidates);
      if place.None? {
        return None;
      }
      r := Some(candidates[(place.value + 1) % |candidates|]);
    }

    /** The current machine's place among the candidates. */
    method FindPlace(candidates: seq<nat>) returns (r: Option<nat>)
      requires forall i :: 0 <= i < |candidates| ==> candidates[i] < |vms|
      ensures r == PlaceOf(vms, candidates, tpidr)
    {
      var position := 0;
      while position < |candidates|
        invariant position <= |candidates|
        invariant var p, q := PlaceOf(vms, candidates, tpidr), PlaceOf(vms, candidates[position..], tpidr);
          p.Some? == q.Some? && (p.Some? ==> p.value == q.value + position)
      {
        if vms[candidates[position]].id == tpidr {
          return Some(position);
        }
        assert candidates[position..][1..] == candidates[position + 1..];
        position := position + 1;
      }
      r := None;
    }

    /** The current machine's place in the list. */
    method GetCurrentVm() returns (r: Option<nat>)
      ensures r == IndexOf(vms, tpidr)
    {
      var i := 0;
      while i < |vms|
        invariant i <= |vms|
        invariant var p, q := IndexOf(vms, tpidr), IndexOf(vms[i..], tpidr);
          p.Some? == q.Some? && (p.Some? ==> p.value == q.value + i)
      {
        if vms[i].id == tpidr {
          return Some(i);
        }
        assert vms[i..][1..] == vms[i + 1..];
        i := i + 1;
      }
      r := None;
    }

    method TryYieldToNextVcpu() returns (switched: bool)
      requires Valid() && IndexOf(vms, tpidr).Some?
      modifies this, listRegisters
      ensures Valid() && (View(), switched) == Yield(old(View()))
    {
      hide FindNext, IndexOf;
      var current := GetCurrentVm();
      var next := FindNextSameAffinityVcpu();
      if next.None? {
        return false;
      }
      elr := (elr + 4) % WORD_SIZE;
      var saved := SaveContext(elr, spsr);
      vms := vms[current.value := vms[current.value].(context := saved)];
      var target := vms[next.value];
      var e, p := RestoreContext(target.context);
      table, vmid := target.table, target.vmid;
      elr, spsr, tpidr := e, p, target.id;
      switched := true;
    }
  }
}
