/**
  The emulated GICv2 distributor (GICv2 architecture specification IHI 0048B, section 4.3):
  banked and shared registers, and what raising an interrupt does to them, to the queue of
  cross-CPU requests, and to the List Registers of the CPU that runs the code. One-bit
  registers are sets of interrupt numbers.
 */
module VgicDistributor {
  import opened Common
  import opened VgicLists

  const MAX_CPU_INTERFACES: nat := 8
  const BANKED_INT_ID_COUNT: nat := 32
  /** The priority array covers interrupts up to this number. */
  const INT_IDS: nat := 1020
  const TIMER_INT_ID: nat := 27

  datatype Bank = Bank(group: set<nat>, enable: set<nat>, pending: set<nat>, active: set<nat>,
                       priority: seq<bv32>, configuration: seq<bv32>)

  /** A request queued for another CPU. `serial` numbers the requests of a run; the code has no such field. */
  datatype Request = Request(serial: nat, target: nat, entry: Lr)

  /** `own` is the CPU that interrupts 32 and up go to; CPU `c` stands for the target mask with bit `c` set. */
  datatype Dist = Dist(ctlr: bv32, shared: Bank, banked: seq<Bank>, target: seq<bv32>, own: nat, queue: seq<Request>,
    serial: nat)

  predicate ValidBank(b: Bank, priorities: nat, configurations: nat) {
    |b.priority| == priorities && |b.configuration| == configurations
  }

  predicate Valid(d: Dist) {
    && |d.banked| == MAX_CPU_INTERFACES && (forall c :: 0 <= c < MAX_CPU_INTERFACES ==> ValidBank(d.banked[c], 8, 2))
    && ValidBank(d.shared, 255, 64) && |d.target| == 255 && d.own < MAX_CPU_INTERFACES
  }

  // ---------------------------------------------------------------- banked register selection

  /** The registers that hold interrupt `id` as CPU `cpu` sees them. */
  function BankOf(d: Dist, cpu: nat, id: nat): (b: Bank)
    requires Valid(d) && cpu < MAX_CPU_INTERFACES
  {
    if id < BANKED_INT_ID_COUNT then d.banked[cpu] else d.shared
  }

  function WithBank(d: Dist, cpu: nat, id: nat, b: Bank): (d': Dist)
    requires Valid(d) && cpu < MAX_CPU_INTERFACES
    requires ValidBank(b, |BankOf(d, cpu, id).priority|, |BankOf(d, cpu, id).configuration|)
    ensures Valid(d')
  {
    if id < BANKED_INT_ID_COUNT then d.(banked := d.banked[cpu := b]) else d.(shared := b)
  }

  predicate Enabled(d: Dist, cpu: nat, id: nat)
    requires Valid(d) && cpu < MAX_CPU_INTERFACES
  {
    id in BankOf(d, cpu, id).enable
  }

  predicate IsPending(d: Dist, cpu: nat, id: nat)
    requires Valid(d) && cpu < MAX_CPU_INTERFACES
  {
    id in BankOf(d, cpu, id).pending
  }

  /** Byte `k` of a register. */
  function ByteAt(w: bv32, k: nat): bv8
    requires k < 4
  {
    if k == 0 then (w & 0xFF) as bv8 else if k == 1 then ((w >> 8) & 0xFF) as bv8
    else if k == 2 then ((w >> 16) & 0xFF) as bv8 else ((w >> 24) & 0xFF) as bv8
  }

  function ByteOf(w: bv32, k: nat): (r: nat)
    requires k < 4
    ensures r < 256
  {
    ByteAt(w, k) as nat
  }

  function Priority(d: Dist, cpu: nat, id: nat): (p: nat)
    requires Valid(d) && cpu < MAX_CPU_INTERFACES && id < INT_IDS
    ensures p < 256
  {
    ByteOf(BankOf(d, cpu, id).priority[id / 4], id % 4)
  }

  predicate DistributorEnabled(d: Dist) { d.ctlr & 3 != 0 }

  function SetPending(d: Dist, cpu: nat, id: nat, pending: bool): (d': Dist)
    requires Valid(d) && cpu < MAX_CPU_INTERFACES
    ensures Valid(d')
  {
    var b := BankOf(d, cpu, id);
    WithBank(d, cpu, id, b.(pending := if pending then b.pending + {id} else b.pending - {id}))
  }

  function SetActive(d: Dist, cpu: nat, id: nat, active: bool): (d': Dist)
    requires Valid(d) && cpu < MAX_CPU_INTERFACES
    ensures Valid(d')
  {
    var b := BankOf(d, cpu, id);
    WithBank(d, cpu, id, b.(active := if active then b.active + {id} else b.active - {id}))
  }

  /** The List Register entry for an interrupt in a CPU's view. */
  function EntryFor(d: Dist, cpu: nat, id: nat, physical: Option<nat>): (e: Lr)
    requires Valid(d) && cpu < MAX_CPU_INTERFACES && id < INT_IDS
    ensures e.pending && e.intId == id
  {
    Lr(id, id in BankOf(d, cpu, id).group, Priority(d, cpu, id) / 8, true, false,
       if physical.Some? then Hardware(physical.value) else Eoi)
  }

  // ---------------------------------------------------------------- raising an interrupt

  /** Distributor and List Registers of the CPU that runs the code. */
  datatype Local = Local(d: Dist, lrs: seq<Lr>)

  /** Raising interrupt `id` for one target. */
  function TriggerOne(s: Local, cpu: nat, id: nat, physical: Option<nat>, target: nat): (s': Local)
    requires Valid(s.d) && cpu < MAX_CPU_INTERFACES && target < MAX_CPU_INTERFACES && id < INT_IDS
    ensures Valid(s'.d)
  {
    var d := SetPending(s.d, target, id, true);
    if !DistributorEnabled(d) || !Enabled(d, target, id) then Local(d, s.lrs)
    else
      var e := EntryFor(d, target, id, physical);
      if target == cpu then Local(d, Inject(s.lrs, e))
      else Local(d.(queue := d.queue + [Request(d.serial, target, e)], serial := d.serial + 1), s.lrs)
  }

  /** Raising it for the targets from `bit` on. */
  function TriggerFrom(s: Local, cpu: nat, id: nat, physical: Option<nat>, targets: set<nat>, bit: nat): (s': Local)
    requires Valid(s.d) && cpu < MAX_CPU_INTERFACES && bit <= MAX_CPU_INTERFACES && id < INT_IDS
    ensures Valid(s'.d)
    decreases MAX_CPU_INTERFACES - bit
  {
    if bit == MAX_CPU_INTERFACES then s
    else TriggerFrom(if bit in targets then TriggerOne(s, cpu, id, physical, bit)
      else s, cpu, id, physical, targets, bit + 1)
  }

  function TriggerTo(s: Local, cpu: nat, id: nat, physical: Option<nat>, targets: set<nat>): (s': Local)
    requires Valid(s.d) && cpu < MAX_CPU_INTERFACES && id < INT_IDS
    ensures Valid(s'.d)
  {
    TriggerFrom(s, cpu, id, physical, targets, 0)
  }

  function Retrigger(s: Local, cpu: nat, id: nat): (s': Local)
    requires Valid(s.d) && cpu < MAX_CPU_INTERFACES && id < INT_IDS
    ensures Valid(s'.d)
  {
    TriggerTo(s, cpu, id, None, if id < BANKED_INT_ID_COUNT then {cpu} else {s.d.own})
  }

  // ---------------------------------------------------------------- the queue of other CPUs' requests

  /** Requests for `cpu` go to its List Registers while they fit; all others stay, in order. */
  function Deliver(queue: seq<Request>, lrs: seq<Lr>, cpu: nat): (seq<Request>, seq<Lr>) {
    if queue == [] then ([], lrs)
    else if queue[0].target == cpu && Fits(lrs, queue[0].entry.intId) then
      Deliver(queue[1..], Inject(lrs, queue[0].entry), cpu)
    else
      var (rest, lrs') := Deliver(queue[1..], lrs, cpu);
      ([queue[0]] + rest, lrs')
  }

  function InjectQueued(s: Local, cpu: nat): (s': Local)
    requires Valid(s.d)
    ensures Valid(s'.d)
  {
    var (queue, lrs) := Deliver(s.d.queue, s.lrs, cpu);
    Local(s.d.(queue := queue), lrs)
  }

  // ---------------------------------------------------------------- the pending-interrupt scan

  datatype Candidate = Candidate(priority: nat, id: nat)

  /** A lower value is a higher priority; between equals the lower interrupt number goes first. */
  predicate Before(a: Candidate, b: Candidate) {
    a.priority < b.priority || (a.priority == b.priority && a.id < b.id)
  }

  predicate IsCandidate(d: Dist, cpu: nat, id: nat)
    requires Valid(d) && cpu < MAX_CPU_INTERFACES
  {
    id != TIMER_INT_ID && IsPending(d, cpu, id) && Enabled(d, cpu, id)
  }

  /** How many interrupts are in the view of this CPU. */
  function ViewSize(d: Dist, cpu: nat): (n: nat)
    ensures n <= INT_IDS
  {
    if cpu == d.own then INT_IDS else BANKED_INT_ID_COUNT
  }

  function InsertCandidate(cs: seq<Candidate>, c: Candidate): seq<Candidate> {
    if cs == [] || Before(c, cs[0]) then [c] + cs else [cs[0]] + InsertCandidate(cs[1..], c)
  }

  /** The candidates among the first `n` interrupts, in priority order. */
  function Candidates(d: Dist, cpu: nat, n: nat): seq<Candidate>
    requires Valid(d) && cpu < MAX_CPU_INTERFACES && n <= INT_IDS
  {
    if n == 0 then []
    else
      var cs := Candidates(d, cpu, n - 1);
      if IsCandidate(d, cpu, n - 1) then InsertCandidate(cs, Candidate(Priority(d, cpu, n - 1), n - 1)) else cs
  }

  predicate InRange(cs: seq<Candidate>) {
    forall i :: 0 <= i < |cs| ==> cs[i].id < INT_IDS
  }

  /** Injects candidates in order until one does not fit. */
  function InjectAll(d: Dist, cpu: nat, lrs: seq<Lr>, cs: seq<Candidate>): seq<Lr>
    requires Valid(d) && cpu < MAX_CPU_INTERFACES && InRange(cs)
    decreases |cs|
  {
    if cs == [] || !Fits(lrs, cs[0].id) then lrs
    else InjectAll(d, cpu, Inject(lrs, EntryFor(d, cpu, cs[0].id, None)), cs[1..])
  }

  /** Refills the List Registers with what is pending and enabled for this CPU. */
  function ScanPending(s: Local, cpu: nat): (s': Local)
    requires Valid(s.d) && cpu < MAX_CPU_INTERFACES
    ensures s'.d == s.d
  {
    CandidatesInRange(s.d, cpu, ViewSize(s.d, cpu));
    if !DistributorEnabled(s.d) then s
    else s.(lrs := InjectAll(s.d, cpu, s.lrs, Candidates(s.d, cpu, ViewSize(s.d, cpu))))
  }

  lemma {:induction false} InsertInRange(cs: seq<Candidate>, c: Candidate)
    requires InRange(cs) && c.id < INT_IDS
    ensures InRange(InsertCandidate(cs, c))
  {
    if cs != [] && !Before(c, cs[0]) {
      InsertInRange(cs[1..], c);
    }
  }

  lemma {:induction false} CandidatesInRange(d: Dist, cpu: nat, n: nat)
    requires Valid(d) && cpu < MAX_CPU_INTERFACES && n <= INT_IDS
    ensures InRange(Candidates(d, cpu, n))
  {
    hide Valid, IsCandidate, ByteOf;
    if n > 0 {
      CandidatesInRange(d, cpu, n - 1);
      if IsCandidate(d, cpu, n - 1) {
        InsertInRange(Candidates(d, cpu, n - 1), Candidate(Priority(d, cpu, n - 1), n - 1));
      }
    }
  }

  // ---------------------------------------------------------------- the end of an interrupt

  /** One List Register reported in GICH_EISR: its interrupt is over in the distributor and the register is free. */
  function EndOne(s: Local, cpu: nat, i: nat): (s': Local)
    requires Valid(s.d) && cpu < MAX_CPU_INTERFACES && i < |s.lrs|
    ensures Valid(s'.d)
  {
    if !Ended(s.lrs[i]) then s
    else Local(SetActive(SetPending(s.d, cpu, s.lrs[i].intId, false), cpu, s.lrs[i].intId, false), s.lrs[i := CLEARED])
  }
}
