/**
  Handing a parked physical CPU to a guest (PSCI, Arm DEN 0022, section 5.1): a CPU parks by
  putting a mailbox on a shared list and sleeping; CPU_ON takes the mailbox off the list,
  fills it, and sends an event. All interleavings of callers and parking CPUs are runs.
 */
module CpuOn {
  import opened Common

  datatype Request = Request(vm: nat, entryPoint: nat, contextId: nat)

  /** One parking of one CPU. `wanted` and `claims` record who has taken it off the list; no step looks at them. */
  datatype Mailbox = Mailbox(cpu: nat, launch: Option<Request>, wanted: Option<Request>, claims: nat)

  /** A CPU runs a guest, is about to look into its mailbox, or sleeps in front of it. */
  datatype Cpu = Running(request: Option<Request>) | Checking(box: nat) | Sleeping(box: nat)

  /** A CPU_ON caller after taking a mailbox off the list, and after filling it. */
  datatype Caller = Idle | Claimed(box: nat, request: Request) | Posted(box: nat)

  /** CPU `c` has affinity `c`; `events` are the CPUs' event registers. */
  datatype State = State(boxes: seq<Mailbox>, parked: seq<nat>, cpus: seq<Cpu>, events: seq<bool>, callers: seq<Caller>)

  datatype Op =
    | Park(c: nat)
    | Check(c: nat)
    | Wake(c: nat)
    | OtherEvent(c: nat)
    | CallOn(k: nat, target: nat, request: Request)
    | Post(k: nat)
    | SendEvent(k: nat)

  /** The first parked mailbox of a CPU with this affinity. */
  function Position(boxes: seq<Mailbox>, parked: seq<nat>, target: nat): (r: Option<nat>)
    requires forall i :: 0 <= i < |parked| ==> parked[i] < |boxes|
    ensures r.Some? ==> r.value < |parked| && boxes[parked[r.value]].cpu == target
    ensures r.Some? ==> forall i :: 0 <= i < r.value ==> boxes[parked[i]].cpu != target
    ensures r.None? ==> forall i :: 0 <= i < |parked| ==> boxes[parked[i]].cpu != target
  {
    if parked == [] then None
    else if boxes[parked[0]].cpu == target then Some(0)
    else match Position(boxes, parked[1..], target)
      case None => None
      case Some(i) => Some(i + 1)
  }

  /** The shared list as the code changes it, under its lock. */
  class ParkedCpus {
    var list: seq<nat>

    method Register(box: nat)
      modifies this
      ensures list == old(list) + [box]
    {
      list := list + [box];
    }

    /** Finds the target, splits the list there, takes the first of the tail, and joins the rest again. */
    method Claim(boxes: seq<Mailbox>, target: nat) returns (r: Option<nat>)
      requires forall i :: 0 <= i < |list| ==> list[i] < |boxes|
      modifies this
      ensures match Position(boxes, old(list), target)
        case None => r == None && list == old(list)
        case Some(i) => r == Some(old(list)[i]) && list == old(list)[..i] + old(list)[i + 1..]
    {
      var i := 0;
      while i < |list|
        invariant i <= |list| && list == old(list)
        invariant var p, q := Position(boxes, list, target), Position(boxes, list[i..], target);
          p.Some? == q.Some? && (p.Some? ==> p.value == q.value + i)
      {
        if boxes[list[i]].cpu == target {
          var tail := list[i..];
          list := list[..i];
          r := Some(tail[0]);
          tail := tail[1..];
          list := list + tail;
          return;
        }
        assert list[i..][1..] == list[i + 1..];
        i := i + 1;
      }
      r := None;
    }
  }

  predicate InRange(s: State) {
    && |s.events| == |s.cpus|
    && (forall i :: 0 <= i < |s.parked| ==> s.parked[i] < |s.boxes|)
    && (forall c :: 0 <= c < |s.cpus| && !s.cpus[c].Running? ==> s.cpus[c].box < |s.boxes|)
    && (forall k :: 0 <= k < |s.callers| && !s.callers[k].Idle? ==> s.callers[k].box < |s.boxes|)
    && (forall b :: 0 <= b < |s.boxes| ==> s.boxes[b].cpu < |s.cpus|)
  }

  ghost predicate Step(s: State, op: Op, s': State) {
    InRange(s) &&
    match op
    case Park(c) =>
      && c < |s.cpus| && s.cpus[c].Running?
      && s' == s.(boxes := s.boxes + [Mailbox(c, None, None, 0)], parked := s.parked + [|s.boxes|],
          cpus := s.cpus[c := Checking(|s.boxes|)])
    case Check(c) =>
      && c < |s.cpus| && s.cpus[c].Checking?
      && var b := s.cpus[c].box;
         if s.boxes[b].launch.Some?
         then s' == s.(boxes := s.boxes[b := s.boxes[b].(launch := None)],
           cpus := s.cpus[c := Running(s.boxes[b].launch)])
         else s' == s.(cpus := s.cpus[c := Sleeping(b)])
    case Wake(c) =>
      && c < |s.cpus| && s.cpus[c].Sleeping? && s.events[c]
      && s' == s.(events := s.events[c := false], cpus := s.cpus[c := Checking(s.cpus[c].box)])
    case OtherEvent(c) =>
      c < |s.cpus| && s' == s.(events := s.events[c := true])
    case CallOn(k, target, request) =>
      && k < |s.callers| && s.callers[k].Idle?
      && (match Position(s.boxes, s.parked, target)
          case None => s' == s
          case Some(i) =>
            var b := s.parked[i];
            s' == s.(parked := s.parked[..i] + s.parked[i + 1..], callers := s.callers[k := Claimed(b, request)],
                     boxes := s.boxes[b := s.boxes[b].(wanted := Some(request), claims := s.boxes[b].claims + 1)]))
    case Post(k) =>
      && k < |s.callers| && s.callers[k].Claimed?
      && var b := s.callers[k].box;
         s' == s.(boxes := s.boxes[b := s.boxes[b].(launch := Some(s.callers[k].request))],
           callers := s.callers[k := Posted(b)])
    case SendEvent(k) =>
      && k < |s.callers| && s.callers[k].Posted?
      && s' == s.(events := seq(|s.cpus|, _ => true), callers := s.callers[k := Idle])
  }

  // ---------------------------------------------------------------- the invariant

  /** The CPU waits at this mailbox. */
  predicate Attends(s: State, b: nat)
    requires InRange(s) && b < |s.boxes|
  {
    var c := s.cpus[s.boxes[b].cpu];
    !c.Running? && c.box == b
  }

  /** Caller `k` has taken mailbox `b` and not yet filled it. */
  predicate Claims(callers: seq<Caller>, k: nat, b: nat)
    requires k < |callers|
  {
    callers[k].Claimed? && callers[k].box == b
  }

  predicate HasClaimer(callers: seq<Caller>, b: nat) {
    exists k :: 0 <= k < |callers| && Claims(callers, k, b)
  }

  /** A caller has filled mailbox `b` and not yet sent the event. */
  predicate HasPoster(callers: seq<Caller>, b: nat) {
    exists k :: 0 <= k < |callers| && callers[k] == Posted(b)
  }

  ghost predicate OnList(s: State, b: nat) { b in s.parked }

  ghost predicate BoxOk(s: State, b: nat)
    requires InRange(s) && b < |s.boxes|
  {
    var m := s.boxes[b];
    && m.claims == (if OnList(s, b) then 0 else 1)
    && (OnList(s, b) ==> m.launch == None && Attends(s, b))
    && (m.launch.Some? ==> Attends(s, b) && m.launch == m.wanted)
  }

  ghost predicate CallerOk(s: State, k: nat)
    requires InRange(s) && k < |s.callers|
  {
    s.callers[k].Claimed? ==>
      var b := s.callers[k].box;
      && !OnList(s, b) && s.boxes[b].launch == None && Attends(s, b) && s.boxes[b].wanted == Some(s.callers[k].request)
      && forall j :: 0 <= j < |s.callers| && j != k ==> !Claims(s.callers, j, b)
  }

  /**
    A CPU at a mailbox that is off the list has its request there, or a claimer about to post
    it; and it will wake for it.
   */
  ghost predicate CpuOk(s: State, c: nat)
    requires InRange(s) && c < |s.cpus|
  {
    !s.cpus[c].Running? ==>
      var b := s.cpus[c].box;
      && s.boxes[b].cpu == c
      && (OnList(s, b) || s.boxes[b].launch.Some? || HasClaimer(s.callers, b))
      && (s.cpus[c].Sleeping? && s.boxes[b].launch.Some? ==>
            s.events[c] || HasPoster(s.callers, b))
  }

  ghost predicate Distinct(q: seq<nat>) {
    forall i, j :: 0 <= i < j < |q| ==> q[i] != q[j]
  }

  ghost predicate Inv(s: State) {
    && InRange(s) && Distinct(s.parked)
    && (forall b :: 0 <= b < |s.boxes| ==> BoxOk(s, b))
    && (forall k :: 0 <= k < |s.callers| ==> CallerOk(s, k))
    && (forall c :: 0 <= c < |s.cpus| ==> CpuOk(s, c))
  }

  ghost predicate Init(s: State) {
    && |s.events| == |s.cpus| && s.boxes == [] && s.parked == []
    && (forall c :: 0 <= c < |s.cpus| ==> s.cpus[c].Running?)
    && (forall k :: 0 <= k < |s.callers| ==> s.callers[k].Idle?)
  }

  // ---------------------------------------------------------------- every step keeps it

  lemma ParkInv(s: State, c: nat, s': State)
    requires Inv(s) && Step(s, Park(c), s')
    ensures Inv(s')
  {
    var n := |s.boxes|;
    assert s'.parked[|s.parked|] == n;
    assert forall b :: b in s'.parked <==> b in s.parked || b == n;
    forall b | 0 <= b < |s'.boxes|
      ensures BoxOk(s', b)
    {
      if b < n { assert BoxOk(s, b); }
    }
    forall k | 0 <= k < |s'.callers|
      ensures CallerOk(s', k)
    {
      assert CallerOk(s, k);
    }
    forall d | 0 <= d < |s'.cpus|
      ensures CpuOk(s', d)
    {
      assert CpuOk(s, d);
    }
  }

  lemma CheckInv(s: State, c: nat, s': State)
    requires Inv(s) && Step(s, Check(c), s')
    ensures Inv(s')
  {
    var b0 := s.cpus[c].box;
    assert CpuOk(s, c) && BoxOk(s, b0);
    forall b | 0 <= b < |s'.boxes|
      ensures BoxOk(s', b)
    {
      assert BoxOk(s, b);
    }
    forall k | 0 <= k < |s'.callers|
      ensures CallerOk(s', k)
    {
      assert CallerOk(s, k);
    }
    forall d | 0 <= d < |s'.cpus|
      ensures CpuOk(s', d)
    {
      assert CpuOk(s, d);
    }
  }

  lemma EventInv(s: State, op: Op, s': State)
    requires Inv(s) && Step(s, op, s') && (op.Wake? || op.OtherEvent?)
    ensures Inv(s')
  {
    forall b | 0 <= b < |s'.boxes|
      ensures BoxOk(s', b)
    {
      assert BoxOk(s, b);
    }
    forall k | 0 <= k < |s'.callers|
      ensures CallerOk(s', k)
    {
      assert CallerOk(s, k);
    }
    forall d | 0 <= d < |s'.cpus|
      ensures CpuOk(s', d)
    {
      assert CpuOk(s, d);
    }
  }

  /** Taking entry `i` out of a list without duplicates. */
  lemma Removed(q: seq<nat>, i: nat)
    requires Distinct(q) && i < |q|
    ensures var r := q[..i] + q[i + 1..];
      Distinct(r) && forall b :: b in r <==> b in q && b != q[i]
  {
  }

  /** State after a successful CPU_ON found its mailbox. */
  ghost predicate Taken(s: State, k: nat, i: nat, request: Request, s': State)
    requires InRange(s) && k < |s.callers| && i < |s.parked|
  {
    var b := s.parked[i];
    s' == s.(parked := s.parked[..i] + s.parked[i + 1..], callers := s.callers[k := Claimed(b, request)],
             boxes := s.boxes[b := s.boxes[b].(wanted := Some(request), claims := s.boxes[b].claims + 1)])
  }

  lemma TakenBoxes(s: State, k: nat, i: nat, request: Request, s': State)
    requires Inv(s) && k < |s.callers| && i < |s.parked| && s.callers[k].Idle? && Taken(s, k, i, request, s')
    ensures InRange(s') && Distinct(s'.parked) && forall b :: 0 <= b < |s'.boxes| ==> BoxOk(s', b)
  {
    hide CallerOk, CpuOk;
    Removed(s.parked, i);
    assert s.parked[i] in s.parked && BoxOk(s, s.parked[i]);
    forall b | 0 <= b < |s'.boxes|
      ensures BoxOk(s', b)
    {
      assert BoxOk(s, b);
    }
  }

  lemma TakenCallers(s: State, k: nat, i: nat, request: Request, s': State)
    requires Inv(s) && k < |s.callers| && i < |s.parked| && s.callers[k].Idle? && Taken(s, k, i, request, s')
      && InRange(s')
    ensures forall j :: 0 <= j < |s'.callers| ==> CallerOk(s', j)
  {
    hide CpuOk;
    Removed(s.parked, i);
    assert s.parked[i] in s.parked && BoxOk(s, s.parked[i]);
    assert forall l, b: nat :: 0 <= l < |s.callers| && l != k && Claims(s'.callers, l, b) ==> Claims(s.callers, l, b);
    forall l | 0 <= l < |s.callers| && l != k
      ensures !Claims(s'.callers, l, s.parked[i])
    {
      assert CallerOk(s, l);
    }
    forall j | 0 <= j < |s'.callers|
      ensures CallerOk(s', j)
    {
      assert CallerOk(s, j);
      if j != k && s'.callers[j].Claimed? {
        assert s'.callers[j].box != s.parked[i];
        assert !Claims(s'.callers, k, s'.callers[j].box);
      }
    }
  }

  lemma TakenCpus(s: State, k: nat, i: nat, request: Request, s': State)
    requires Inv(s) && k < |s.callers| && i < |s.parked| && s.callers[k].Idle? && Taken(s, k, i, request, s')
      && InRange(s')
    ensures forall d :: 0 <= d < |s'.cpus| ==> CpuOk(s', d)
  {
    hide BoxOk, CallerOk;
    Removed(s.parked, i);
    assert Claims(s'.callers, k, s.parked[i]);
    CallersMove(s.callers, s'.callers, k);
    forall d | 0 <= d < |s'.cpus|
      ensures CpuOk(s', d)
    {
      assert CpuOk(s, d);
    }
  }

  lemma CallOnInv(s: State, k: nat, target: nat, request: Request, s': State)
    requires Inv(s) && Step(s, CallOn(k, target, request), s')
    ensures Inv(s')
  {
    hide BoxOk, CallerOk, CpuOk, Distinct;
    var r := Position(s.boxes, s.parked, target);
    if r.Some? {
      assert Taken(s, k, r.value, request, s');
      TakenBoxes(s, k, r.value, request, s');
      TakenCallers(s, k, r.value, request, s');
      TakenCpus(s, k, r.value, request, s');
    }
  }

  /** Only caller `k` has moved, and it was idle. */
  lemma CallersMove(callers: seq<Caller>, callers': seq<Caller>, k: nat)
    requires k < |callers| == |callers'| && callers[k].Idle? && forall l :: 0 <= l < |callers| && l != k ==>
      callers'[l] == callers[l]
    ensures forall b: nat :: HasClaimer(callers, b) ==> HasClaimer(callers', b)
    ensures forall b: nat :: HasPoster(callers, b) ==> HasPoster(callers', b)
  {
    forall b: nat | HasClaimer(callers, b)
      ensures HasClaimer(callers', b)
    {
      var l :| 0 <= l < |callers| && Claims(callers, l, b);
      assert Claims(callers', l, b);
    }
    forall b: nat | HasPoster(callers, b)
      ensures HasPoster(callers', b)
    {
      var l :| 0 <= l < |callers| && callers[l] == Posted(b);
      assert callers'[l] == Posted(b);
    }
  }

  lemma PostInv(s: State, k: nat, s': State)
    requires Inv(s) && Step(s, Post(k), s')
    ensures Inv(s')
  {
    var b0 := s.callers[k].box;
    assert CallerOk(s, k) && BoxOk(s, b0);
    assert s'.callers[k] == Posted(b0);
    forall b | 0 <= b < |s'.boxes|
      ensures BoxOk(s', b)
    {
      assert BoxOk(s, b);
    }
    forall j | 0 <= j < |s'.callers|
      ensures CallerOk(s', j)
    {
      assert CallerOk(s, j);
      assert j != k ==> !Claims(s.callers, j, b0);
      assert forall l, b: nat :: 0 <= l < |s.callers| && Claims(s'.callers, l, b) ==> Claims(s.callers, l, b);
    }
    forall d | 0 <= d < |s'.cpus|
      ensures CpuOk(s', d)
    {
      assert CpuOk(s, d);
      if !s.cpus[d].Running? {
        OtherClaims(s.callers, s'.callers, k, s.cpus[d].box);
      }
    }
  }

  lemma OtherClaims(callers: seq<Caller>, callers': seq<Caller>, k: nat, b: nat)
    requires k < |callers| == |callers'| && !callers[k].Posted? && forall l :: 0 <= l < |callers| && l != k ==>
      callers'[l] == callers[l]
    ensures HasClaimer(callers, b) ==> HasClaimer(callers', b) || Claims(callers, k, b)
    ensures HasPoster(callers, b) ==> HasPoster(callers', b)
  {
    if HasClaimer(callers, b) {
      var l :| 0 <= l < |callers| && Claims(callers, l, b);
      assert l != k ==> Claims(callers', l, b);
    }
    if HasPoster(callers, b) {
      var l :| 0 <= l < |callers| && callers[l] == Posted(b);
      assert callers'[l] == Posted(b);
    }
  }

  lemma SendInv(s: State, k: nat, s': State)
    requires Inv(s) && Step(s, SendEvent(k), s')
    ensures Inv(s')
  {
    forall b | 0 <= b < |s'.boxes|
      ensures BoxOk(s', b)
    {
      assert BoxOk(s, b);
    }
    forall j | 0 <= j < |s'.callers|
      ensures CallerOk(s', j)
    {
      assert CallerOk(s, j);
      assert forall l, b: nat :: 0 <= l < |s.callers| && Claims(s'.callers, l, b) ==> Claims(s.callers, l, b);
    }
    forall d | 0 <= d < |s'.cpus|
      ensures CpuOk(s', d)
    {
      assert CpuOk(s, d);
      if !s.cpus[d].Running? {
        StillClaimed(s.callers, s'.callers, k, s.cpus[d].box);
      }
    }
  }

  lemma StillClaimed(callers: seq<Caller>, callers': seq<Caller>, k: nat, b: nat)
    requires k < |callers| == |callers'| && callers[k].Posted? && forall l :: 0 <= l < |callers| && l != k ==>
      callers'[l] == callers[l]
    ensures HasClaimer(callers, b) ==> HasClaimer(callers', b)
  {
    if HasClaimer(callers, b) {
      var l :| 0 <= l < |callers| && Claims(callers, l, b);
      assert Claims(callers', l, b);
    }
  }

  lemma StepInv(s: State, op: Op, s': State)
    requires Inv(s) && Step(s, op, s')
    ensures Inv(s')
  {
    hide Inv, Step;
    match op
    case Park(c) => ParkInv(s, c, s');
    case Check(c) => CheckInv(s, c, s');
    case Wake(c) => EventInv(s, op, s');
    case OtherEvent(c) => EventInv(s, op, s');
    case CallOn(k, target, request) => CallOnInv(s, k, target, request, s');
    case Post(k) => PostInv(s, k, s');
    case SendEvent(k) => SendInv(s, k, s');
  }

  // ---------------------------------------------------------------- whole runs

  ghost predicate Run(states: seq<State>, ops: seq<Op>) {
    && |states| == |ops| + 1 && Init(states[0])
    && forall i :: 0 <= i < |ops| ==> Step(states[i], ops[i], states[i + 1])
  }

  lemma InitInv(s: State)
    requires Init(s)
    ensures Inv(s)
  {
  }

  lemma {:induction false} RunInv(states: seq<State>, ops: seq<Op>, n: nat)
    requires Run(states, ops) && n < |states|
    ensures Inv(states[n])
  {
    hide Inv, Step, Init;
    if n == 0 {
      InitInv(states[0]);
    } else {
      RunInv(states, ops, n - 1);
      StepInv(states[n - 1], ops[n - 1], states[n]);
    }
  }

  /** A CPU_ON finds its target parked. */
  ghost predicate Succeeds(s: State, op: Op) {
    InRange(s) && op.CallOn? && Position(s.boxes, s.parked, op.target).Some?
  }

  /** Mailboxes keep their CPU and are never claimed less. */
  ghost predicate Grows(s: State, s': State) {
    && |s.boxes| <= |s'.boxes|
    && forall b :: 0 <= b < |s.boxes| ==> s'.boxes[b].cpu == s.boxes[b].cpu && s'.boxes[b].claims >= s.boxes[b].claims
  }

  lemma {:induction false} RunGrows(states: seq<State>, ops: seq<Op>, m: nat, n: nat)
    requires Run(states, ops) && m <= n < |states|
    ensures Grows(states[m], states[n])
    decreases n
  {
    if m < n {
      RunGrows(states, ops, m, n - 1);
      StepGrows(states[n - 1], ops[n - 1], states[n]);
    }
  }

  lemma StepGrows(s: State, op: Op, s': State)
    requires Step(s, op, s')
    ensures Grows(s, s')
  {
  }

  /** New mailboxes are made by the CPU that parks. */
  lemma {:induction false} MadeByParking(states: seq<State>, ops: seq<Op>, m: nat, n: nat, b: nat)
    requires Run(states, ops) && m <= n < |states| && |states[m].boxes| <= b < |states[n].boxes|
    ensures exists k :: m <= k < n && ops[k] == Park(states[n].boxes[b].cpu)
    decreases n
  {
    if m < n {
      StepGrows(states[n - 1], ops[n - 1], states[n]);
      RunInv(states, ops, n - 1);
      if b < |states[n - 1].boxes| {
        MadeByParking(states, ops, m, n - 1, b);
      } else {
        OneNewBox(states[n - 1], ops[n - 1], states[n]);
        assert ops[n - 1] == Park(states[n].boxes[b].cpu);
      }
    }
  }

  lemma OneNewBox(s: State, op: Op, s': State)
    requires Step(s, op, s')
    ensures |s'.boxes| > |s.boxes| ==> |s'.boxes| == |s.boxes| + 1 && op == Park(s'.boxes[|s.boxes|].cpu)
  {
  }

  /** Every parking is claimed at most once, in every reachable state. */
  lemma ClaimedOnce(states: seq<State>, ops: seq<Op>, n: nat, b: nat)
    requires Run(states, ops) && n < |states| && b < |states[n].boxes|
    ensures states[n].boxes[b].claims <= 1
  {
    RunInv(states, ops, n);
    assert BoxOk(states[n], b);
  }

  /**
    Of the CPU_ONs that race for one target exactly one succeeds: a second success needs the
    target to have parked again.
   */
  lemma OneSuccess(states: seq<State>, ops: seq<Op>, m: nat, n: nat)
    requires Run(states, ops) && m < n < |ops| && Succeeds(states[m], ops[m]) && Succeeds(states[n], ops[n])
    requires ops[n].target == ops[m].target
    ensures exists k :: m < k < n && ops[k] == Park(ops[m].target)
  {
    hide Step, Inv, Position, Grows, Succeeds;
    var t := states[n];
    RunInv(states, ops, m);
    RunInv(states, ops, n);
    assert Step(states[m], ops[m], states[m + 1]);
    assert Step(states[n], ops[n], states[n + 1]);
    RunGrows(states, ops, m + 1, n);
    var b := Listed(t, ops[n]);
    AllClaimed(states[m], ops[m], states[m + 1], b);
    ClaimsGrow(states[m + 1], t, b);
    MadeByParking(states, ops, m + 1, n, b);
  }

  lemma Listed(s: State, op: Op) returns (b: nat)
    requires Inv(s) && Succeeds(s, op)
    ensures b < |s.boxes| && s.boxes[b].cpu == op.target && s.boxes[b].claims == 0
  {
    b := s.parked[Position(s.boxes, s.parked, op.target).value];
    assert b in s.parked && BoxOk(s, b);
  }

  lemma ClaimsGrow(s: State, s': State, b: nat)
    requires Grows(s, s') && b < |s'.boxes| && s'.boxes[b].claims == 0
    requires b < |s.boxes| && s.boxes[b].cpu == s'.boxes[b].cpu ==> s.boxes[b].claims >= 1
    ensures b >= |s.boxes|
  {
  }

  /** After a CPU_ON has succeeded, every mailbox its target has made so far has been claimed. */
  lemma AllClaimed(s: State, op: Op, s': State, x: nat)
    requires Inv(s) && Step(s, op, s') && Succeeds(s, op)
    ensures x < |s'.boxes| && s'.boxes[x].cpu == op.target ==> s'.boxes[x].claims >= 1
  {
    hide Position;
    var a := s.parked[Position(s.boxes, s.parked, op.target).value];
    ClaimCounted(s, op, s');
    assert a in s.parked && BoxOk(s, a);
    if x < |s.boxes| && s.boxes[x].cpu == op.target {
      OneListed(s, a, x);
      assert BoxOk(s, x);
    }
  }

  /** A CPU has at most one mailbox on the list. */
  lemma OneListed(s: State, a: nat, x: nat)
    requires Inv(s) && a in s.parked && x < |s.boxes| && s.boxes[x].cpu == s.boxes[a].cpu
    ensures x in s.parked ==> x == a
  {
    assert BoxOk(s, a) && BoxOk(s, x);
  }

  /** The mailbox that was claimed counts the claim, and no mailbox appears. */
  lemma ClaimCounted(s: State, op: Op, s': State)
    requires Inv(s) && Step(s, op, s') && Succeeds(s, op)
    ensures |s'.boxes| == |s.boxes|
    ensures s'.boxes[s.parked[Position(s.boxes, s.parked, op.target).value]].claims >= 1
  {
  }

  /** Every parking of the CPU so far has been claimed. */
  ghost predicate NothingUnclaimed(s: State, target: nat) {
    forall b :: 0 <= b < |s.boxes| && s.boxes[b].cpu == target ==> s.boxes[b].claims > 0
  }

  /** In every run a CPU_ON fails exactly when its target has no unclaimed parking, and then nothing changes. */
  lemma AlreadyOn(states: seq<State>, ops: seq<Op>, n: nat)
    requires Run(states, ops) && n < |ops| && ops[n].CallOn?
    ensures !Succeeds(states[n], ops[n]) <==> NothingUnclaimed(states[n], ops[n].target)
    ensures !Succeeds(states[n], ops[n]) ==> states[n + 1] == states[n]
  {
    var s, target := states[n], ops[n].target;
    RunInv(states, ops, n);
    assert Step(s, ops[n], states[n + 1]);
    if Succeeds(s, ops[n]) {
      var b := Listed(s, ops[n]);
    } else {
      forall b | 0 <= b < |s.boxes| && s.boxes[b].cpu == target
        ensures s.boxes[b].claims > 0
      {
        assert BoxOk(s, b);
        assert b !in s.parked;
      }
    }
  }

  /** A request is posted into an empty mailbox whose CPU still waits at it, so none is overwritten. */
  lemma NeverOverwritten(states: seq<State>, ops: seq<Op>, n: nat)
    requires Run(states, ops) && n < |ops| && ops[n].Post?
    ensures var s := states[n]; var k := ops[n].k;
      && k < |s.callers| && s.callers[k].Claimed? && s.callers[k].box < |s.boxes|
      && s.boxes[s.callers[k].box].launch == None
      && InRange(s) && Attends(s, s.callers[k].box)
  {
    RunInv(states, ops, n);
    assert Step(states[n], ops[n], states[n + 1]);
    assert CallerOk(states[n], ops[n].k);
  }

  /** What a CPU takes out of its mailbox is the request of the caller that claimed it. */
  lemma RightRequest(states: seq<State>, ops: seq<Op>, n: nat)
    requires Run(states, ops) && n < |ops| && ops[n].Check? && states[n + 1].cpus[ops[n].c].Running?
    ensures var s := states[n]; var c := ops[n].c;
      && c < |s.cpus| && s.cpus[c].Checking? && s.cpus[c].box < |s.boxes| && s.boxes[s.cpus[c].box].cpu == c
      && states[n + 1].cpus[c].request == s.boxes[s.cpus[c].box].wanted
  {
    RunInv(states, ops, n);
    assert Step(states[n], ops[n], states[n + 1]);
    var c := ops[n].c;
    assert CpuOk(states[n], c) && BoxOk(states[n], states[n].cpus[c].box);
  }

  /**
    No request is lost and no wake-up missed: a CPU at a mailbox is on the list, or its request
    is in the mailbox, or its claimer is about to post it; and if it sleeps in front of a
    request, an event is latched or its claimer is about to send one.
   */
  lemma NeverLost(states: seq<State>, ops: seq<Op>, n: nat, c: nat)
    requires Run(states, ops) && n < |states| && c < |states[n].cpus| && !states[n].cpus[c].Running?
    ensures var s := states[n]; var b := s.cpus[c].box;
      && |s.events| == |s.cpus| && b < |s.boxes| && s.boxes[b].cpu == c
      && (b in s.parked || s.boxes[b].launch.Some? || HasClaimer(s.callers, b))
      && (s.cpus[c].Sleeping? && s.boxes[b].launch.Some? ==> s.events[c] || HasPoster(s.callers, b))
  {
    RunInv(states, ops, n);
    assert CpuOk(states[n], c);
  }

  // ---------------------------------------------------------------- the fate of a request

  /** A caller holds mailbox `b` with this request still to post. */
  ghost predicate ClaimerHas(callers: seq<Caller>, b: nat, request: Option<Request>) {
    exists k :: 0 <= k < |callers| && Claims(callers, k, b) && Some(callers[k].request) == request
  }

  /** Step `k` is the check with which the CPU at mailbox `b` starts to run this request. */
  ghost predicate Took(states: seq<State>, ops: seq<Op>, k: nat, b: nat, request: Option<Request>) {
    && k < |ops| && k + 1 < |states| && ops[k].Check? && ops[k].c < |states[k].cpus| == |states[k + 1].cpus|
    && states[k].cpus[ops[k].c] == Checking(b) && states[k + 1].cpus[ops[k].c] == Running(request)
  }

  ghost predicate TookBefore(states: seq<State>, ops: seq<Op>, n: nat, b: nat, request: Option<Request>) {
    exists k: nat :: k < n && Took(states, ops, k, b, request)
  }

  /** What one step does to a mailbox that has been claimed. */
  lemma KeptStep(s: State, op: Op, s': State, b: nat)
    requires Inv(s) && Step(s, op, s') && b < |s.boxes| && s.boxes[b].claims > 0
    ensures b < |s'.boxes| && s'.boxes[b].wanted == s.boxes[b].wanted && s'.boxes[b].claims > 0
    ensures ClaimerHas(s.callers, b, s.boxes[b].wanted) ==>
      ClaimerHas(s'.callers, b, s.boxes[b].wanted) || s'.boxes[b].launch == s.boxes[b].wanted
    ensures s.boxes[b].launch.Some? && s.boxes[b].launch == s.boxes[b].wanted ==>
      || s'.boxes[b].launch == s.boxes[b].wanted
      || (op.Check? && op.c < |s.cpus| == |s'.cpus| && s.cpus[op.c] == Checking(b)
          && s'.cpus[op.c] == Running(s.boxes[b].wanted))
  {
    hide CpuOk, Distinct, Position;
    assert BoxOk(s, b);
    if op.Post? { assert CallerOk(s, op.k); }
    if ClaimerHas(s.callers, b, s.boxes[b].wanted) {
      var k :| 0 <= k < |s.callers| && Claims(s.callers, k, b) && Some(s.callers[k].request) == s.boxes[b].wanted;
      assert !(op.Post? && op.k == k) ==> s'.callers[k] == s.callers[k];
      assert s'.callers[k] == s.callers[k] ==> Claims(s'.callers, k, b);
    }
  }

  /** The step with which a mailbox is claimed hands its request to the claimer. */
  lemma ClaimStep(s: State, op: Op, s': State, b: nat)
    requires Inv(s) && Step(s, op, s') && b < |s'.boxes| && s'.boxes[b].claims > 0
      && (b < |s.boxes| ==> s.boxes[b].claims == 0)
    ensures s'.boxes[b].wanted.Some? && ClaimerHas(s'.callers, b, s'.boxes[b].wanted)
  {
    hide CpuOk, Distinct, Position;
    assert op.CallOn?;
    assert Claims(s'.callers, op.k, b);
  }

  /**
    No request is lost on its way: once a mailbox is claimed, the request is with its claimer,
    or in the mailbox, or has been taken by the check with which the CPU started to run it.
   */
  lemma {:induction false} RequestFate(states: seq<State>, ops: seq<Op>, n: nat, b: nat)
    requires Run(states, ops) && n < |states| && b < |states[n].boxes| && states[n].boxes[b].claims > 0
    ensures var m := states[n].boxes[b];
      && m.wanted.Some?
      && (ClaimerHas(states[n].callers, b, m.wanted) || m.launch == m.wanted || TookBefore(states, ops, n, b, m.wanted))
  {
    hide Inv, Step, ClaimerHas, Init;
    if n == 0 {
      NoBoxes(states[0]);
    } else {
      var s, op := states[n - 1], ops[n - 1];
      RunInv(states, ops, n - 1);
      assert Step(s, op, states[n]);
      if b < |s.boxes| && s.boxes[b].claims > 0 {
        RequestFate(states, ops, n - 1, b);
        KeptStep(s, op, states[n], b);
        if TookBefore(states, ops, n - 1, b, s.boxes[b].wanted) {
          var k: nat :| k < n - 1 && Took(states, ops, k, b, s.boxes[b].wanted);
        } else if !ClaimerHas(states[n].callers, b, s.boxes[b].wanted)
          && states[n].boxes[b].launch != s.boxes[b].wanted {
          assert Took(states, ops, n - 1, b, s.boxes[b].wanted);
        }
      } else {
        ClaimStep(s, op, states[n], b);
      }
    }
  }

  lemma NoBoxes(s: State)
    requires Init(s)
    ensures s.boxes == []
  {
  }

  // ---------------------------------------------------------------- from the call to the guest and back

  ghost predicate TookAs(states: seq<State>, ops: seq<Op>, k: nat, b: nat, request: Option<Request>, c: nat) {
    Took(states, ops, k, b, request) && ops[k].c == c
  }

  /** The request of the call in step `m` is with its caller, in the mailbox, or run by the target in state `n`. */
  ghost predicate OnItsWay(states: seq<State>, ops: seq<Op>, m: nat, n: nat, b: nat, target: nat, request: Request)
    requires n < |states| && b < |states[n].boxes|
  {
    || ClaimerHas(states[n].callers, b, Some(request))
    || states[n].boxes[b].launch == Some(request)
    || exists j: nat :: m < j < n && TookAs(states, ops, j, b, Some(request), target)
  }

  /** The mailbox the call in step `m` claims keeps its CPU and its request from then on. */
  lemma {:induction false} CallKept(states: seq<State>, ops: seq<Op>, m: nat, n: nat, b: nat)
    requires Run(states, ops) && m < n < |states| && Succeeds(states[m], ops[m])
    requires b == states[m].parked[Position(states[m].boxes, states[m].parked, ops[m].target).value]
    ensures b < |states[n].boxes| && states[n].boxes[b].claims > 0
    ensures states[n].boxes[b].cpu == ops[m].target && states[n].boxes[b].wanted == Some(ops[m].request)
    ensures OnItsWay(states, ops, m, n, b, ops[m].target, ops[m].request)
    decreases n
  {
    hide Inv, ClaimerHas, Init, TookAs, Step;
    var s, op, s' := states[n - 1], ops[n - 1], states[n];
    RunInv(states, ops, n - 1);
    assert Step(s, op, s');
    if n == m + 1 {
      ClaimedNow(s, op, s', b);
    } else {
      CallKept(states, ops, m, n - 1, b);
      KeptStep(s, op, s', b);
      StepGrows(s, op, s');
      var request := Some(ops[m].request);
      if s.boxes[b].launch == request && s'.boxes[b].launch != request {
        TookNow(states, ops, n - 1, b, request);
      }
    }
  }

  lemma ClaimedNow(s: State, op: Op, s': State, b: nat)
    requires Inv(s) && Step(s, op, s') && Succeeds(s, op)
    requires b == s.parked[Position(s.boxes, s.parked, op.target).value]
    ensures b < |s'.boxes| && s'.boxes[b].claims > 0
    ensures s'.boxes[b].cpu == op.target && s'.boxes[b].wanted == Some(op.request)
    ensures ClaimerHas(s'.callers, b, Some(op.request))
  {
    hide BoxOk, CallerOk, CpuOk, Distinct;
    assert Claims(s'.callers, op.k, b);
  }

  lemma TookNow(states: seq<State>, ops: seq<Op>, j: nat, b: nat, request: Option<Request>)
    requires j + 1 < |states| && j < |ops| && Inv(states[j]) && b < |states[j].boxes|
    requires var s, op, s' := states[j], ops[j], states[j + 1];
      op.Check? && op.c < |s.cpus| == |s'.cpus| && s.cpus[op.c] == Checking(b) && s'.cpus[op.c] == Running(request)
    ensures TookAs(states, ops, j, b, request, states[j].boxes[b].cpu)
  {
    assert CpuOk(states[j], ops[j].c);
  }

  /**
    The request of a CPU_ON that succeeds in step `m` is, in every later state, with its caller, in a mailbox
    of its target, or has been taken by the check with which the target itself started to run it.
   */
  lemma CallFate(states: seq<State>, ops: seq<Op>, m: nat, n: nat) returns (b: nat)
    requires Run(states, ops) && m < n < |states| && Succeeds(states[m], ops[m])
    ensures b < |states[n].boxes| && states[n].boxes[b].cpu == ops[m].target
    ensures OnItsWay(states, ops, m, n, b, ops[m].target, ops[m].request)
  {
    hide Step, Init, OnItsWay;
    b := states[m].parked[Position(states[m].boxes, states[m].parked, ops[m].target).value];
    CallKept(states, ops, m, n, b);
  }

  /** Call `m` asked CPU `c` to run this request. */
  ghost predicate Asked(states: seq<State>, ops: seq<Op>, m: nat, c: nat, request: Option<Request>)
    requires m < |ops| && |states| == |ops| + 1
  {
    Succeeds(states[m], ops[m]) && ops[m].target == c && Some(ops[m].request) == request
  }

  /** A claimed mailbox was claimed by a call for its CPU. */
  lemma {:induction false} ClaimedBy(states: seq<State>, ops: seq<Op>, n: nat, b: nat) returns (m: nat)
    requires Run(states, ops) && n < |states| && b < |states[n].boxes| && states[n].boxes[b].claims > 0
    ensures m < n && Asked(states, ops, m, states[n].boxes[b].cpu, states[n].boxes[b].wanted)
  {
    hide Inv, Step, Init, Succeeds;
    if n == 0 {
      NoBoxes(states[0]);
    } else {
      var s, op, s' := states[n - 1], ops[n - 1], states[n];
      RunInv(states, ops, n - 1);
      assert Step(s, op, s');
      if b < |s.boxes| && s.boxes[b].claims > 0 {
        m := ClaimedBy(states, ops, n - 1, b);
        KeptStep(s, op, s', b);
        StepGrows(s, op, s');
      } else {
        m := n - 1;
        ClaimingCall(s, op, s', b);
      }
    }
  }

  lemma ClaimingCall(s: State, op: Op, s': State, b: nat)
    requires Inv(s) && Step(s, op, s') && b < |s'.boxes| && s'.boxes[b].claims > 0
      && (b < |s.boxes| ==> s.boxes[b].claims == 0)
    ensures Succeeds(s, op) && op.target == s'.boxes[b].cpu && s'.boxes[b].wanted == Some(op.request)
  {
    hide BoxOk, CallerOk, CpuOk, Distinct;
    assert op.CallOn?;
  }

  /** A CPU runs only what an earlier CPU_ON for this very CPU asked it to run. */
  lemma RunsWhatWasAsked(states: seq<State>, ops: seq<Op>, n: nat) returns (m: nat)
    requires Run(states, ops) && n < |ops| && ops[n].Check? && states[n + 1].cpus[ops[n].c].Running?
    ensures m < n && Asked(states, ops, m, ops[n].c, states[n + 1].cpus[ops[n].c].request)
  {
    hide Asked, Init;
    RightRequest(states, ops, n);
    RunInv(states, ops, n);
    assert Step(states[n], ops[n], states[n + 1]);
    var b := states[n].cpus[ops[n].c].box;
    assert BoxOk(states[n], b);
    m := ClaimedBy(states, ops, n, b);
  }
}
