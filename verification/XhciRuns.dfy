/**
  Runs of a TRB ring: the driver builds descriptors and queues commands, waiting for the last
  TRB of the previous one to be read, while the controller moves at any time in between. It
  need not have followed the link TRB when the driver goes on.
 */
module XhciRuns {
  import opened Common
  import opened XhciRing

  /** `pending`: the ring before a descriptor now being built, and its TRBs so far. */
  datatype State = State(ring: Ring, controller: Consumer, pending: Option<(Ring, seq<Trb>)>, sent: seq<Trb>,
    got: seq<Trb>)

  ghost predicate Init(s: State) {
    && Idle(s.ring) && s.ring.enqueue == 0 && s.ring.cycle
    && s.controller == Consumer(0, true) && s.pending.None? && s.sent == [] && s.got == []
  }

  datatype Op = PushTrb(t: Trb) | CommitDescriptor | QueueCommand(t: Trb) | ControllerStep

  /** The controller has read every TRB committed, which is what the completion event tells the driver. */
  predicate Drained(s: State) {
    s.pending.None? && s.got == s.sent
  }

  /** Ring positions are in range. */
  predicate InRange(s: State) {
    && Shape(s.ring) && s.controller.index < TRBS_PER_SEGMENT
    && (s.pending.Some? ==> Shape(s.pending.value.0))
  }

  ghost predicate Step(s: State, op: Op, s': State) {
    InRange(s) &&
    match op
    case PushTrb(t) =>
      && IsPayload(t)
      && (if s.pending.None? then
            Drained(s) && s' == s.(ring := Push(s.ring, WithCycle(t, !s.ring.cycle)), pending := Some((s.ring, [t])))
          else
            && |s.pending.value.1| < LINK_TRB_INDEX
            && s' == s.(ring := Push(s.ring, WithCycle(t, s.ring.cycle)),
                pending := Some((s.pending.value.0, s.pending.value.1 + [t]))))
    case CommitDescriptor =>
      && s.pending.Some?
      && s' == s.(ring := Commit(s.ring, s.pending.value.0.enqueue, s.pending.value.0.cycle),
                  pending := None, sent := s.sent + s.pending.value.1)
    case QueueCommand(t) =>
      IsPayload(t) && Drained(s) && s' == s.(ring := Push(s.ring, WithCycle(t, s.ring.cycle)), sent := s.sent + [t])
    case ControllerStep =>
      && Ready(s.ring.trbs, s.controller)
      && s' == s.(controller := Next(s.controller),
                  got := if s.controller.index == LINK_TRB_INDEX then s.got
                    else s.got + [Payload(s.ring.trbs[s.controller.index])])
  }

  /**
    The controller rests at a link TRB whose cycle bit a full descriptor has flipped back, so
    that it can neither follow the link nor ever see the descriptor.
   */
  predicate Lost(s: State) {
    s.pending.None? && s.got != s.sent && s.ring.enqueue == 0 && s.controller == Consumer(LINK_TRB_INDEX, s.ring.cycle)
  }

  /** What the controller has read is a prefix of what was sent, and it will read the rest unless that is lost. */
  ghost predicate Inv(s: State) {
    && Shape(s.ring) && s.controller.index < TRBS_PER_SEGMENT && |s.got| <= |s.sent| && s.got == s.sent[..|s.got|]
    && match s.pending
       case None => Idle(s.ring) && (Lost(s) || Reads(s.ring.trbs, s.controller, s.sent[|s.got|..], Caught(s.ring)))
       case Some((r, items)) =>
         && Idle(r) && 0 < |items| <= LINK_TRB_INDEX && (forall t :: t in items ==> IsPayload(t))
         && s.ring == Pushed(r, items) && Behind(r, s.controller) && s.got == s.sent
  }

  lemma StepPush(s: State, t: Trb, s': State)
    requires Inv(s) && Step(s, PushTrb(t), s')
    ensures Inv(s')
  {
    hide Reads, IsLink, LinkType, Idle, Inv;
    if s.pending.None? {
      InvDrained(s);
      OnePushed(s.ring, t);
      BuildingInv(s', s.ring, [t]);
    } else {
      var (r, items) := s.pending.value;
      InvPending(s);
      PushedMore(r, items, t);
      BuildingInv(s', r, items + [t]);
    }
  }

  lemma OnePushed(r: Ring, t: Trb)
    requires Shape(r)
    ensures Pushed(r, [t]) == Push(r, WithCycle(t, !r.cycle))
  {
    assert Pushed(r, [t][..0]) == r;
  }

  lemma {:induction false} PushedMore(r: Ring, items: seq<Trb>, t: Trb)
    requires Shape(r) && items != []
    ensures Pushed(r, items + [t]) == Push(Pushed(r, items), WithCycle(t, Pushed(r, items).cycle))
  {
    assert (items + [t])[..|items|] == items;
  }

  lemma BuildingInv(s: State, r: Ring, items: seq<Trb>)
    requires s.pending == Some((r, items)) && Idle(r) && 0 < |items| <= LINK_TRB_INDEX
      && (forall t :: t in items ==> IsPayload(t))
    requires s.ring == Pushed(r, items) && Behind(r, s.controller) && s.got == s.sent
    ensures Inv(s)
  {
    hide IsLink, LinkType, Pushed;
  }

  /**
    A committed descriptor will be read, or it is lost; the latter exactly if it is full and the
    controller had not passed the link TRB.
   */
  lemma StepSend(s: State, r: Ring, items: seq<Trb>, s': State)
    requires Idle(r) && 0 < |items| <= LINK_TRB_INDEX && (forall t :: t in items ==> IsPayload(t))
    requires Behind(r, s.controller) && s.got == s.sent
    requires s' == s.(ring := Commit(Pushed(r, items), r.enqueue, r.cycle), pending := None, sent := s.sent + items)
    ensures Inv(s') && (Lost(s') <==> s.controller.index == LINK_TRB_INDEX && |items| == LINK_TRB_INDEX)
  {
    hide IsLink, LinkType, Pushed, Commit, Idle;
    LaggingRead(r, items, s.controller);
    IdleShape(r);
    IdleShape(s'.ring);
    assert s'.sent[|s'.got|..] == items;
    assert |s'.sent| > |s'.got|;
  }

  lemma IdleShape(r: Ring)
    requires Idle(r)
    ensures Shape(r) && !Ready(r.trbs, Caught(r)) && (r.trbs[LINK_TRB_INDEX].cycle == !r.cycle)
  {
  }

  lemma StepController(s: State, s': State)
    requires Inv(s) && Step(s, ControllerStep, s')
    ensures Inv(s')
  {
    hide IsLink, LinkType, Pushed, Idle;
    match s.pending
    case None =>
      IdleShape(s.ring);
      if s.controller.index != LINK_TRB_INDEX {
        var q := s.sent[|s.got|..];
        assert q != [];
        assert q[1..] == s'.sent[|s'.got|..];
      }
    case Some((r, items)) =>
      PushedPending(r, items);
      LaggingSees(r, items, s.ring, s.controller);
      IdleShape(r);
  }

  lemma StepInv(s: State, op: Op, s': State)
    requires Inv(s) && Step(s, op, s')
    ensures Inv(s')
    ensures Lost(s') <==> CommitLoses(s, op)
  {
    hide Reads, IsLink, LinkType, Pushed, Idle, Commit, Inv;
    match op
    case PushTrb(t) => StepPush(s, t, s');
    case CommitDescriptor =>
      var (r, items) := s.pending.value;
      InvPending(s);
      StepSend(s, r, items, s');
    case QueueCommand(t) =>
      InvDrained(s);
      DirectPush(s.ring, t);
      StepSend(s, s.ring, [t], s');
    case ControllerStep =>
      StepController(s, s');
      LostIsStuck(s);
      LostIsStuck(s');
      StuckAgain(s, s');
  }

  /**
    The step with which a descriptor gets lost: 63 TRBs are committed while the controller is
    still at the link TRB.
   */
  predicate CommitLoses(s: State, op: Op) {
    op.CommitDescriptor? && s.pending.Some? && |s.pending.value.1| == LINK_TRB_INDEX
      && s.controller.index == LINK_TRB_INDEX
  }

  lemma LostIsStuck(s: State)
    requires Inv(s)
    ensures InRange(s) || s.pending.Some?
    ensures Lost(s) ==> !Ready(s.ring.trbs, s.controller)
  {
    hide Reads, IsLink, LinkType, Pushed;
  }

  /** No step of the controller leads to a lost descriptor. */
  lemma StuckAgain(s: State, s': State)
    requires Inv(s) && Step(s, ControllerStep, s')
    ensures !Lost(s')
  {
    hide IsLink, LinkType, Pushed, Idle;
    if s.pending.None? {
      IdleShape(s.ring);
      var q := s.sent[|s.got|..];
      assert s.controller.index < LINK_TRB_INDEX ==> Reads(s.ring.trbs, Next(s.controller), q[1..], Caught(s.ring));
    }
  }

  lemma InvPending(s: State)
    requires Inv(s) && s.pending.Some?
    ensures var (r, items) := s.pending.value;
      && Idle(r) && 0 < |items| <= LINK_TRB_INDEX && (forall t :: t in items ==> IsPayload(t))
      && s.ring == Pushed(r, items) && Behind(r, s.controller) && s.got == s.sent
  {
  }

  lemma InvDrained(s: State)
    requires Inv(s) && Drained(s)
    ensures Idle(s.ring) && Behind(s.ring, s.controller)
  {
    hide IsLink, LinkType;
    assert s.sent[|s.got|..] == [];
    BehindIs(s.ring, s.controller);
  }

  // ---------------------------------------------------------------- whole runs

  ghost predicate Run(states: seq<State>, ops: seq<Op>) {
    && |states| == |ops| + 1 && Init(states[0])
    && forall i :: 0 <= i < |ops| ==> Step(states[i], ops[i], states[i + 1])
  }

  lemma InitInv(s: State)
    requires Init(s)
    ensures Inv(s)
  {
  }

  lemma {:induction false} RunInv(states: seq<State>, ops: seq<Op>, n: nat)
    requires Run(states, ops) && n < |states|
    ensures Inv(states[n])
  {
    hide Inv, Step, Init;
    if n == 0 {
      InitInv(states[0]);
    } else {
      RunInv(states, ops, n - 1);
      StepInv(states[n - 1], ops[n - 1], states[n]);
    }
  }

  /**
    First in, first out, over any number of wraps: the controller has always read a prefix of
    the committed TRBs, and it stops only when it has read them all and is at the enqueue
    position, unless a descriptor is lost. While a descriptor is being built it can do no
    more than pass the link TRB.
   */
  lemma RingIsFifo(states: seq<State>, ops: seq<Op>, n: nat)
    requires Run(states, ops) && n < |states|
    ensures var s := states[n];
      && |s.ring.trbs| == TRBS_PER_SEGMENT && s.controller.index < TRBS_PER_SEGMENT
      && s.got <= s.sent
      && (s.pending.Some? ==>
          s.got == s.sent && (Ready(s.ring.trbs, s.controller) ==> s.controller.index == LINK_TRB_INDEX))
      && (s.pending.None? && !Lost(s) ==> (!Ready(s.ring.trbs, s.controller) <==> s.controller == Caught(s.ring)))
      && (Lost(s) <==> s.got != s.sent && !Ready(s.ring.trbs, s.controller))
  {
    RunInv(states, ops, n);
    StuckMeansDone(states[n]);
  }

  /**
    A run loses a descriptor in no other way than by committing 63 TRBs to a controller still at
    the link TRB, and it ends there.
   */
  lemma LostExactly(states: seq<State>, ops: seq<Op>, n: nat)
    requires Run(states, ops) && n < |states|
    ensures Lost(states[n]) <==> n > 0 && CommitLoses(states[n - 1], ops[n - 1])
    ensures Lost(states[n]) ==> n == |ops|
  {
    hide Inv, Init;
    RunInv(states, ops, n);
    if n > 0 {
      RunInv(states, ops, n - 1);
      StepInv(states[n - 1], ops[n - 1], states[n]);
    } else {
      assert Init(states[0]) ==> !Lost(states[0]) by { InitNotLost(states[0]); }
    }
    if n < |ops| {
      LostIsStuck(states[n]);
      assert Step(states[n], ops[n], states[n + 1]);
    }
  }

  lemma InitNotLost(s: State)
    ensures Init(s) ==> !Lost(s)
  {
  }

  lemma StuckMeansDone(s: State)
    requires Inv(s)
    ensures s.pending.Some? && Ready(s.ring.trbs, s.controller) ==> s.controller.index == LINK_TRB_INDEX
    ensures s.pending.None? && !Lost(s) ==> (!Ready(s.ring.trbs, s.controller) <==> s.controller == Caught(s.ring))
    ensures Lost(s) <==> s.got != s.sent && !Ready(s.ring.trbs, s.controller)
  {
    hide IsLink, LinkType, Pushed, Idle;
    match s.pending
    case None =>
      IdleShape(s.ring);
      assert s.sent[|s.got|..] == [] <==> s.got == s.sent;
    case Some((r, items)) =>
      PushedPending(r, items);
      LaggingSees(r, items, s.ring, s.controller);
  }
}
