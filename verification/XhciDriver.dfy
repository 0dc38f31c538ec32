/** The driver's side of the rings: TRB memory updated in place, and the transfers built on it. */
module XhciDriver {
  import opened Common
  import opened XhciRing
  import opened XhciTransfer

  /** The controller's side of a ring: where it is, and every TRB it has read. */
  class Controller {
    var index: nat
    var cycle: bool
    var got: seq<Trb>

    constructor ()
      ensures index == 0 && cycle && got == []
    {
      index, cycle, got := 0, true, [];
    }

    function Position(): Consumer
      reads this
    {
      Consumer(index, cycle)
    }

    /**
      Reads on as long as the cycle bits let it, following link TRBs by their type and toggle
      flag. With `lags` it leaves a link alone behind which nothing is ready yet. `q` is what
      there is to read; a controller that cannot get started stays where it is.
     */
    method Consume(ring: TrbRing, lags: bool, ghost q: seq<Trb>) returns (read: bool)
      requires ring.Valid() && Idle(ring.View()) && index < TRBS_PER_SEGMENT
      requires Reads(ring.View().trbs, Position(), q, Caught(ring.View())) || !Ready(ring.View().trbs, Position())
      modifies this
      ensures old(Reads(ring.View().trbs, Position(), q, Caught(ring.View()))) ==>
        && got == old(got) + q && (read <==> q != [])
        && Behind(ring.View(), Position()) && (!lags ==> Position() == Caught(ring.View()))
      ensures !old(Reads(ring.View().trbs, Position(), q, Caught(ring.View()))) ==>
        !read && got == old(got) && Position() == old(Position())
    {
      hide Reads, Ready, IsLink, LinkType, Idle, Follow;
      ghost var r, rest := ring.View(), q;
      ghost var all := Reads(r.trbs, Position(), q, Caught(r));
      read := false;
      while ring.trbs[index].cycle == cycle
        invariant index < TRBS_PER_SEGMENT
        invariant all ==>
          && Reads(r.trbs, Position(), rest, Caught(r)) && got + rest == old(got) + q
          && (read <==> |rest| < |q|)
        invariant !all ==> got == old(got) && Position() == old(Position()) && !Ready(r.trbs, Position()) && !read
        decreases |rest|, index == LINK_TRB_INDEX
      {
        var t := ring.trbs[index];
        ReadsHere(r, Position(), rest);
        if LinkType(t.control) {
          if lags && ring.trbs[0].cycle == cycle {
            return;
          }
          index, cycle := 0, if t.control & LINK_TOGGLE != 0 then !cycle else cycle;
        } else {
          got, index, read := got + [Payload(t)], index + 1, true;
          rest := rest[1..];
        }
      }
      ReadsHere(r, Position(), rest);
    }
  }

  /** What a controller that will read `q` finds at its position. */
  lemma ReadsHere(r: Ring, c: Consumer, q: seq<Trb>)
    requires Idle(r) && c.index < TRBS_PER_SEGMENT
    ensures Ready(r.trbs, c) <==> r.trbs[c.index].cycle == c.cycle
    ensures LinkType(r.trbs[c.index].control) <==> c.index == LINK_TRB_INDEX
    ensures c.index == LINK_TRB_INDEX ==> r.trbs[c.index].control & LINK_TOGGLE != 0
    ensures Reads(r.trbs, c, q, Caught(r)) ==>
      if r.trbs[c.index].cycle != c.cycle then q == [] && c == Caught(r)
      else if c.index == LINK_TRB_INDEX then
        && Reads(r.trbs, Consumer(0, !c.cycle), q, Caught(r))
        && (r.trbs[0].cycle == c.cycle ==> q == [] && Behind(r, c))
      else
        && q != [] && q[0] == Payload(r.trbs[c.index])
        && Reads(r.trbs, Consumer(c.index + 1, c.cycle), q[1..], Caught(r))
  {
    LinkFields();
  }

  class TrbRing {
    const trbs: array<Trb>
    var enqueueIndex: nat
    var cycleState: nat

    ghost predicate Valid()
      reads this, trbs
    {
      trbs.Length == TRBS_PER_SEGMENT && enqueueIndex < LINK_TRB_INDEX && cycleState < 2
    }

    ghost function View(): Ring
      reads this, trbs
    {
      Ring(trbs[..], enqueueIndex, cycleState == 1)
    }

    constructor (base: nat)
      ensures Valid() && fresh(trbs) && Idle(View()) && enqueueIndex == 0 && cycleState == 1
      ensures trbs[LINK_TRB_INDEX].low + 0x1_0000_0000 * trbs[LINK_TRB_INDEX].high == base
    {
      trbs := new Trb[TRBS_PER_SEGMENT](_ => Trb(0, 0, 0, 0, false));
      enqueueIndex := 0;
      cycleState := 1;
      new;
      trbs[LINK_TRB_INDEX] :=
        Trb(base % 0x1_0000_0000, base / 0x1_0000_0000, 0, TrbType(TRB_LINK) | LINK_TOGGLE, false);
    }

    method AdvanceEnqueue()
      requires Valid()
      modifies this, trbs
      ensures Valid()
      ensures enqueueIndex == if old(enqueueIndex) + 1 == LINK_TRB_INDEX then 0 else old(enqueueIndex) + 1
      ensures old(enqueueIndex) + 1 != LINK_TRB_INDEX ==> trbs[..] == old(trbs[..]) && cycleState == old(cycleState)
      ensures old(enqueueIndex) + 1 == LINK_TRB_INDEX ==>
        && cycleState == 1 - old(cycleState)
        && trbs[..] == old(trbs[..])[LINK_TRB_INDEX :=
            WithCycle(old(trbs[LINK_TRB_INDEX]), !old(trbs[LINK_TRB_INDEX]).cycle)]
    {
      enqueueIndex := enqueueIndex + 1;
      if enqueueIndex == LINK_TRB_INDEX {
        trbs[LINK_TRB_INDEX] := WithCycle(trbs[LINK_TRB_INDEX], !trbs[LINK_TRB_INDEX].cycle);
        enqueueIndex := 0;
        cycleState := 1 - cycleState;
      }
    }

    method PushTrbRaw(t: Trb)
      requires Valid()
      modifies this, trbs
      ensures Valid() && View() == Push(old(View()), t)
    {
      trbs[enqueueIndex] := t;
      assert trbs[..] == old(trbs[..])[old(enqueueIndex) := t];
      AdvanceEnqueue();
    }

    /** Adds a TRB to the descriptor being built: the first with the wrong cycle bit, the others with the right one. */
    method PushItem(t: Trb, first: bool, startCycle: nat, ghost r: Ring, ghost items: seq<Trb>)
      requires Valid() && Shape(r) && View() == Pushed(r, items) && startCycle < 2 && r.cycle == (startCycle == 1)
      requires first <==> items == []
      modifies this, trbs
      ensures Valid() && View() == Pushed(r, items + [t])
    {
      hide Push, Pushed;
      PushNext(r, items, View(), t);
      PushTrbRaw(WithCycle(t, if first then startCycle == 0 else cycleState == 1));
    }

    method CommitFirstTrb(startIndex: nat, startCycle: nat)
      requires Valid() && startIndex < LINK_TRB_INDEX && startCycle < 2
      modifies trbs
      ensures Valid() && View() == Commit(old(View()), startIndex, startCycle == 1)
    {
      trbs[startIndex] := WithCycle(trbs[startIndex], startCycle == 1);
    }

    /**
      One command: a single TRB with its cycle bit already right, read also by a controller `c`
      still at the link TRB.
     */
    method QueueCommand(t: Trb, ghost c: Consumer)
      requires Valid() && Idle(View()) && IsPayload(t) && Behind(View(), c)
      modifies this, trbs
      ensures Valid() && Idle(View())
      ensures Reads(View().trbs, c, [t], Caught(View()))
    {
      hide LinkType;
      ghost var r := View();
      PushTrbRaw(WithCycle(t, cycleState == 1));
      DirectPush(r, t);
      LaggingRead(r, [t], c);
    }

    /** The ring is ready for a descriptor and the controller has read all earlier ones. */
    ghost predicate AtRest(hc: Controller)
      reads this, trbs, hc
    {
      Valid() && Idle(View()) && Behind(View(), hc.Position())
    }

    /** Writes a wave as one descriptor. */
    method PushWave(v: Wave, ghost c: Consumer)
      requires Valid() && Idle(View()) && Behind(View(), c)
      requires v.length > 0 && |Pieces(v.address, v.length)| <= MAX_TRBS_PER_WAVE
      modifies this, trbs
      ensures Valid() && Idle(View())
      ensures if c.index == LINK_TRB_INDEX && |WaveTrbs(v, 0)| == MAX_TRBS_PER_WAVE
        then !Ready(View().trbs, c) && !Reads(View().trbs, c, WaveTrbs(v, 0), Caught(View()))
        else Reads(View().trbs, c, WaveTrbs(v, 0), Caught(View()))
    {
      hide Idle, Reads, Push, Pushed, Commit, Chunk, Pieces, WaveTrb, LinkType;
      var startIndex, startCycle := enqueueIndex, cycleState;
      var transferred := 0;
      ghost var r, items := View(), [];
      WaveTrbsLength(v, 0);
      NoneYet(r);
      while transferred < v.length
        invariant Valid() && transferred <= v.length
        invariant items + WaveTrbs(v, transferred) == WaveTrbs(v, 0)
        invariant View() == Pushed(r, items)
        invariant items == [] <==> transferred == 0
        decreases v.length - transferred
      {
        var chunk := Chunk(v.address + transferred, v.length - transferred);
        var t := WaveTrb(v, transferred, chunk);
        PushItem(t, transferred == 0, startCycle, r, items);
        items := items + [t];
        transferred := transferred + chunk;
      }
      assert items == WaveTrbs(v, 0);
      CommitFirstTrb(startIndex, startCycle);
      LaggingRead(r, items, c);
    }

    /**
      Sends a wave and waits for its completion event, for which `outcome` stands; an event can
      only come once the controller has read the wave's last TRB, and a wave that times out is
      taken as unread. A wave of 63 TRBs always times out on a controller still at the link TRB.
     */
    method SubmitBulkWave(v: Wave, hc: Controller, outcome: Outcome, lags: bool) returns (r: Result<(nat, nat), ()>)
      requires AtRest(hc) && v.length > 0 && |Pieces(v.address, v.length)| <= MAX_TRBS_PER_WAVE
      modifies this, trbs, hc
      ensures Valid() && Idle(View())
      ensures r.Err? <==> outcome.Timeout? || (old(hc.index) == LINK_TRB_INDEX && |WaveTrbs(v, 0)| == MAX_TRBS_PER_WAVE)
      ensures r.Err? ==> hc.got == old(hc.got) && hc.index == old(hc.index)
      ensures r.Ok? ==> AtRest(hc) && hc.got == old(hc.got) + WaveTrbs(v, 0) && (!lags ==> hc.index != LINK_TRB_INDEX)
      ensures r.Ok? ==> r.value == (Moved(v.length, outcome), outcome.completion)
    {
      hide Idle, Reads, Ready, WaveTrbs, Pieces;
      WaveTrbsLength(v, 0);
      ghost var q := WaveTrbs(v, 0);
      PushWave(v, hc.Position());
      if outcome.Timeout? {
        return Err(());
      }
      var read := hc.Consume(this, lags, q);
      if !read {
        return Err(());
      }
      r := Ok((if outcome.residue <= v.length then v.length - outcome.residue else 0, outcome.completion));
    }

    /**
      Sends a buffer wave by wave; `outcomes` stands for the completion events, one per wave, and
      `lags` for the waves after which the controller does not follow the link TRB at once.
      `waves` are those the controller has read.
     */
    method SubmitBulkTransfer(address: nat, length: nat, maxPacket: nat, isIn: bool, dmaOffset: nat,
                              hc: Controller, outcomes: seq<Outcome>, lags: set<nat>)
      returns (r: Result<nat, ()>, ghost waves: seq<Piece>, ghost moved: seq<nat>)
      requires AtRest(hc)
      modifies this, trbs, hc
      ensures Valid() && Idle(View())
      ensures waves <= Waves(address, length) && hc.got == old(hc.got) + TrbsSent(waves, maxPacket, isIn, dmaOffset)
      ensures MovedBy(outcomes, waves, moved)
      ensures r.Ok? ==> r.value == Sum(moved) && (AllFull(waves, moved) || LastShort(waves, moved)) && AtRest(hc)
      ensures r.Ok? && AllFull(waves, moved) ==> waves == Waves(address, length) && r.value == length
      ensures r.Err? ==> Stopped(Waves(address, length), waves, moved, outcomes, hc.index == LINK_TRB_INDEX)
      ensures lags == {} && old(hc.index) != LINK_TRB_INDEX ==> hc.index != LINK_TRB_INDEX
    {
      hide Idle, Reads, WaveLength, Pieces, WaveTrbs, AtRest, Valid, Waves, Sum, View, AllFull, LastShort, TrbsSent,
        MovedBy, FullWave,
        OutcomeOf, Moved, Sent, Stopped, Failed;
      waves, moved := [], [];
      NoWaves(address, length, maxPacket, isIn, dmaOffset, outcomes);
      AtRestValid(hc);
      if length == 0 {
        return Ok(0), waves, moved;
      }
      var transferred, offset, n := 0, 0, 0;
      while offset < length
        invariant offset <= length && AtRest(hc)
        invariant Sent(address, length, offset, outcomes, waves, moved) && n == |moved| && transferred == offset
        invariant hc.got == old(hc.got) + TrbsSent(waves, maxPacket, isIn, dmaOffset)
        invariant lags == {} && old(hc.index) != LINK_TRB_INDEX ==> hc.index != LINK_TRB_INDEX
        decreases length - offset
      {
        var waveLength := MaxWaveLength(address + offset, length - offset);
        var v := Wave(address + offset, waveLength, maxPacket, isIn, dmaOffset);
        ghost var w := Piece(address + offset, waveLength);
        WavePieces(address + offset, length - offset, MAX_TRBS_PER_WAVE);
        SendNext(address, length, offset, outcomes, waves, moved, v, hc.index == LINK_TRB_INDEX);
        AddTrbs(waves, w, maxPacket, isIn, dmaOffset);
        var outcome := OutcomeOf(outcomes, n);
        var sent := SubmitBulkWave(v, hc, outcome, n in lags);
        if sent.Err? {
          return Err(()), waves, moved;
        }
        var (waveTransferred, completion) := sent.value;
        waves := waves + [w];
        AtRestValid(hc);
        FailedIs(outcome);
        if completion != COMP_SUCCESS && completion != COMP_SHORT_TX {
          SentFailed(address, length, waves, moved, outcomes, hc.index == LINK_TRB_INDEX);
          return Err(()), waves, moved;
        }
        moved := moved + [waveTransferred];
        transferred := transferred + waveTransferred;
        offset := offset + waveLength;
        n := n + 1;
        if waveTransferred < waveLength {
          return Ok(transferred), waves, moved;
        }
      }
      SentAll(address, length, outcomes, waves, moved);
      AtRestValid(hc);
      r := Ok(transferred);
    }

    lemma AtRestValid(hc: Controller)
      requires AtRest(hc)
      ensures Valid() && Idle(View())
    {
    }

    /** Set-up, optional data and status TRBs as one descriptor; a data stage may need a bounce buffer. */
    method ControlTransfer(setup: SetupPacket, bus: nat, length: nat, version: nat, bounce: Bounce, ghost c: Consumer)
      returns (r: Result<(), ()>)
      requires Valid() && Idle(View()) && Behind(View(), c)
      modifies this, trbs
      ensures Valid()
      ensures r.Err? <==> length > 0 && bounce == BounceFailed
      ensures r.Ok? ==> Idle(View()) && Reads(View().trbs, c, ControlTrbs(setup, bus, length, version), Caught(View()))
      ensures r.Err? ==> View() == Pushed(old(View()), [SetupTrb(setup, length, version)])
    {
      hide Idle, Reads, Push, Pushed, Commit, SetupTrb, DataTrb, StatusTrb, LinkType;
      var startIndex, startCycle := enqueueIndex, cycleState;
      ghost var r0, items := View(), [];
      NoneYet(r0);
      PushItem(SetupTrb(setup, length, version), true, startCycle, r0, items);
      items := items + [SetupTrb(setup, length, version)];
      assert items == [SetupTrb(setup, length, version)];
      if length > 0 {
        if bounce == BounceFailed {
          return Err(());
        }
        PushItem(DataTrb(setup, bus, length), false, startCycle, r0, items);
        items := items + [DataTrb(setup, bus, length)];
      }
      PushItem(StatusTrb(setup, length), false, startCycle, r0, items);
      items := items + [StatusTrb(setup, length)];
      assert items == ControlTrbs(setup, bus, length, version);
      CommitFirstTrb(startIndex, startCycle);
      ControlPayloads(setup, bus, length, version);
      LaggingRead(r0, items, c);
      r := Ok(());
    }
  }

  lemma NoneYet(r: Ring)
    requires Idle(r)
    ensures Shape(r) && Pushed(r, []) == r
  {
  }

  const COMP_SUCCESS: nat := 1
  const COMP_SHORT_TX: nat := 13

  /** What waiting for a wave's completion event gives. */
  datatype Outcome = Timeout | Event(completion: nat, residue: nat)

  function OutcomeOf(outcomes: seq<Outcome>, n: nat): Outcome {
    if n < |outcomes| then outcomes[n] else Timeout
  }

  /** The event reports neither success nor a short transfer. */
  predicate Failed(outcome: Outcome) {
    outcome.Event? && outcome.completion != COMP_SUCCESS && outcome.completion != COMP_SHORT_TX
  }

  /** Bytes of a wave that its event says were moved. */
  function Moved(length: nat, outcome: Outcome): nat
    requires outcome.Event?
  {
    if outcome.residue <= length then length - outcome.residue else 0
  }

  /** An event of success or short packet (codes 1 and 13) left `residue` bytes of the wave unmoved. */
  ghost predicate Accounts(length: nat, o: Outcome, moved: nat) {
    && o.Event? && (o.completion == 1 || o.completion == 13)
    && (if o.residue <= length then moved + o.residue == length else moved == 0)
  }

  /** The byte counts are those of the events, wave by wave. */
  ghost predicate MovedBy(outcomes: seq<Outcome>, waves: seq<Piece>, moved: seq<nat>) {
    && |moved| <= |waves| && |moved| <= |outcomes|
    && forall k :: 0 <= k < |moved| ==> Accounts(waves[k].length, outcomes[k], moved[k])
  }

  /** A wave that takes all 63 slots. */
  predicate FullWave(w: Piece) { |Pieces(w.address, w.length)| == MAX_TRBS_PER_WAVE }

  lemma FullWaveIs(v: Wave)
    ensures FullWave(Piece(v.address, v.length)) <==> |WaveTrbs(v, 0)| == MAX_TRBS_PER_WAVE
  {
    hide Pieces, WaveTrbs;
    WaveTrbsLength(v, 0);
  }

  /** Why a transfer of the waves `all` fails at the wave after `moved`: its event says so, or it was never read. */
  ghost predicate Stopped(all: seq<Piece>, waves: seq<Piece>, moved: seq<nat>, outcomes: seq<Outcome>, atLink: bool) {
    && |moved| < |all|
    && (if |moved| < |waves| then
          && |waves| == |moved| + 1 && |moved| < |outcomes| && outcomes[|moved|].Event?
          && outcomes[|moved|].completion != 1 && outcomes[|moved|].completion != 13
        else OutcomeOf(outcomes, |moved|).Timeout? || (atLink && FullWave(all[|moved|])))
  }

  /** Every wave moved all its bytes. */
  ghost predicate AllFull(waves: seq<Piece>, moved: seq<nat>) {
    |moved| == |waves| && forall k :: 0 <= k < |waves| ==> moved[k] == waves[k].length
  }

  /** Every wave but the last moved all its bytes, and the last one did not. */
  ghost predicate LastShort(waves: seq<Piece>, moved: seq<nat>) {
    var n := |waves| - 1;
    |moved| == |waves| > 0 && AllFull(waves[..n], moved[..n]) && moved[n] < waves[n].length
  }

  lemma AddMoved(outcomes: seq<Outcome>, waves: seq<Piece>, moved: seq<nat>, w: Piece, m: nat)
    requires AllFull(waves, moved) && MovedBy(outcomes, waves, moved)
    requires var o := OutcomeOf(outcomes, |moved|); o.Event? && !Failed(o) && m == Moved(w.length, o)
    ensures MovedBy(outcomes, waves + [w], moved + [m])
    ensures if m == w.length then AllFull(waves + [w], moved + [m])
            else LastShort(waves + [w], moved + [m]) && !AllFull(waves + [w], moved + [m])
  {
  }

  /** The waves of the first `offset` bytes have been sent and moved all of them. */
  ghost predicate Sent(address: nat, length: nat, offset: nat, outcomes: seq<Outcome>, waves: seq<Piece>,
                       moved: seq<nat>) {
    && offset <= length && waves + Waves(address + offset, length - offset) == Waves(address, length)
    && AllFull(waves, moved) && MovedBy(outcomes, waves, moved) && Sum(moved) == offset
  }

  /** What sending the next wave comes to, whatever its outcome. */
  lemma SendNext(address: nat, length: nat, offset: nat, outcomes: seq<Outcome>, waves: seq<Piece>, moved: seq<nat>,
                 v: Wave, atLink: bool)
    requires Sent(address, length, offset, outcomes, waves, moved) && offset < length && v.address == address + offset
    requires v.length == WaveLength(v.address, length - offset, MAX_TRBS_PER_WAVE)
    ensures var more, o, all := waves + [Piece(v.address, v.length)], OutcomeOf(outcomes, |moved|),
      Waves(address, length);
      && waves <= all && more <= all && MovedBy(outcomes, waves, moved) && MovedBy(outcomes, more, moved)
      && |more| == |moved| + 1 <= |all|
      && (o.Timeout? || (atLink && |WaveTrbs(v, 0)| == MAX_TRBS_PER_WAVE) ==>
          Stopped(all, waves, moved, outcomes, atLink))
      && (o.Event? ==> Moved(v.length, o) <= v.length)
      && (o.Event? && !Failed(o) ==>
            var m := Moved(v.length, o);
            && MovedBy(outcomes, more, moved + [m]) && Sum(moved + [m]) == offset + m
            && (if m == v.length then Sent(address, length, offset + v.length, outcomes, more, moved + [m])
                else LastShort(more, moved + [m]) && !AllFull(more, moved + [m])))
  {
    hide WaveLength, Pieces, WaveTrbs, Waves, Sum;
    var o, w := OutcomeOf(outcomes, |moved|), Piece(v.address, v.length);
    AddWave(waves, address, offset, length, v.length);
    FullWaveIs(v);
    if o.Event? && !Failed(o) {
      AddMoved(outcomes, waves, moved, w, Moved(v.length, o));
      SumAppend(moved, Moved(v.length, o));
    }
  }

  lemma FailedIs(outcome: Outcome)
    ensures Failed(outcome) <==>
      outcome.Event? && outcome.completion != COMP_SUCCESS && outcome.completion != COMP_SHORT_TX
  {
  }

  lemma SentFailed(address: nat, length: nat, waves: seq<Piece>, moved: seq<nat>, outcomes: seq<Outcome>, atLink: bool)
    requires |moved| + 1 == |waves| <= |Waves(address, length)| && Failed(OutcomeOf(outcomes, |moved|))
    ensures Stopped(Waves(address, length), waves, moved, outcomes, atLink)
  {
  }

  lemma SentAll(address: nat, length: nat, outcomes: seq<Outcome>, waves: seq<Piece>, moved: seq<nat>)
    requires Sent(address, length, length, outcomes, waves, moved)
    ensures waves == Waves(address, length) && AllFull(waves, moved) && MovedBy(outcomes, waves, moved)
      && Sum(moved) == length
  {
    assert Waves(address + length, 0) == [];
  }

  lemma NoWaves(address: nat, length: nat, maxPacket: nat, isIn: bool, dmaOffset: nat, outcomes: seq<Outcome>)
    ensures Sent(address, length, 0, outcomes, [], []) && Sum([]) == 0 && AllFull([], []) && MovedBy(outcomes, [], [])
    ensures TrbsSent([], maxPacket, isIn, dmaOffset) == [] && Waves(address, 0) == []
  {
  }

  lemma AddWave(waves: seq<Piece>, address: nat, offset: nat, length: nat, w: nat)
    requires offset < length && w == WaveLength(address + offset, length - offset, MAX_TRBS_PER_WAVE)
    requires waves + Waves(address + offset, length - offset) == Waves(address, length)
    ensures var more := waves + [Piece(address + offset, w)];
      && more + Waves(address + (offset + w), length - (offset + w)) == Waves(address, length)
          && more <= Waves(address, length)
      && Waves(address, length)[|waves|] == Piece(address + offset, w)
  {
  }

  function Sum(s: seq<nat>): nat {
    if s == [] then 0 else s[0] + Sum(s[1..])
  }

  lemma {:induction false} SumAppend(s: seq<nat>, x: nat)
    ensures Sum(s + [x]) == Sum(s) + x
  {
    if s == [] {
      assert s + [x] == [x];
    } else {
      SumAppend(s[1..], x);
      assert (s + [x])[1..] == s[1..] + [x];
    }
  }

  // ---------------------------------------------------------------- control transfers

  datatype SetupPacket = SetupPacket(requestType: bv8, request: nat, value: nat, index: nat, length: nat)

  datatype Bounce = BounceNotNeeded | BounceAllocated | BounceFailed

  const TRB_IDT: bv32 := 0x40
  const TRB_DIR_IN: bv32 := 0x1_0000

  predicate DirIn(setup: SetupPacket) { setup.requestType & 0x80 != 0 }

  function SetupTrb(setup: SetupPacket, length: nat, version: nat): Trb {
    Trb(setup.requestType as nat + setup.request * 0x100 + setup.value * 0x1_0000,
        setup.index + setup.length * 0x1_0000, 8,
        TrbType(2) | TRB_IDT | (if version >= 0x100 && length > 0 then if DirIn(setup) then 0x3_0000 else 0x2_0000
          else 0), false)
  }

  function DataTrb(setup: SetupPacket, bus: nat, length: nat): Trb {
    Trb(bus % 0x1_0000_0000, bus / 0x1_0000_0000 % 0x1_0000_0000, StatusWord(length, 0),
        TrbType(3) | (if DirIn(setup) then TRB_DIR_IN | TRB_ISP else 0), false)
  }

  function StatusTrb(setup: SetupPacket, length: nat): Trb {
    Trb(0, 0, 0, TrbType(4) | TRB_IOC | (if length == 0 || !DirIn(setup) then TRB_DIR_IN else 0), false)
  }

  /** The stages of a control transfer; a request without data has none in the middle. */
  function ControlTrbs(setup: SetupPacket, bus: nat, length: nat, version: nat): seq<Trb> {
    [SetupTrb(setup, length, version)] + (if length > 0 then [DataTrb(setup, bus, length)]
      else []) + [StatusTrb(setup, length)]
  }

  /** The type in bits 10 to 15 of a fourth word. */
  function TypeOf(t: Trb): bv32 { (t.control >> 10) & 0x3F }

  /** A Setup Stage TRB: immediate data that are the eight bytes of the packet, and the kind of data stage. */
  ghost predicate IsSetupStage(t: Trb, setup: SetupPacket, length: nat, version: nat) {
    && TypeOf(t) == 2 && t.control & 0x40 != 0 && t.control & 0xFFFC_03BF == 0 && t.status == 8
    && t.low % 0x100 == setup.requestType as nat && t.low / 0x100 % 0x100 == setup.request
    && t.low / 0x1_0000 == setup.value && t.high % 0x1_0000 == setup.index && t.high / 0x1_0000 == setup.length
    && (t.control >> 16) & 3 ==
        (if version < 0x100 || length == 0 then 0 else if setup.requestType & 0x80 == 0 then 2 else 3)
  }

  /** A Data Stage TRB for the buffer, in the direction the packet asks for. */
  ghost predicate IsDataStage(t: Trb, setup: SetupPacket, bus: nat, length: nat) {
    && TypeOf(t) == 3 && t.control & 0xFFFE_03FB == 0
    && (t.control & 0x1_0000 != 0 <==> setup.requestType & 0x80 != 0)
    && (t.control & 0x4 != 0 <==> setup.requestType & 0x80 != 0)
    && (bus < 0x1_0000_0000_0000_0000 ==> t.low + t.high * 0x1_0000_0000 == bus)
    && (length < 0x2_0000 ==> t.status == length)
  }

  /** A Status Stage TRB, opposite to the data stage if there is one and inward if not. */
  ghost predicate IsStatusStage(t: Trb, setup: SetupPacket, length: nat) {
    && TypeOf(t) == 4 && t.control & 0xFFFE_03DF == 0 && t.control & 0x20 != 0
    && t.low == 0 && t.high == 0 && t.status == 0
    && (t.control & 0x1_0000 != 0 <==> length == 0 || setup.requestType & 0x80 == 0)
  }

  /**
    The descriptor of a control transfer: set-up, data if there are any, status. Data go the way
    the request says, the status stage the other way, and only the status TRB asks for an interrupt.
   */
  lemma ControlStages(setup: SetupPacket, bus: nat, length: nat, version: nat)
    requires setup.request < 0x100 && setup.value < 0x1_0000 && setup.index < 0x1_0000 && setup.length < 0x1_0000
    ensures var ts := ControlTrbs(setup, bus, length, version);
      && |ts| == (if length == 0 then 2 else 3)
      && IsSetupStage(ts[0], setup, length, version)
      && (length > 0 ==> IsDataStage(ts[1], setup, bus, length))
      && IsStatusStage(ts[|ts| - 1], setup, length)
  {
    hide IsSetupStage, IsDataStage, IsStatusStage, SetupTrb, DataTrb, StatusTrb;
    SetupStage(setup, length, version);
    DataStage(setup, bus, length);
    StatusStage(setup, length);
  }

  lemma SetupStage(setup: SetupPacket, length: nat, version: nat)
    requires setup.request < 0x100 && setup.value < 0x1_0000 && setup.index < 0x1_0000 && setup.length < 0x1_0000
    ensures IsSetupStage(SetupTrb(setup, length, version), setup, length, version)
  {
    SetupWords(setup.requestType as nat, setup.request, setup.value);
    SetupWords(setup.index % 0x100, setup.index / 0x100, setup.length);
  }

  lemma SetupWords(a: nat, b: nat, c: nat)
    requires a < 0x100 && b < 0x100
    ensures var w := a + b * 0x100 + c * 0x1_0000;
      && w % 0x100 == a && w / 0x100 % 0x100 == b && w / 0x1_0000 == c && w % 0x1_0000 == a + b * 0x100
  {
  }

  lemma DataStage(setup: SetupPacket, bus: nat, length: nat)
    ensures IsDataStage(DataTrb(setup, bus, length), setup, bus, length)
  {
    AddressWords(bus);
  }

  lemma StatusStage(setup: SetupPacket, length: nat)
    ensures IsStatusStage(StatusTrb(setup, length), setup, length)
  {
  }

  lemma ControlPayloads(setup: SetupPacket, bus: nat, length: nat, version: nat)
    ensures forall t :: t in ControlTrbs(setup, bus, length, version) ==> IsPayload(t)
  {
    hide LinkType, StatusWord;
    StageTypes(setup, bus, length, version);
  }

  lemma StageTypes(setup: SetupPacket, bus: nat, length: nat, version: nat)
    ensures !LinkType(SetupTrb(setup, length, version).control)
    ensures !LinkType(DataTrb(setup, bus, length).control) && !LinkType(StatusTrb(setup, length).control)
  {
    hide StatusWord, DirIn;
  }

  /**
    A control transfer leaves the ring ready for the next one exactly when its bounce buffer
    could be had: after the failure the set-up TRB stays in the ring uncommitted, and the
    controller stays in front of it.
   */
  lemma AbandonedSetup(r: Ring, t: Trb)
    requires Idle(r) && IsPayload(t)
    ensures !Idle(Pushed(r, [t])) && Pushed(r, [t]).enqueue != r.enqueue && !Ready(Pushed(r, [t]).trbs, Caught(r))
  {
    hide IsLink, LinkType;
    PushedPending(r, [t]);
    NothingVisible(r, [t], Pushed(r, [t]));
    var r' := Pushed(r, [t]);
    assert r'.trbs[SlotOf(r.enqueue, 0)].cycle == !r.cycle;
  }

  /** Pushing one more TRB of a descriptor. */
  lemma {:induction false} PushNext(r: Ring, items: seq<Trb>, r1: Ring, t: Trb)
    requires Shape(r) && r1 == Pushed(r, items)
    ensures Pushed(r, items + [t]) == Push(r1, WithCycle(t, if items == [] then !r.cycle else r1.cycle))
  {
  }

  // ---------------------------------------------------------------- the event ring

  /** The cycle bit of event number `n`. */
  predicate EventCycle(n: nat) { n / TRBS_PER_SEGMENT % 2 == 0 }

  /** Slot `k` carries the cycle bit of the last event written to it. */
  ghost predicate EventSlots(trbs: seq<Trb>, n: nat)
    requires |trbs| == TRBS_PER_SEGMENT
  {
    forall k :: 0 <= k < TRBS_PER_SEGMENT ==> trbs[k].cycle == (EventCycle(n) == (k < n % TRBS_PER_SEGMENT))
  }

  lemma LapStep(n: nat)
    ensures (n + 1) % 64 == (if n % 64 == 63 then 0 else n % 64 + 1)
    ensures (n + 1) / 64 == (if n % 64 == 63 then n / 64 + 1 else n / 64)
  {
  }

  /** An event still to be read is the last one written to its slot. */
  lemma SlotCycle(c: nat, n: nat)
    requires c <= n <= c + TRBS_PER_SEGMENT
    ensures (EventCycle(n) == (c % TRBS_PER_SEGMENT < n % TRBS_PER_SEGMENT)) == EventCycle(c) <==> c < n
  {
  }

  lemma Alternate(q: nat)
    ensures ((q + 1) % 2 == 0) == !(q % 2 == 0)
  {
  }

  class EventRing {
    const trbs: array<Trb>
    var dequeueIndex: nat
    var cycleState: nat
    /** All events the controller has written, and how many of them the driver has acknowledged. */
    ghost var log: seq<Trb>
    ghost var acknowledged: nat

    ghost predicate Valid()
      reads this, trbs
    {
      && trbs.Length == TRBS_PER_SEGMENT
      && acknowledged <= |log| <= acknowledged + TRBS_PER_SEGMENT
      && dequeueIndex == acknowledged % TRBS_PER_SEGMENT
      && cycleState == (if EventCycle(acknowledged) then 1 else 0)
      && EventSlots(trbs[..], |log|)
      && forall n :: acknowledged <= n < |log| ==> trbs[n % TRBS_PER_SEGMENT] == log[n]
    }

    constructor ()
      ensures Valid() && log == [] && acknowledged == 0 && fresh(trbs)
    {
      trbs := new Trb[TRBS_PER_SEGMENT](_ => Trb(0, 0, 0, 0, false));
      dequeueIndex, cycleState, log, acknowledged := 0, 1, [], 0;
    }

    /** An event is reported exactly when one is waiting, and it is the oldest. */
    method PeekEvent() returns (r: Result<Trb, ()>)
      requires Valid()
      ensures r.Ok? <==> acknowledged < |log|
      ensures r.Ok? ==> r.value == log[acknowledged]
    {
      hide EventCycle;
      SlotCycle(acknowledged, |log|);
      var event := trbs[dequeueIndex];
      assert event == trbs[..][dequeueIndex];
      if event.cycle != (cycleState == 1) {
        return Err(());
      }
      r := Ok(event);
    }

    method AcknowledgeEvent()
      requires Valid() && acknowledged < |log|
      modifies this`dequeueIndex, this`cycleState, this`acknowledged
      ensures Valid() && acknowledged == old(acknowledged) + 1
    {
      LapStep(acknowledged);
      Alternate(acknowledged / 64);
      dequeueIndex := dequeueIndex + 1;
      if dequeueIndex == TRBS_PER_SEGMENT {
        dequeueIndex := 0;
        cycleState := 1 - cycleState;
      }
      acknowledged := acknowledged + 1;
    }

    /**
      The controller's side: it writes the next event with the cycle bit of its lap, never over
      one not yet acknowledged.
     */
    method ControllerWrites(n: nat, event: Trb)
      requires Valid() && n == |log| < acknowledged + TRBS_PER_SEGMENT && event.cycle == EventCycle(n)
      modifies trbs, this`log
      ensures Valid() && log == old(log) + [event] && acknowledged == old(acknowledged)
    {
      LapStep(n);
      Alternate(n / 64);
      trbs[n % TRBS_PER_SEGMENT] := event;
      log := log + [event];
      ghost var was := old(trbs[..]);
      assert trbs[..] == was[n % TRBS_PER_SEGMENT := event];
      OtherSlots(acknowledged, n);
    }
  }

  /** Events waiting at the same time are in different slots. */
  lemma OtherSlots(c: nat, n: nat)
    requires c <= n < c + TRBS_PER_SEGMENT
    ensures forall k :: c <= k < n ==> k % TRBS_PER_SEGMENT != n % TRBS_PER_SEGMENT
  {
  }
}
