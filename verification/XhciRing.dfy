/**
  Transfer request block (TRB) rings (eXtensible Host Controller Interface specification,
  section 4.9): 63 slots and a link TRB, a cycle bit per slot, and a producer that makes a
  whole transfer descriptor visible by writing the cycle bit of its first TRB last.
 */
module XhciRing {
  import opened Common

  const TRBS_PER_SEGMENT: nat := 64
  const LINK_TRB_INDEX: nat := 63

  const LINK_TOGGLE: bv32 := 2
  const TRB_LINK: bv32 := 6

  /** Four 32-bit words, the last one without its bit 0, which is `cycle`. */
  datatype Trb = Trb(low: nat, high: nat, status: nat, control: bv32, cycle: bool)

  function TrbType(value: bv32): bv32 { value << 10 }

  /**
    The driver's operations on the whole fourth word touch only the cycle bit: `w` is the
    word with the bit clear and `w | 1` the word with the bit set.
   */
  lemma CycleBitOnly(w: bv32)
    requires w & 1 == 0
    ensures (w | 1) & 1 == 1 && (w | 1) | 1 == w | 1 && (w | 1) & 0xFFFF_FFFE == w && (w | 1) ^ 1 == w
    ensures w & 0xFFFF_FFFE == w && w ^ 1 == w | 1
  {
  }

  /** The TRB apart from its cycle bit. */
  function Payload(t: Trb): Trb { t.(cycle := false) }

  function WithCycle(t: Trb, cycle: bool): Trb { t.(cycle := cycle) }

  /** The type field of a fourth word says link TRB. */
  predicate LinkType(control: bv32) { control & 0xFC00 == 0x1800 }

  /** A TRB as the driver makes it up, before it gets its cycle bit. */
  predicate IsPayload(t: Trb) { !t.cycle && !LinkType(t.control) }

  // ---------------------------------------------------------------- the producer

  /** Ring memory with the driver's enqueue position and producer cycle state. */
  datatype Ring = Ring(trbs: seq<Trb>, enqueue: nat, cycle: bool)

  predicate Shape(r: Ring) {
    |r.trbs| == TRBS_PER_SEGMENT && r.enqueue < LINK_TRB_INDEX
  }

  /** Every slot before the enqueue position is a lap ahead of the others; the link TRB leads back to slot 0. */
  ghost predicate Idle(r: Ring) {
    && Shape(r)
    && (forall k :: 0 <= k < TRBS_PER_SEGMENT ==> r.trbs[k].cycle == (if k < r.enqueue then r.cycle else !r.cycle))
    && IsLink(r.trbs[LINK_TRB_INDEX]) && OnlyLink(r.trbs)
  }

  /** No slot before the last holds a link TRB. */
  ghost predicate OnlyLink(trbs: seq<Trb>) {
    forall k :: 0 <= k < LINK_TRB_INDEX && k < |trbs| ==> !LinkType(trbs[k].control)
  }

  /** A link TRB back to the start of the segment that makes the controller flip its cycle state. */
  predicate IsLink(t: Trb) { t.control == TrbType(TRB_LINK) | LINK_TOGGLE }

  function Push(r: Ring, t: Trb): (r': Ring)
    requires Shape(r)
    ensures Shape(r')
  {
    var trbs := r.trbs[r.enqueue := t];
    if r.enqueue + 1 == LINK_TRB_INDEX
    then Ring(trbs[LINK_TRB_INDEX := WithCycle(trbs[LINK_TRB_INDEX], !trbs[LINK_TRB_INDEX].cycle)], 0, !r.cycle)
    else Ring(trbs, r.enqueue + 1, r.cycle)
  }

  function Commit(r: Ring, start: nat, cycle: bool): (r': Ring)
    requires Shape(r) && start < LINK_TRB_INDEX
    ensures Shape(r')
  {
    r.(trbs := r.trbs[start := WithCycle(r.trbs[start], cycle)])
  }

  // ---------------------------------------------------------------- the consumer

  /** The controller's dequeue position and consumer cycle state. */
  datatype Consumer = Consumer(index: nat, cycle: bool)

  /** Whether the controller owns the TRB it is looking at. */
  predicate Ready(trbs: seq<Trb>, c: Consumer)
    requires |trbs| == TRBS_PER_SEGMENT && c.index < TRBS_PER_SEGMENT
  {
    trbs[c.index].cycle == c.cycle
  }

  /** Past a TRB; the link TRB leads to slot 0 and flips the cycle state. */
  function Next(c: Consumer): Consumer {
    if c.index == LINK_TRB_INDEX then Consumer(0, !c.cycle) else Consumer(c.index + 1, c.cycle)
  }

  /**
    What the controller makes of the TRB itself: a link TRB leads to slot 0, and flips the cycle
    state if its toggle flag is set.
   */
  function Follow(trbs: seq<Trb>, c: Consumer): Consumer
    requires c.index < |trbs|
  {
    var t := trbs[c.index];
    if LinkType(t.control) then Consumer(0, if t.control & LINK_TOGGLE != 0 then !c.cycle else c.cycle)
      else Consumer(c.index + 1, c.cycle)
  }

  /** On the driver's rings the type and toggle fields say just that. */
  lemma FollowsLink(r: Ring, c: Consumer)
    requires Idle(r) && c.index < TRBS_PER_SEGMENT
    ensures Follow(r.trbs, c) == Next(c)
  {
    LinkFields();
  }

  lemma LinkFields()
    ensures var w: bv32 := TrbType(TRB_LINK) | LINK_TOGGLE; w & 0xFC00 == 0x1800 && w & LINK_TOGGLE != 0
  {
  }

  /**
    Following cycle bits and the link TRB from `c`, a controller reads exactly the TRBs `q`
    and then stops at the position `end`.
   */
  ghost predicate Reads(trbs: seq<Trb>, c: Consumer, q: seq<Trb>, end: Consumer)
    requires |trbs| == TRBS_PER_SEGMENT && c.index < TRBS_PER_SEGMENT
    decreases |q|, if c.index == LINK_TRB_INDEX then 1 else 0
  {
    if c.index == LINK_TRB_INDEX then Ready(trbs, c) && Reads(trbs, Next(c), q, end)
    else if q == [] then c == end && !Ready(trbs, c)
    else Ready(trbs, c) && Payload(trbs[c.index]) == q[0] && Reads(trbs, Next(c), q[1..], end)
  }

  /** Where the controller is once it has caught up with the driver. */
  function Caught(r: Ring): Consumer { Consumer(r.enqueue, r.cycle) }

  // ---------------------------------------------------------------- a transfer descriptor

  /** The slot of the TRB `i` places after slot `s`. */
  function SlotOf(s: nat, i: nat): nat {
    if s + i < LINK_TRB_INDEX then s + i else s + i - LINK_TRB_INDEX
  }

  /** The producer cycle state when that TRB is written. */
  function LapOf(s: nat, cycle: bool, i: nat): bool {
    if s + i < LINK_TRB_INDEX then cycle else !cycle
  }

  /** The TRBs of a descriptor as pushed: the first with the wrong cycle bit, the others with the right one. */
  function Pushed(r: Ring, items: seq<Trb>): (r': Ring)
    requires Shape(r)
    ensures Shape(r')
  {
    if items == [] then r
    else
      var n := |items| - 1;
      var r1 := Pushed(r, items[..n]);
      Push(r1, WithCycle(items[n], if n == 0 then !r.cycle else r1.cycle))
  }

  /** The ring between the first push of a descriptor and its commit. */
  ghost predicate Pending(r: Ring, items: seq<Trb>, r': Ring) {
    && Idle(r) && Shape(r') && |items| <= LINK_TRB_INDEX
    && r'.enqueue == SlotOf(r.enqueue, |items|) && r'.cycle == LapOf(r.enqueue, r.cycle, |items|)
    && (forall i :: 0 <= i < |items| ==>
          r'.trbs[SlotOf(r.enqueue, i)] ==
            WithCycle(items[i], if i == 0 then !r.cycle else LapOf(r.enqueue, r.cycle, i)))
    && (forall k :: 0 <= k < LINK_TRB_INDEX && InUse(r.enqueue, |items|, k) == false ==> r'.trbs[k] == r.trbs[k])
    && IsLink(r'.trbs[LINK_TRB_INDEX]) && OnlyLink(r'.trbs)
    && r'.trbs[LINK_TRB_INDEX].cycle == !r'.cycle
  }

  /** Slot `k` holds one of the `n` TRBs from slot `s` on. */
  predicate InUse(s: nat, n: nat, k: nat) {
    s <= k < s + n || k < s + n - LINK_TRB_INDEX
  }

  lemma {:induction false} PushedPending(r: Ring, items: seq<Trb>)
    requires Idle(r) && |items| <= LINK_TRB_INDEX && forall t :: t in items ==> IsPayload(t)
    ensures Pending(r, items, Pushed(r, items))
  {
    hide IsLink, LinkType;
    if items != [] {
      var n := |items| - 1;
      PushedPending(r, items[..n]);
      PushOne(r, items[..n], Pushed(r, items[..n]), items[n]);
      assert items == items[..n] + [items[n]];
    }
  }

  lemma PushOne(r: Ring, items: seq<Trb>, r1: Ring, t: Trb)
    requires Pending(r, items, r1) && |items| < LINK_TRB_INDEX && IsPayload(t)
    ensures var n := |items|;
      Pending(r, items + [t], Push(r1, WithCycle(t, if n == 0 then !r.cycle else r1.cycle)))
  {
    hide LinkType;
  }

  /** While a descriptor is being built, a controller that had caught up sees nothing new. */
  lemma NothingVisible(r: Ring, items: seq<Trb>, r': Ring)
    requires Pending(r, items, r') && forall t :: t in items ==> IsPayload(t)
    ensures !Ready(r'.trbs, Caught(r))
  {
    hide IsLink, LinkType;
    if items != [] {
      assert SlotOf(r.enqueue, 0) == r.enqueue;
    }
  }

  /** A committed descriptor, slot by slot. */
  lemma CommittedSlots(r: Ring, items: seq<Trb>, r1: Ring)
    requires Pending(r, items, r1) && items != [] && forall t :: t in items ==> IsPayload(t)
    ensures var r2 := Commit(r1, r.enqueue, r.cycle);
      && Idle(r2)
      && forall i :: 0 <= i < |items| ==>
           r2.trbs[SlotOf(r.enqueue, i)].cycle == LapOf(r.enqueue, r.cycle, i)
             && Payload(r2.trbs[SlotOf(r.enqueue, i)]) == items[i]
  {
    hide IsLink, LinkType;
    var s, r2 := r.enqueue, Commit(r1, r.enqueue, r.cycle);
    assert SlotOf(s, 0) == s;
    forall i | 0 <= i < |items|
      ensures r2.trbs[SlotOf(s, i)].cycle == LapOf(s, r.cycle, i) && Payload(r2.trbs[SlotOf(s, i)]) == items[i]
    {
      assert items[i] in items;
    }
    assert IsLink(r2.trbs[LINK_TRB_INDEX]) && OnlyLink(r2.trbs);
    forall k | 0 <= k < TRBS_PER_SEGMENT
      ensures r2.trbs[k].cycle == (if k < r2.enqueue then r2.cycle else !r2.cycle)
    {
      assert k < LINK_TRB_INDEX && s <= k < s + |items| ==> SlotOf(s, k - s) == k;
      assert k < s + |items| - LINK_TRB_INDEX ==> SlotOf(s, k + LINK_TRB_INDEX - s) == k;
    }
  }

  /** The controller reads the rest of a committed descriptor, from TRB `i` on. */
  lemma {:induction false} ReadsFrom(r: Ring, items: seq<Trb>, r2: Ring, i: nat)
    requires Idle(r) && Idle(r2) && i <= |items| <= LINK_TRB_INDEX
    requires r2.enqueue == SlotOf(r.enqueue, |items|) && r2.cycle == LapOf(r.enqueue, r.cycle, |items|)
    requires forall j :: 0 <= j < |items| ==>
      r2.trbs[SlotOf(r.enqueue, j)].cycle == LapOf(r.enqueue, r.cycle, j)
        && Payload(r2.trbs[SlotOf(r.enqueue, j)]) == items[j]
    ensures Reads(r2.trbs, Consumer(SlotOf(r.enqueue, i), LapOf(r.enqueue, r.cycle, i)), items[i..], Caught(r2))
    decreases |items| - i
  {
    hide IsLink, LinkType;
    var s := r.enqueue;
    var c := Consumer(SlotOf(s, i), LapOf(s, r.cycle, i));
    if i < |items| {
      ReadsFrom(r, items, r2, i + 1);
      assert items[i..][1..] == items[i + 1..];
      if s + i + 1 == LINK_TRB_INDEX {
        assert Next(Next(c)) == Consumer(SlotOf(s, i + 1), LapOf(s, r.cycle, i + 1));
      } else {
        assert Next(c) == Consumer(SlotOf(s, i + 1), LapOf(s, r.cycle, i + 1));
      }
    }
  }

  /**
    A descriptor of at most 63 TRBs on a drained ring: once committed, the controller reads
    exactly its TRBs, in order, and stops where the driver will write next.
   */
  lemma DescriptorIsRead(r: Ring, items: seq<Trb>)
    requires Idle(r) && 0 < |items| <= LINK_TRB_INDEX && forall t :: t in items ==> IsPayload(t)
    ensures var r2 := Commit(Pushed(r, items), r.enqueue, r.cycle);
      Idle(r2) && Reads(r2.trbs, Caught(r), items, Caught(r2))
  {
    hide Reads, Pushed, IsLink, LinkType;
    var r1 := Pushed(r, items);
    PushedPending(r, items);
    CommittedSlots(r, items, r1);
    ReadsFrom(r, items, Commit(r1, r.enqueue, r.cycle), 0);
    assert items[0..] == items;
  }

  // ---------------------------------------------------------------- a controller that lags behind

  /** Having read slot 62, the controller may rest in front of the link TRB until there is something to fetch. */
  function AtLink(r: Ring): Consumer { Consumer(LINK_TRB_INDEX, !r.cycle) }

  /**
    Everything committed has been read: the controller is at the enqueue position, or at the
    link TRB in front of it.
   */
  predicate Behind(r: Ring, c: Consumer) {
    c == Caught(r) || (r.enqueue == 0 && c == AtLink(r))
  }

  /** That is just what it means to have nothing left to read. */
  lemma BehindIs(r: Ring, c: Consumer)
    requires Idle(r) && c.index < TRBS_PER_SEGMENT
    ensures Reads(r.trbs, c, [], Caught(r)) <==> Behind(r, c)
  {
    hide IsLink, LinkType;
  }

  /** While a descriptor is being built the controller can at most move past the link TRB. */
  lemma LaggingSees(r: Ring, items: seq<Trb>, r': Ring, c: Consumer)
    requires Pending(r, items, r') && Behind(r, c) && forall t :: t in items ==> IsPayload(t)
    ensures Ready(r'.trbs, c) <==> c == AtLink(r) && |items| < LINK_TRB_INDEX
    ensures c == AtLink(r) ==> Next(c) == Caught(r)
  {
    hide IsLink, LinkType;
    NothingVisible(r, items, r');
  }

  /**
    The driver waits for the last data TRB of a descriptor only. From a controller that still
    rests at the link TRB the next descriptor is read exactly when it has fewer than 63 TRBs;
    the 63rd would flip the cycle bit of the link back before it was ever followed.
   */
  lemma LaggingRead(r: Ring, items: seq<Trb>, c: Consumer)
    requires Idle(r) && 0 < |items| <= LINK_TRB_INDEX && (forall t :: t in items ==> IsPayload(t)) && Behind(r, c)
    ensures var r2 := Commit(Pushed(r, items), r.enqueue, r.cycle);
      && Idle(r2)
      && (Reads(r2.trbs, c, items, Caught(r2)) <==> c == Caught(r) || |items| < LINK_TRB_INDEX)
      && (c == Caught(r) || |items| < LINK_TRB_INDEX
          || (!Ready(r2.trbs, c) && r2.enqueue == 0 && c == Consumer(LINK_TRB_INDEX, r2.cycle)))
  {
    hide Pushed, IsLink, LinkType;
    PushedPending(r, items);
    DescriptorIsRead(r, items);
  }

  /**
    Two full descriptors one after the other from slot 0: if the controller rests at the link
    TRB after the first, the second is lost.
   */
  lemma FullAfterFull(r: Ring, items: seq<Trb>, more: seq<Trb>)
    requires Idle(r) && r.enqueue == 0 && |items| == |more| == LINK_TRB_INDEX
    requires (forall t :: t in items ==> IsPayload(t)) && (forall t :: t in more ==> IsPayload(t))
    ensures var r1 := Commit(Pushed(r, items), r.enqueue, r.cycle);
      var r2 := Commit(Pushed(r1, more), r1.enqueue, r1.cycle);
      && Reads(r1.trbs, Caught(r), items, Caught(r1)) && Behind(r1, AtLink(r1)) && Ready(r1.trbs, AtLink(r1))
      && !Ready(r2.trbs, AtLink(r1)) && !Reads(r2.trbs, AtLink(r1), more, Caught(r2))
  {
    hide Pushed, IsLink, LinkType, Reads;
    var r1 := Commit(Pushed(r, items), r.enqueue, r.cycle);
    PushedPending(r, items);
    DescriptorIsRead(r, items);
    LaggingRead(r1, more, AtLink(r1));
  }

  /** Pushing a single TRB with the right cycle bit is a descriptor built and committed at once. */
  lemma DirectPush(r: Ring, t: Trb)
    requires Shape(r)
    ensures Push(r, WithCycle(t, r.cycle)) == Commit(Pushed(r, [t]), r.enqueue, r.cycle)
  {
    hide IsLink, LinkType;
    assert Pushed(r, [t][..0]) == r;
    assert Push(r, WithCycle(t, r.cycle)).trbs == Commit(Pushed(r, [t]), r.enqueue, r.cycle).trbs;
  }
}
