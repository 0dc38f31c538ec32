/**
  List Registers of the virtual GIC (GICv2 architecture specification IHI 0048B, section
  5.3): what one holds, how its word is packed, and where an interrupt is put.
 */
module VgicLists {
  import opened Common

  // ---------------------------------------------------------------- the 32-bit word

  /**
    Virtual ID in bits 0-9, physical ID in bits 10-19, EOI in bit 19, priority in bits 23-27,
    state in bits 28-29, group in bit 30, HW in bit 31.
   */
  function CreateListRegisterEntry(intId: bv32, group: bv32, priority: bv32, physicalIntId: Option<bv32>): bv32 {
    var entry := 0x1000_0000 | (group << 30) | (((priority >> 3) & 0x1F) << 23) | (intId & 0x3FF);
    match physicalIntId
    case Some(p) => entry | 0x8000_0000 | ((p << 10) & 0xF_FC00)
    case None => entry | 0x8_0000
  }

  /** The hardware reads back every field of an entry that ends with a maintenance interrupt. */
  lemma SoftwareEntry(intId: bv32, group: bv32, priority: bv32)
    requires intId < 1024 && group < 2 && priority < 256
    ensures var e := CreateListRegisterEntry(intId, group, priority, None);
      && e & 0x3FF == intId && (e >> 28) & 3 == 1 && (e >> 30) & 1 == group && (e >> 23) & 0x1F == priority >> 3
      && (e >> 31) == 0 && (e >> 19) & 1 == 1
  {
  }

  /** The hardware reads back every field of an entry that ends with a physical deactivation. */
  lemma HardwareEntry(intId: bv32, group: bv32, priority: bv32, p: bv32)
    requires intId < 1024 && group < 2 && priority < 256 && p < 1024
    ensures var e := CreateListRegisterEntry(intId, group, priority, Some(p));
      && e & 0x3FF == intId && (e >> 28) & 3 == 1 && (e >> 30) & 1 == group && (e >> 23) & 0x1F == priority >> 3
      && (e >> 31) == 1 && (e >> 10) & 0x3FF == p
  {
  }

  // ---------------------------------------------------------------- what a List Register holds

  /**
    Who hears of the end of the interrupt: the hypervisor, through the EOI bit, or the physical
    GIC, through the HW bit.
   */
  datatype Ending = NoEnding | Eoi | Hardware(physicalId: nat)

  datatype Lr = Lr(intId: nat, group: bool, priority: nat, pending: bool, active: bool, ending: Ending)

  const CLEARED := Lr(0, false, 0, false, false, NoEnding)

  /** The state field is not inactive. */
  predicate Occupied(lr: Lr) { lr.pending || lr.active }

  /** The hardware reports this List Register in GICH_EISR. */
  predicate Ended(lr: Lr) { !Occupied(lr) && lr.ending == Eoi }

  predicate Holds(lrs: seq<Lr>, intId: nat) {
    exists i :: 0 <= i < |lrs| && Occupied(lrs[i]) && lrs[i].intId == intId
  }

  predicate Full(lrs: seq<Lr>) {
    forall i :: 0 <= i < |lrs| ==> Occupied(lrs[i])
  }

  /** No interrupt is in two List Registers. */
  ghost predicate NoDuplicates(lrs: seq<Lr>) {
    forall i, j :: 0 <= i < j < |lrs| && Occupied(lrs[i]) && Occupied(lrs[j]) ==> lrs[i].intId != lrs[j].intId
  }

  // ---------------------------------------------------------------- injecting an interrupt

  /** The interrupt has a List Register already, or there is a free one. */
  predicate Fits(lrs: seq<Lr>, intId: nat) {
    Holds(lrs, intId) || !Full(lrs)
  }

  /** The first List Register of an interrupt, from number `i` on. */
  function HeldAt(lrs: seq<Lr>, intId: nat, i: nat): (k: nat)
    requires i <= |lrs|
    ensures i <= k <= |lrs|
    ensures k < |lrs| ==> Occupied(lrs[k]) && lrs[k].intId == intId
    ensures forall j :: i <= j < k ==> !(Occupied(lrs[j]) && lrs[j].intId == intId)
    decreases |lrs| - i
  {
    if i == |lrs| || (Occupied(lrs[i]) && lrs[i].intId == intId) then i else HeldAt(lrs, intId, i + 1)
  }

  /** The first free List Register from number `i` on. */
  function FreeAt(lrs: seq<Lr>, i: nat): (k: nat)
    requires i <= |lrs|
    ensures i <= k <= |lrs|
    ensures k < |lrs| ==> !Occupied(lrs[k])
    ensures forall j :: i <= j < k ==> Occupied(lrs[j])
    decreases |lrs| - i
  {
    if i == |lrs| || !Occupied(lrs[i]) then i else FreeAt(lrs, i + 1)
  }

  /** The List Registers after an injection; unchanged if there is no room. */
  function Inject(lrs: seq<Lr>, e: Lr): seq<Lr> {
    var h, f := HeldAt(lrs, e.intId, 0), FreeAt(lrs, 0);
    if h < |lrs| then lrs[h := lrs[h].(pending := true)]
    else if f < |lrs| then lrs[f := e]
    else lrs
  }

  /** Injection succeeds exactly when there is room, and then the interrupt is placed. */
  lemma InjectPlaces(lrs: seq<Lr>, e: Lr)
    ensures Fits(lrs, e.intId) ==> Placed(lrs, e, Inject(lrs, e))
    ensures !Fits(lrs, e.intId) ==> Inject(lrs, e) == lrs
    ensures Fits(lrs, e.intId) <==> HeldAt(lrs, e.intId, 0) < |lrs| || FreeAt(lrs, 0) < |lrs|
  {
    var h, f := HeldAt(lrs, e.intId, 0), FreeAt(lrs, 0);
    if h < |lrs| {
      assert Holds(lrs, e.intId) && PlacedAt(lrs, e, Inject(lrs, e), h);
    } else if f < |lrs| {
      assert !Holds(lrs, e.intId) && PlacedAt(lrs, e, Inject(lrs, e), f);
    }
  }

  /**
    What a successful injection of `e` may do: mark the one entry of that interrupt pending, or
    fill a free register.
   */
  ghost predicate Placed(lrs: seq<Lr>, e: Lr, lrs': seq<Lr>) {
    && |lrs'| == |lrs|
    && exists i :: 0 <= i < |lrs| && PlacedAt(lrs, e, lrs', i)
  }

  ghost predicate PlacedAt(lrs: seq<Lr>, e: Lr, lrs': seq<Lr>, i: nat)
    requires i < |lrs|
  {
    if Holds(lrs, e.intId) then
      Occupied(lrs[i]) && lrs[i].intId == e.intId && lrs' == lrs[i := lrs[i].(pending := true)]
    else
      !Occupied(lrs[i]) && (forall j :: 0 <= j < i ==> Occupied(lrs[j])) && lrs' == lrs[i := e]
  }

  /** `lrs'` still has every interrupt of `lrs`, with its priority and ending, pending if it was. */
  ghost predicate Keeps(lrs: seq<Lr>, lrs': seq<Lr>) {
    && |lrs'| == |lrs|
    && forall i :: 0 <= i < |lrs| && Occupied(lrs[i]) ==> lrs'[i] == lrs[i] || lrs'[i] == lrs[i].(pending := true)
  }

  lemma PlacedKeeps(lrs: seq<Lr>, e: Lr, lrs': seq<Lr>)
    requires Placed(lrs, e, lrs') && NoDuplicates(lrs) && e.pending
    ensures NoDuplicates(lrs') && Keeps(lrs, lrs')
    ensures Holds(lrs', e.intId) && exists i :: 0 <= i < |lrs'| && lrs'[i].pending && lrs'[i].intId == e.intId
    ensures forall id :: Holds(lrs', id) <==> Holds(lrs, id) || id == e.intId
  {
    var i :| 0 <= i < |lrs| && PlacedAt(lrs, e, lrs', i);
    assert lrs'[i].pending && lrs'[i].intId == e.intId && Occupied(lrs'[i]);
    forall id
      ensures Holds(lrs', id) <==> Holds(lrs, id) || id == e.intId
    {
      PlacedHolds(lrs, e, lrs', i, id);
    }
    forall a, b | 0 <= a < b < |lrs'| && Occupied(lrs'[a]) && Occupied(lrs'[b])
      ensures lrs'[a].intId != lrs'[b].intId
    {
      assert a != i ==> lrs'[a] == lrs[a];
      assert b != i ==> lrs'[b] == lrs[b];
    }
  }

  lemma PlacedHolds(lrs: seq<Lr>, e: Lr, lrs': seq<Lr>, i: nat, id: nat)
    requires i < |lrs| && |lrs'| == |lrs| && PlacedAt(lrs, e, lrs', i) && e.pending
    ensures Holds(lrs', id) <==> Holds(lrs, id) || id == e.intId
  {
    assert lrs'[i].intId == e.intId && Occupied(lrs'[i]);
    forall k | 0 <= k < |lrs| && Occupied(lrs[k]) && lrs[k].intId == id
      ensures Holds(lrs', id)
    {
      assert Occupied(lrs'[k]) && lrs'[k].intId == id;
    }
    forall k | 0 <= k < |lrs| && k != i && Occupied(lrs'[k]) && lrs'[k].intId == id
      ensures Holds(lrs, id)
    {
      assert Occupied(lrs[k]) && lrs[k].intId == id;
    }
  }

  lemma KeepsHolds(lrs: seq<Lr>, lrs': seq<Lr>, id: nat)
    requires Keeps(lrs, lrs') && Holds(lrs, id)
    ensures Holds(lrs', id)
  {
  }

  lemma KeepsTrans(a: seq<Lr>, b: seq<Lr>, c: seq<Lr>)
    requires Keeps(a, b) && Keeps(b, c)
    ensures Keeps(a, c)
  {
  }

  lemma KeepsFull(lrs: seq<Lr>, lrs': seq<Lr>)
    requires Keeps(lrs, lrs') && Full(lrs)
    ensures Full(lrs')
  {
  }

  // ---------------------------------------------------------------- the registers of one CPU

  class ListRegisters {
    const lr: array<Lr>
    var overflows: nat

    constructor (supported: nat)
      ensures lr.Length == supported && fresh(lr) && NoDuplicates(lr[..]) && overflows == 0
    {
      lr := new Lr[supported](_ => CLEARED);
      overflows := 0;
    }

    /**
      Puts an interrupt in a List Register: its own if it has one, else the first free one.
      It fails exactly when the interrupt has none and none is free; then nothing changes
      but the overflow count.
     */
    method AddVirtualInterrupt(entry: Lr) returns (added: bool)
      modifies this`overflows, lr
      ensures added <==> Fits(old(lr[..]), entry.intId)
      ensures lr[..] == Inject(old(lr[..]), entry)
      ensures overflows == old(overflows) + (if added then 0 else 1)
    {
      InjectPlaces(lr[..], entry);
      ghost var was := lr[..];
      var i := 0;
      while i < lr.Length
        invariant i <= lr.Length && lr[..] == was
        invariant HeldAt(was, entry.intId, 0) == HeldAt(was, entry.intId, i)
      {
        if Occupied(lr[i]) && lr[i].intId == entry.intId {
          assert HeldAt(was, entry.intId, i) == i;
          lr[i] := lr[i].(pending := true);
          return true;
        }
        i := i + 1;
      }
      i := 0;
      while i < lr.Length
        invariant i <= lr.Length && lr[..] == was
        invariant FreeAt(was, 0) == FreeAt(was, i)
      {
        if !Occupied(lr[i]) {
          assert FreeAt(was, i) == i;
          lr[i] := entry;
          return true;
        }
        i := i + 1;
      }
      overflows := overflows + 1;
      added := false;
    }
  }
}
