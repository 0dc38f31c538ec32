/**
  Intrusive doubly linked lists over a pool of link pairs. The allocator threads
  its pool through two kinds of list at once (the address chain and the size-class
  free lists); both are instances of `Dll`.
 */
module IntrusiveList {
  import opened Common

  datatype Links = Links(prev: Option<nat>, next: Option<nat>)

  const UNLINKED := Links(None, None)

  ghost function PrevOf(l: seq<nat>, k: nat): Option<nat>
    requires k < |l|
  {
    if k == 0 then None else Some(l[k - 1])
  }

  ghost function NextOf(l: seq<nat>, k: nat): Option<nat>
    requires k < |l|
  {
    if k + 1 == |l| then None else Some(l[k + 1])
  }

  ghost function HeadOf(l: seq<nat>): Option<nat> {
    if l == [] then None else Some(l[0])
  }

  ghost predicate Distinct(l: seq<nat>) {
    forall i, j :: 0 <= i < j < |l| ==> l[i] != l[j]
  }

  ghost predicate Bounded(l: seq<nat>, n: nat) {
    forall k :: 0 <= k < |l| ==> l[k] < n
  }

  /** Element number `k` of `l` points at its neighbours. */
  ghost predicate NodeOk(m: seq<Links>, l: seq<nat>, k: nat) {
    k < |l| && l[k] < |m| && m[l[k]] == Links(PrevOf(l, k), NextOf(l, k))
  }

  /** Starting at `head` and following the links of `m` visits exactly `l`, in both directions. */
  ghost predicate Dll(m: seq<Links>, head: Option<nat>, l: seq<nat>) {
    && head == HeadOf(l)
    && Distinct(l)
    && Bounded(l, |m|)
    && (forall k :: 0 <= k < |l| ==> NodeOk(m, l, k))
  }

  ghost function RemoveAt(l: seq<nat>, k: nat): seq<nat>
    requires k < |l|
  {
    l[..k] + l[k + 1..]
  }

  ghost function InsertAt(l: seq<nat>, k: nat, id: nat): seq<nat>
    requires k <= |l|
  {
    l[..k] + [id] + l[k..]
  }

  ghost function SetNext(m: seq<Links>, at: Option<nat>, to: Option<nat>): (r: seq<Links>)
    ensures |r| == |m|
  {
    if at.Some? && at.value < |m| then m[at.value := m[at.value].(next := to)] else m
  }

  ghost function SetPrev(m: seq<Links>, at: Option<nat>, to: Option<nat>): (r: seq<Links>)
    ensures |r| == |m|
  {
    if at.Some? && at.value < |m| then m[at.value := m[at.value].(prev := to)] else m
  }

  /** Take `id` out: its neighbours are joined and its own links cleared. */
  ghost function Unlink(m: seq<Links>, id: nat): (r: seq<Links>)
    requires id < |m|
    ensures |r| == |m|
  {
    SetPrev(SetNext(m, m[id].prev, m[id].next), m[id].next, m[id].prev)[id := UNLINKED]
  }

  /** Put `id` between `prev` and `next`. */
  ghost function LinkBetween(m: seq<Links>, prev: Option<nat>, next: Option<nat>, id: nat): (r: seq<Links>)
    requires id < |m|
    ensures |r| == |m|
  {
    SetPrev(SetNext(m, prev, Some(id)), next, Some(id))[id := Links(prev, next)]
  }

  lemma DllFrame(m: seq<Links>, m': seq<Links>, head: Option<nat>, l: seq<nat>)
    requires Dll(m, head, l) && |m'| == |m|
    requires forall x :: x in l && 0 <= x < |m| ==> m'[x] == m[x]
    ensures Dll(m', head, l)
  {
    forall k | 0 <= k < |l|
      ensures NodeOk(m', l, k)
    {
      assert NodeOk(m, l, k);
    }
  }

  lemma DistinctRemove(l: seq<nat>, k: nat)
    requires Distinct(l) && k < |l|
    ensures Distinct(RemoveAt(l, k))
    ensures forall x :: x in RemoveAt(l, k) <==> x in l && x != l[k]
    ensures forall n: nat :: Bounded(l, n) ==> Bounded(RemoveAt(l, k), n)
  {
  }

  lemma DistinctInsert(l: seq<nat>, k: nat, id: nat)
    requires Distinct(l) && k <= |l| && id !in l
    ensures Distinct(InsertAt(l, k, id))
    ensures forall x :: x in InsertAt(l, k, id) <==> x in l || x == id
    ensures forall n: nat :: Bounded(l, n) && id < n ==> Bounded(InsertAt(l, k, id), n)
  {
  }

  /** Links at the neighbours of a removed element, and everywhere else. */
  lemma UnlinkAt(m: seq<Links>, l: seq<nat>, k: nat, i: nat)
    requires Distinct(l) && Bounded(l, |m|) && k < |l| && i < |l| && i != k
    requires NodeOk(m, l, k) && NodeOk(m, l, i)
    ensures Unlink(m, l[k])[l[i]] ==
      Links(if i == k + 1 then PrevOf(l, k) else PrevOf(l, i),
            if i + 1 == k then NextOf(l, k) else NextOf(l, i))
  {
  }

  lemma UnlinkDll(m: seq<Links>, head: Option<nat>, l: seq<nat>, k: nat)
    requires Dll(m, head, l) && k < |l|
    ensures Dll(Unlink(m, l[k]), if head == Some(l[k]) then m[l[k]].next else head, RemoveAt(l, k))
  {
    var r := RemoveAt(l, k);
    var m' := Unlink(m, l[k]);
    DistinctRemove(l, k);
    assert NodeOk(m, l, k);
    forall j | 0 <= j < |r|
      ensures NodeOk(m', r, j)
    {
      var i := if j < k then j else j + 1;
      assert r[j] == l[i] && NodeOk(m, l, i);
      UnlinkAt(m, l, k, i);
      assert PrevOf(r, j) == if i == k + 1 then PrevOf(l, k) else PrevOf(l, i);
      assert NextOf(r, j) == if i + 1 == k then NextOf(l, k) else NextOf(l, i);
    }
  }

  lemma UnlinkElsewhere(m: seq<Links>, l: seq<nat>, k: nat, x: nat)
    requires k < |l| && Bounded(l, |m|) && NodeOk(m, l, k)
    requires x < |m| && x !in l
    ensures Unlink(m, l[k])[x] == m[x]
  {
  }

  ghost function Before(l: seq<nat>, k: nat): Option<nat>
    requires k <= |l|
  {
    if k == 0 then None else Some(l[k - 1])
  }

  ghost function After(l: seq<nat>, k: nat): Option<nat>
    requires k <= |l|
  {
    if k == |l| then None else Some(l[k])
  }

  lemma LinkAt(m: seq<Links>, l: seq<nat>, k: nat, id: nat, i: nat)
    requires Distinct(l) && Bounded(l, |m|) && k <= |l| && i < |l| && id < |m| && id !in l
    requires NodeOk(m, l, i)
    ensures LinkBetween(m, Before(l, k), After(l, k), id)[l[i]] ==
      Links(if i == k then Some(id) else PrevOf(l, i), if i + 1 == k then Some(id) else NextOf(l, i))
  {
  }

  lemma LinkDll(m: seq<Links>, head: Option<nat>, l: seq<nat>, k: nat, id: nat)
    requires Dll(m, head, l) && k <= |l| && id < |m| && id !in l
    ensures Dll(LinkBetween(m, Before(l, k), After(l, k), id), if k == 0 then Some(id) else head, InsertAt(l, k, id))
  {
    var r := InsertAt(l, k, id);
    var m' := LinkBetween(m, Before(l, k), After(l, k), id);
    DistinctInsert(l, k, id);
    forall j | 0 <= j < |r|
      ensures NodeOk(m', r, j)
    {
      if j == k {
        assert PrevOf(r, j) == Before(l, k) && NextOf(r, j) == After(l, k);
      } else {
        var i := if j < k then j else j - 1;
        assert r[j] == l[i] && NodeOk(m, l, i);
        LinkAt(m, l, k, id, i);
        assert PrevOf(r, j) == if i == k then Some(id) else PrevOf(l, i);
        assert NextOf(r, j) == if i + 1 == k then Some(id) else NextOf(l, i);
      }
    }
  }

  lemma LinkElsewhere(m: seq<Links>, l: seq<nat>, k: nat, id: nat, x: nat)
    requires k <= |l| && id < |m| && x < |m| && x !in l && x != id
    ensures LinkBetween(m, Before(l, k), After(l, k), id)[x] == m[x]
  {
  }

  // ---------------------------------------------------------------- a family of lists

  /** The lists never share an element. */
  ghost predicate Disjoint(lists: seq<seq<nat>>) {
    forall o, o', x :: 0 <= o < |lists| && 0 <= o' < |lists| && x in lists[o] && x in lists[o'] ==> o == o'
  }

  ghost predicate Family(m: seq<Links>, heads: seq<Option<nat>>, lists: seq<seq<nat>>) {
    && |heads| == |lists|
    && (forall o :: 0 <= o < |lists| ==> Dll(m, heads[o], lists[o]))
    && Disjoint(lists)
  }

  /** `x` is on none of the lists. */
  ghost predicate Nowhere(lists: seq<seq<nat>>, x: nat) {
    forall o :: 0 <= o < |lists| ==> x !in lists[o]
  }

  lemma UnlinkFamily(m: seq<Links>, heads: seq<Option<nat>>, lists: seq<seq<nat>>, o: nat, k: nat)
    requires Family(m, heads, lists) && o < |lists| && k < |lists[o]|
    ensures var id := lists[o][k];
      && id < |m|
      && Family(Unlink(m, id),
                if heads[o] == Some(id) then heads[o := m[id].next] else heads,
                lists[o := RemoveAt(lists[o], k)])
      && Nowhere(lists[o := RemoveAt(lists[o], k)], id)
  {
    var l := lists[o];
    var id := l[k];
    UnlinkDll(m, heads[o], l, k);
    DistinctRemove(l, k);
    assert NodeOk(m, l, k) && id in l;
    forall o' | 0 <= o' < |lists| && o' != o
      ensures Dll(Unlink(m, id), heads[o'], lists[o'])
    {
      forall x: nat | x in lists[o'] && x < |m|
        ensures Unlink(m, id)[x] == m[x]
      {
        UnlinkElsewhere(m, l, k, x);
      }
      DllFrame(m, Unlink(m, id), heads[o'], lists[o']);
    }
  }

  lemma LinkFamily(m: seq<Links>, heads: seq<Option<nat>>, lists: seq<seq<nat>>, o: nat, k: nat, id: nat)
    requires Family(m, heads, lists) && o < |lists| && k <= |lists[o]| && id < |m|
    requires Nowhere(lists, id)
    ensures Family(
      LinkBetween(m, Before(lists[o], k), After(lists[o], k), id),
      if k == 0 then heads[o := Some(id)] else heads,
      lists[o := InsertAt(lists[o], k, id)])
  {
    var l := lists[o];
    var m' := LinkBetween(m, Before(l, k), After(l, k), id);
    LinkDll(m, heads[o], l, k, id);
    DistinctInsert(l, k, id);
    forall o' | 0 <= o' < |lists| && o' != o
      ensures Dll(m', heads[o'], lists[o'])
    {
      forall x: nat | x in lists[o'] && x < |m|
        ensures m'[x] == m[x]
      {
        LinkElsewhere(m, l, k, id, x);
      }
      DllFrame(m, m', heads[o'], lists[o']);
    }
  }

  /** Distinct ids below n number n exactly when every id below n is among them. */
  lemma {:induction false} FullPool(l: seq<nat>, n: nat)
    requires Distinct(l) && Bounded(l, n)
    ensures |l| <= n
    ensures |l| == n <==> forall x :: 0 <= x < n ==> x in l
  {
    if n == 0 {
      var head := HeadOf(l);
    } else if n - 1 in l {
      var k :| 0 <= k < |l| && l[k] == n - 1;
      var r := RemoveAt(l, k);
      DistinctRemove(l, k);
      assert forall j :: 0 <= j < |r| ==> r[j] in r;
      FullPool(r, n - 1);
    } else {
      assert forall k :: 0 <= k < |l| ==> l[k] in l;
      FullPool(l, n - 1);
    }
  }
}
