/**
  Freeing a range that is partly free. The code goes on with a part of the range, once, and
  adds the size of that part to the free size; here is when the two fit together.
 */
module FreeOverlap {
  import opened AllocatorState
  import opened FreeRanges

  /** What the entry found for a..b makes the code do: refuse, start again with another range, or put the range in. */
  datatype Move = Refuse | Again(start: nat, end: int) | PutIn

  ghost function MoveFor(rs: seq<Range>, a: nat, b: nat): Move
    requires rs != [] && SearchIndex(rs, a) < |rs|
  {
    var e := SearchIndex(rs, a);
    if rs[e].start <= a && b <= rs[e].end then Refuse
    else if rs[e].end >= a && e > 0 then Again(rs[e].end + 1, b + 2)
    else if rs[e].end == b then Again(a, b - Size(rs[e]))
    else if e + 1 < |rs| && rs[e + 1].start <= a then if b <= rs[e + 1].end then Refuse else Again(rs[e + 1].end + 1, b)
    else PutIn
  }

  /** The range the code ends up with. */
  ghost function Settled(rs: seq<Range>, a: nat, b: nat): (nat, int)
    requires rs != [] && SearchIndex(rs, a) < |rs|
  {
    match MoveFor(rs, a, b)
    case Again(c, d) => (c, d)
    case _ => (a, b)
  }

  /** What is refused is what is free already. */
  lemma RefusedIsFree(rs: seq<Range>, a: nat, b: nat)
    requires Coalesced(rs) && rs != [] && a <= b && SearchIndex(rs, a) < |rs|
    ensures MoveFor(rs, a, b).Refuse? <==> Contains(rs, a, b)
  {
    hide Coalesced, SearchIndex;
    if Contains(rs, a, b) { SearchContained(rs, a, b); }
  }

  /** Where the search stops. */
  lemma SearchStops(rs: seq<Range>, a: nat)
    requires Coalesced(rs) && rs != []
    ensures var e := SearchIndex(rs, a);
      && e < |rs| && (e > 0 ==> rs[e].start < a)
      && (e + 1 < |rs| && rs[e + 1].start <= a ==>
          a <= rs[e + 1].end && (rs[e + 1].start == a || (e + 2 == |rs| && a < rs[e + 1].end)))
  {
  }

  lemma NextByte(rs: seq<Range>, i: nat)
    requires Coalesced(rs) && i < |rs|
    ensures SearchIndex(rs, rs[i].end + 1) == i && (i + 1 < |rs| ==> rs[i + 1].start > rs[i].end + 1)
  {
    BelowIs(rs, rs[i].end + 1, i + 1);
  }

  /** The code starts again at most once. */
  lemma SettledIsPutIn(rs: seq<Range>, a: nat, b: nat)
    requires Coalesced(rs) && rs != [] && a <= b && SearchIndex(rs, a) < |rs| && !MoveFor(rs, a, b).Refuse?
    ensures var (c, d) := Settled(rs, a, b); 0 <= c <= d && SearchIndex(rs, c) < |rs| && MoveFor(rs, c, d).PutIn?
  {
    hide Coalesced, SearchIndex, DisjointFrom;
    var e := SearchIndex(rs, a);
    SearchStops(rs, a);
    if MoveFor(rs, a, b).Again? {
      if rs[e].end >= a && e > 0 {
        NextByte(rs, e);
      } else if rs[e].end == b {
        BeforeFirst(rs, a);
        Proper(rs, 0);
      } else {
        NextByte(rs, e + 1);
      }
    }
  }

  lemma Proper(rs: seq<Range>, i: nat)
    requires Coalesced(rs) && i < |rs|
    ensures rs[i].start <= rs[i].end
  {
  }

  // ---------------------------------------------------------------- counting bytes

  /** Numbers below `n` with a property. */
  ghost function Count(p: int -> bool, n: nat): nat {
    if n == 0 then 0 else Count(p, n - 1) + (if p(n - 1) then 1 else 0)
  }

  lemma {:induction false} CountSame(p: int -> bool, q: int -> bool, n: nat)
    requires forall x :: 0 <= x < n ==> p(x) == q(x)
    ensures Count(p, n) == Count(q, n)
  {
    if n > 0 { CountSame(p, q, n - 1); }
  }

  lemma {:induction false} CountAll(p: int -> bool, m: nat, n: nat)
    requires m <= n && forall x :: m <= x < n ==> p(x)
    ensures Count(p, n) == Count(p, m) + (n - m)
  {
    if m < n { CountAll(p, m, n - 1); }
  }

  lemma {:induction false} CountNone(p: int -> bool, m: nat, n: nat)
    requires m <= n && forall x :: m <= x < n ==> !p(x)
    ensures Count(p, n) == Count(p, m)
  {
    if m < n { CountNone(p, m, n - 1); }
  }

  lemma {:induction false} CountSome(p: int -> bool, m: nat, n: nat, y: nat)
    requires m <= y < n && !p(y)
    ensures Count(p, n) < Count(p, m) + (n - m)
  {
    CountAtMost(p, m, y);
    CountAtMost(p, y + 1, n);
  }

  lemma {:induction false} CountAtMost(p: int -> bool, m: nat, n: nat)
    requires m <= n
    ensures Count(p, n) <= Count(p, m) + (n - m)
  {
    if m < n { CountAtMost(p, m, n - 1); }
  }

  lemma {:induction false} CountSum(p: int -> bool, q: int -> bool, r: int -> bool, n: nat)
    requires forall x :: 0 <= x < n ==> (r(x) <==> p(x) || q(x)) && !(p(x) && q(x))
    ensures Count(r, n) == Count(p, n) + Count(q, n)
  {
    if n > 0 { CountSum(p, q, r, n - 1); }
  }

  ghost predicate EndsBefore(rs: seq<Range>, n: nat) {
    forall i :: 0 <= i < |rs| ==> rs[i].end < n
  }

  /** The bytes covered, as a property. */
  ghost function Bytes(rs: seq<Range>): int -> bool { x => Covers(rs, x) }

  lemma CoverLast(rs: seq<Range>, k: nat)
    requires Coalesced(rs) && k + 1 == |rs|
    ensures forall x :: 0 <= x < rs[k].start ==> Covers(rs[..k], x) == Covers(rs, x)
    ensures forall x :: rs[k].start <= x < rs[k].end + 1 ==> Covers(rs, x)
    ensures forall x :: rs[k].end + 1 <= x ==> !Covers(rs, x)
    ensures Coalesced(rs[..k]) && EndsBefore(rs[..k], rs[k].start)
  {
    forall x | 0 <= x < rs[k].start
      ensures Covers(rs[..k], x) == Covers(rs, x)
    {
      if Covers(rs, x) {
        var i :| 0 <= i < |rs| && rs[i].start <= x <= rs[i].end;
        assert rs[..k][i] == rs[i];
      }
    }
  }

  /** The total size is the number of bytes covered. */
  lemma {:induction false} TotalCounts(rs: seq<Range>, n: nat)
    requires Coalesced(rs) && EndsBefore(rs, n)
    ensures Total(rs) == Count(Bytes(rs), n)
    decreases |rs|
  {
    hide Coalesced, Covers, Count, Total;
    if rs == [] {
      NothingCovered(rs, n);
    } else {
      var k := |rs| - 1;
      CoverLast(rs, k);
      TotalCounts(rs[..k], rs[k].start);
      TotalSplit(rs, k);
      NothingCovered(rs[k + 1..], 0);
      CountSame(Bytes(rs[..k]), Bytes(rs), rs[k].start);
      Proper(rs, k);
      CountAll(Bytes(rs), rs[k].start, rs[k].end + 1);
      CountNone(Bytes(rs), rs[k].end + 1, n);
    }
  }

  lemma NothingCovered(rs: seq<Range>, n: nat)
    requires rs == []
    ensures Total(rs) == 0 == Count(Bytes(rs), n)
  {
    CountNone(Bytes(rs), 0, n);
  }

  // ---------------------------------------------------------------- when freeing comes out right

  /** The ranges describe the free space of `rs` with a..b added. */
  ghost predicate Describes(ns: seq<Range>, rs: seq<Range>, a: nat, b: nat) {
    Coalesced(ns) && forall x :: Covers(ns, x) <==> Covers(rs, x) || a <= x <= b
  }

  /** Bytes of a..b that are not free. */
  ghost function Missing(rs: seq<Range>, a: nat, b: nat): int -> bool { x => a <= x <= b && !Covers(rs, x) }

  /** A free space with a..b added has as many more bytes as were missing. */
  lemma TotalGrows(ns: seq<Range>, rs: seq<Range>, a: nat, b: nat)
    requires Coalesced(rs) && a <= b && Describes(ns, rs, a, b)
    ensures Total(ns) == Total(rs) + Count(Missing(rs, a, b), b + 1)
  {
    hide Coalesced, Covers, Count, Total;
    var n := Bound(rs, Bound(ns, b + 1));
    BoundHolds(ns, b + 1);
    BoundHolds(rs, Bound(ns, b + 1));
    TotalCounts(rs, n);
    TotalCounts(ns, n);
    CountSum(Bytes(rs), Missing(rs, a, b), Bytes(ns), n);
    CountNone(Missing(rs, a, b), b + 1, n);
  }

  ghost function Bound(rs: seq<Range>, n: nat): (m: nat) {
    if rs == [] then n else Bound(rs[1..], if rs[0].end < n then n else rs[0].end + 1)
  }

  lemma {:induction false} BoundHolds(rs: seq<Range>, n: nat)
    ensures Bound(rs, n) >= n && EndsBefore(rs, Bound(rs, n))
  {
    if rs != [] {
      BoundHolds(rs[1..], if rs[0].end < n then n else rs[0].end + 1);
      forall i | 0 <= i < |rs| ensures rs[i].end < Bound(rs, n) {
        if i > 0 { assert rs[i] == rs[1..][i - 1]; }
      }
    }
  }

  /** If the missing bytes of a..b all lie in c..b, they are c..b exactly if that is clear of the free space. */
  lemma MissingPart(rs: seq<Range>, a: nat, b: nat, c: nat)
    requires Coalesced(rs) && a <= c <= b && forall x :: a <= x < c ==> Covers(rs, x)
    ensures Count(Missing(rs, a, b), b + 1) <= b + 1 - c
    ensures Count(Missing(rs, a, b), b + 1) == b + 1 - c <==> DisjointFrom(rs, c, b)
  {
    hide Coalesced, Count;
    var m := Missing(rs, a, b);
    CountNone(m, 0, c);
    CountZero(m);
    CountAtMost(m, c, b + 1);
    if DisjointFrom(rs, c, b) {
      CountAll(m, c, b + 1);
    } else {
      var i :| 0 <= i < |rs| && !(rs[i].end < c || b < rs[i].start);
      Proper(rs, i);
      CountSome(m, c, b + 1, if rs[i].start < c then c else rs[i].start);
    }
  }

  lemma CountZero(p: int -> bool)
    ensures Count(p, 0) == 0
  {
  }

  /** The free size the code arrives at is that of a free space with a..b added. */
  ghost predicate ComesOutRight(rs: seq<Range>, a: nat, b: nat)
    requires rs != [] && SearchIndex(rs, a) < |rs|
  {
    var (c, d) := Settled(rs, a, b);
    exists ns :: Describes(ns, rs, a, b) && Total(ns) == Total(rs) + (d - c + 1)
  }

  /** A range that can be freed comes out right. */
  lemma FreeableIsRight(rs: seq<Range>, a: nat, b: nat)
    requires Coalesced(rs) && rs != [] && a <= b && Freeable(rs, a, b) && SearchIndex(rs, a) < |rs|
      && !MoveFor(rs, a, b).Refuse?
    ensures ComesOutRight(rs, a, b)
  {
    hide Coalesced, Covers, Total, Freeable, DisjointFrom, Contains, FreedPart, SearchIndex, Insert, Below;
    var (c, d) := Settled(rs, a, b);
    SearchFreeable(rs, a, b);
    Proper(rs, 0);
    BelowFits(rs, c, d);
    var p := Below(rs, c);
    InsertCoalesced(rs, p, c, d);
    InsertTotal(rs, p, c, d);
    forall x ensures Covers(Insert(rs, p, c, d), x) <==> Covers(rs, x) || a <= x <= b {
      InsertCovers(rs, p, c, d, x);
      RestCovered(rs, a, b, x);
    }
  }

  /** What is cut off a range that can be freed is free already. */
  lemma RestCovered(rs: seq<Range>, a: nat, b: nat, x: int)
    requires Coalesced(rs) && rs != [] && a <= b && SearchIndex(rs, a) < |rs| && Spotted(rs, a, b)
      && !MoveFor(rs, a, b).Refuse?
    ensures var (c, d) := Settled(rs, a, b); Covers(rs, x) || a <= x <= b <==> Covers(rs, x) || c <= x <= d
  {
    hide Coalesced, DisjointFrom, Contains, FreedPart, SearchIndex;
    SearchStops(rs, a);
    var e := SearchIndex(rs, a);
    Proper(rs, e);
    if a <= x <= b && MoveFor(rs, a, b).Again? {
      assert rs[e].end == b && rs[e].start <= x ==> Covers(rs, x);
      assert e + 1 < |rs| && rs[e + 1].start <= a && x <= rs[e + 1].end ==> Covers(rs, x);
    }
  }

  /**
    A range that is not refused comes out right if and only if it is one of those that can be
    freed: in every other case of a partly free range the free size differs from what the
    entries can hold, whatever they have become.
   */
  lemma FreeExactly(rs: seq<Range>, a: nat, b: nat)
    requires Coalesced(rs) && rs != [] && a <= b && SearchIndex(rs, a) < |rs| && !MoveFor(rs, a, b).Refuse?
    ensures ComesOutRight(rs, a, b) <==> Freeable(rs, a, b)
  {
    hide Coalesced, Covers, Total, Freeable, DisjointFrom, SearchIndex, Count;
    if Freeable(rs, a, b) {
      FreeableIsRight(rs, a, b);
    } else if ComesOutRight(rs, a, b) {
      var (c, d) := Settled(rs, a, b);
      var ns :| Describes(ns, rs, a, b) && Total(ns) == Total(rs) + (d - c + 1);
      TotalGrows(ns, rs, a, b);
      NotFreeable(rs, a, b);
    }
  }

  lemma NotFreeable(rs: seq<Range>, a: nat, b: nat)
    requires Coalesced(rs) && rs != [] && a <= b && SearchIndex(rs, a) < |rs| && !MoveFor(rs, a, b).Refuse?
      && !Freeable(rs, a, b)
    ensures var (c, d) := Settled(rs, a, b); Count(Missing(rs, a, b), b + 1) < d - c + 1
  {
    hide Coalesced, Count, SearchIndex, DisjointFrom;
    SearchStops(rs, a);
    var e := SearchIndex(rs, a);
    if rs[e].end >= a && e > 0 {
      CoveredUpTo(rs, e, a);
      MissingPart(rs, a, b, rs[e].end + 1);
    } else if rs[e].end == b {
      assert false;
    } else if e + 1 < |rs| && rs[e + 1].start <= a {
      CoveredUpTo(rs, e + 1, a);
      MissingPart(rs, a, b, rs[e + 1].end + 1);
      assert DisjointFrom(rs, rs[e + 1].end + 1, b) ==> StartsIn(rs, e + 1, a, b);
    } else {
      MissingPart(rs, a, b, a);
    }
  }

  lemma CoveredUpTo(rs: seq<Range>, i: nat, a: nat)
    requires i < |rs| && rs[i].start <= a
    ensures forall x :: a <= x <= rs[i].end ==> Covers(rs, x)
  {
  }

  /** Freeing bytes 29 to 34 when 0 to 9 and 20 to 29 are free: five bytes are missing, and the code counts seven. */
  lemma PartlyFree()
    ensures var rs := [Range(0, 9), Range(20, 29)];
      && Coalesced(rs) && SearchIndex(rs, 29) == 1 && Settled(rs, 29, 34) == (30, 36) && !ComesOutRight(rs, 29, 34)
  {
    hide ComesOutRight;
    var rs := [Range(0, 9), Range(20, 29)];
    BelowIs(rs, 29, 2);
    assert forall i: nat :: !StartsIn(rs, i, 29, 34);
    assert !DisjointFrom(rs, 29, 34) by { assert rs[1].end >= 29; }
    FreeExactly(rs, 29, 34);
  }
}
