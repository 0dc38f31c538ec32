/**
  The allocator's abstract state: the free space as an address-sorted sequence of
  inclusive, non-adjacent ranges. Such a sequence is a canonical form of the set
  of free bytes (`Canonical`), which is what makes the round trip of allocate and
  free exact.
 */
module FreeRanges {
  datatype Range = Range(start: nat, end: nat)

  function Size(r: Range): int { r.end - r.start + 1 }

  ghost predicate Coalesced(rs: seq<Range>) {
    && (forall i :: 0 <= i < |rs| ==> rs[i].start <= rs[i].end)
    && (forall i, j :: 0 <= i < j < |rs| ==> rs[i].end + 1 < rs[j].start)
  }

  /** Byte `x` lies in one of the ranges. */
  ghost predicate Covers(rs: seq<Range>, x: int) {
    exists i :: 0 <= i < |rs| && rs[i].start <= x <= rs[i].end
  }

  /** No byte of a..b is free. */
  ghost predicate DisjointFrom(rs: seq<Range>, a: int, b: int) {
    forall i :: 0 <= i < |rs| ==> rs[i].end < a || b < rs[i].start
  }

  /** Every byte of a..b is free (and so in one range, as the ranges are coalesced). */
  ghost predicate Contains(rs: seq<Range>, a: int, b: int) {
    exists i :: 0 <= i < |rs| && rs[i].start <= a && b <= rs[i].end
  }

  ghost function Total(rs: seq<Range>): int {
    if rs == [] then 0 else Size(rs[0]) + Total(rs[1..])
  }

  lemma {:induction false} TotalConcat(a: seq<Range>, b: seq<Range>)
    ensures Total(a + b) == Total(a) + Total(b)
  {
    if a == [] {
      assert a + b == b;
    } else {
      assert (a + b)[1..] == a[1..] + b;
      TotalConcat(a[1..], b);
    }
  }

  lemma {:induction false} TotalSplit(rs: seq<Range>, i: nat)
    requires i < |rs|
    ensures Total(rs) == Total(rs[..i]) + Size(rs[i]) + Total(rs[i + 1..])
  {
    assert rs == rs[..i] + ([rs[i]] + rs[i + 1..]);
    TotalConcat(rs[..i], [rs[i]] + rs[i + 1..]);
    assert ([rs[i]] + rs[i + 1..])[1..] == rs[i + 1..];
  }

  lemma {:induction false} TotalBounds(rs: seq<Range>, i: nat)
    requires Coalesced(rs) && i < |rs|
    ensures Size(rs[i]) <= Total(rs)
  {
    TotalSplit(rs, i);
    TotalNonNegative(rs[..i]);
    TotalNonNegative(rs[i + 1..]);
  }

  lemma {:induction false} TotalNonNegative(rs: seq<Range>)
    requires forall i :: 0 <= i < |rs| ==> rs[i].start <= rs[i].end
    ensures Total(rs) >= 0
    ensures Total(rs) == 0 <==> rs == []
  {
    if rs != [] { TotalNonNegative(rs[1..]); }
  }

  lemma CoalescedTotal(rs: seq<Range>)
    requires Coalesced(rs)
    ensures Total(rs) >= 0 && (Total(rs) == 0 <==> rs == [])
  {
  }

  // ---------------------------------------------------------------- concatenation

  lemma ThreeWay(rs: seq<Range>, i: nat, j: nat)
    requires i <= j <= |rs|
    ensures rs == rs[..i] + rs[i..j] + rs[j..]
  {
  }

  /** Every range of `a` lies below every range of `b`, with a gap between them. */
  ghost predicate Apart(a: seq<Range>, b: seq<Range>) {
    forall i, j :: 0 <= i < |a| && 0 <= j < |b| ==> a[i].end + 1 < b[j].start
  }

  lemma CoversConcat(a: seq<Range>, b: seq<Range>, x: int)
    ensures Covers(a + b, x) <==> Covers(a, x) || Covers(b, x)
  {
    if Covers(a, x) {
      var k :| 0 <= k < |a| && a[k].start <= x <= a[k].end;
      assert (a + b)[k] == a[k];
    }
    if Covers(b, x) {
      var k :| 0 <= k < |b| && b[k].start <= x <= b[k].end;
      assert (a + b)[|a| + k] == b[k];
    }
  }

  lemma CoversThree(a: seq<Range>, m: seq<Range>, b: seq<Range>, x: int)
    ensures Covers(a + m + b, x) <==> Covers(a, x) || Covers(m, x) || Covers(b, x)
  {
    CoversConcat(a + m, b, x);
    CoversConcat(a, m, x);
  }

  /** Replacing ranges i..j by coalesced ranges that keep clear of the rest. */
  lemma CoalescedSplice(rs: seq<Range>, i: nat, j: nat, m: seq<Range>)
    requires Coalesced(rs) && i <= j <= |rs| && Coalesced(m)
    requires Apart(rs[..i], m) && Apart(m, rs[j..])
    ensures Coalesced(rs[..i] + m + rs[j..])
  {
  }

  // ---------------------------------------------------------------- carving

  /** What is left of `r` without a..b. */
  ghost function Leftover(r: Range, a: nat, b: nat): seq<Range> {
    (if r.start < a then [Range(r.start, a - 1)] else [])
    + (if b < r.end then [Range(b + 1, r.end)] else [])
  }

  /** The free space once a..b has been taken out of range number `i`. */
  ghost function Carve(rs: seq<Range>, i: nat, a: nat, b: nat): seq<Range>
    requires i < |rs|
  {
    rs[..i] + Leftover(rs[i], a, b) + rs[i + 1..]
  }

  ghost predicate Inside(rs: seq<Range>, i: nat, a: nat, b: nat) {
    i < |rs| && rs[i].start <= a <= b <= rs[i].end
  }

  lemma CarveCoalesced(rs: seq<Range>, i: nat, a: nat, b: nat)
    requires Coalesced(rs) && Inside(rs, i, a, b)
    ensures Coalesced(Carve(rs, i, a, b))
  {
    var m := Leftover(rs[i], a, b);
    assert forall k :: 0 <= k < |m| ==> rs[i].start <= m[k].start && m[k].end <= rs[i].end;
    CoalescedSplice(rs, i, i + 1, m);
  }

  lemma CarveCovers(rs: seq<Range>, i: nat, a: nat, b: nat, x: int)
    requires Coalesced(rs) && Inside(rs, i, a, b)
    ensures Covers(Carve(rs, i, a, b), x) <==> Covers(rs, x) && !(a <= x <= b)
  {
    var m := Leftover(rs[i], a, b);
    CoversThree(rs[..i], m, rs[i + 1..], x);
    assert rs == rs[..i] + [rs[i]] + rs[i + 1..];
    CoversThree(rs[..i], [rs[i]], rs[i + 1..], x);
    LeftoverCovers(rs[i], a, b, x);
    if a <= x <= b {
      assert !Covers(rs[..i], x) && !Covers(rs[i + 1..], x);
    }
  }

  lemma LeftoverCovers(r: Range, a: nat, b: nat, x: int)
    requires r.start <= a <= b <= r.end
    ensures Covers(Leftover(r, a, b), x) <==> Covers([r], x) && !(a <= x <= b)
  {
    assert Covers([r], x) <==> r.start <= x <= r.end by {
      assert r.start <= x <= r.end ==> [r][0].start <= x <= [r][0].end;
    }
    var m := Leftover(r, a, b);
    if r.start <= x < a { assert m[0].start <= x <= m[0].end; }
    if b < x <= r.end { assert m[|m| - 1].start <= x <= m[|m| - 1].end; }
  }

  lemma CarveTotal(rs: seq<Range>, i: nat, a: nat, b: nat)
    requires Coalesced(rs) && Inside(rs, i, a, b)
    ensures Total(Carve(rs, i, a, b)) == Total(rs) - (b - a + 1)
  {
    var m := Leftover(rs[i], a, b);
    TotalSplit(rs, i);
    TotalConcat(rs[..i] + m, rs[i + 1..]);
    TotalConcat(rs[..i], m);
    LeftoverTotal(rs[i], a, b);
  }

  lemma LeftoverTotal(r: Range, a: nat, b: nat)
    requires r.start <= a <= b <= r.end
    ensures Total(Leftover(r, a, b)) == Size(r) - (b - a + 1)
  {
    var l := if r.start < a then [Range(r.start, a - 1)] else [];
    var t := if b < r.end then [Range(b + 1, r.end)] else [];
    TotalConcat(l, t);
    assert Total(l) == a - r.start;
    assert Total(t) == r.end - b;
  }

  // ---------------------------------------------------------------- inserting

  /** How many ranges start below `a`. */
  ghost function Below(rs: seq<Range>, a: nat): (p: nat)
    ensures p <= |rs|
    ensures forall k :: 0 <= k < p ==> rs[k].start < a
    ensures p < |rs| ==> rs[p].start >= a
  {
    if rs == [] || rs[0].start >= a then 0
    else
      var q := Below(rs[1..], a);
      assert forall k :: 1 <= k < q + 1 ==> rs[k] == rs[1..][k - 1];
      q + 1
  }

  lemma {:induction false} BelowIs(rs: seq<Range>, a: nat, p: nat)
    requires p <= |rs| && (forall k :: 0 <= k < p ==> rs[k].start < a) && (p < |rs| ==> rs[p].start >= a)
    ensures Below(rs, a) == p
  {
  }

  ghost predicate JoinsLeft(rs: seq<Range>, p: nat, a: nat) {
    0 < p <= |rs| && rs[p - 1].end + 1 == a
  }

  ghost predicate JoinsRight(rs: seq<Range>, p: nat, b: nat) {
    p < |rs| && rs[p].start == b + 1
  }

  /** The free space once a..b has been put in before range number `p`, merging with its neighbours. */
  ghost function Insert(rs: seq<Range>, p: nat, a: nat, b: nat): seq<Range>
    requires p <= |rs|
  {
    var l, r := JoinsLeft(rs, p, a), JoinsRight(rs, p, b);
    var merged := Range(if l then rs[p - 1].start else a, if r then rs[p].end else b);
    rs[..if l then p - 1 else p] + [merged] + rs[if r then p + 1 else p..]
  }

  /** a..b is free of free bytes and `p` is its place in the order. */
  ghost predicate Fits(rs: seq<Range>, p: nat, a: nat, b: nat) {
    && p <= |rs| && a <= b
    && DisjointFrom(rs, a, b)
    && (forall k :: 0 <= k < p ==> rs[k].end < a)
    && (forall k :: p <= k < |rs| ==> b < rs[k].start)
  }

  lemma BelowFits(rs: seq<Range>, a: nat, b: nat)
    requires Coalesced(rs) && a <= b && DisjointFrom(rs, a, b)
    ensures Fits(rs, Below(rs, a), a, b)
  {
  }

  /** The merged range keeps clear of the ranges it was not merged with. */
  lemma MergedApart(rs: seq<Range>, p: nat, a: nat, b: nat, i: nat, j: nat, m: Range)
    requires Coalesced(rs) && Fits(rs, p, a, b)
    requires i == if JoinsLeft(rs, p, a) then p - 1 else p
    requires j == if JoinsRight(rs, p, b) then p + 1 else p
    requires m == Range(if JoinsLeft(rs, p, a) then rs[p - 1].start else a, if JoinsRight(rs, p, b) then rs[p].end
      else b)
    ensures Coalesced([m]) && Apart(rs[..i], [m]) && Apart([m], rs[j..])
  {
    assert i > 0 ==> rs[i - 1].end + 1 < m.start;
    assert j < |rs| ==> m.end + 1 < rs[j].start;
  }

  lemma InsertCoalesced(rs: seq<Range>, p: nat, a: nat, b: nat)
    requires Coalesced(rs) && Fits(rs, p, a, b)
    ensures Coalesced(Insert(rs, p, a, b))
  {
    hide Coalesced, Apart;
    var i := if JoinsLeft(rs, p, a) then p - 1 else p;
    var j := if JoinsRight(rs, p, b) then p + 1 else p;
    var m := Range(if JoinsLeft(rs, p, a) then rs[p - 1].start else a, if JoinsRight(rs, p, b) then rs[p].end else b);
    MergedApart(rs, p, a, b, i, j, m);
    CoalescedSplice(rs, i, j, [m]);
  }

  lemma InsertCovers(rs: seq<Range>, p: nat, a: nat, b: nat, x: int)
    requires Coalesced(rs) && Fits(rs, p, a, b)
    ensures Covers(Insert(rs, p, a, b), x) <==> Covers(rs, x) || a <= x <= b
  {
    var i := if JoinsLeft(rs, p, a) then p - 1 else p;
    var j := if JoinsRight(rs, p, b) then p + 1 else p;
    var merged := Insert(rs, p, a, b)[i];
    CoversThree(rs[..i], [merged], rs[j..], x);
    ThreeWay(rs, i, j);
    CoversThree(rs[..i], rs[i..j], rs[j..], x);
    MergedCovers(rs[i..j], a, b, merged, x);
  }

  /** A range merged from a..b and the adjacent ranges `m` covers just those bytes. */
  lemma MergedCovers(m: seq<Range>, a: nat, b: nat, merged: Range, x: int)
    requires a <= b && (forall k :: 0 <= k < |m| ==> m[k].start <= m[k].end)
    requires |m| == 0 ==> merged == Range(a, b)
    requires |m| == 1 ==>
      || (m[0].end + 1 == a && merged == Range(m[0].start, b))
      || (m[0].start == b + 1 && merged == Range(a, m[0].end))
    requires |m| >= 2 ==>
      |m| == 2 && m[0].end + 1 == a && m[1].start == b + 1 && merged == Range(m[0].start, m[1].end)
    ensures Covers([merged], x) <==> Covers(m, x) || a <= x <= b
  {
    assert Covers([merged], x) <==> merged.start <= x <= merged.end by {
      assert merged.start <= x <= merged.end ==> [merged][0].start <= x <= [merged][0].end;
    }
    if merged.start <= x < a { assert m[0].start <= x <= m[0].end; }
    if b < x <= merged.end { assert m[|m| - 1].start <= x <= m[|m| - 1].end; }
  }

  lemma TotalThree(rs: seq<Range>, i: nat, j: nat)
    requires i <= j <= |rs|
    ensures Total(rs) == Total(rs[..i]) + Total(rs[i..j]) + Total(rs[j..])
  {
    ThreeWay(rs, i, j);
    TotalConcat(rs[..i] + rs[i..j], rs[j..]);
    TotalConcat(rs[..i], rs[i..j]);
  }

  lemma InsertTotal(rs: seq<Range>, p: nat, a: nat, b: nat)
    requires Coalesced(rs) && Fits(rs, p, a, b)
    ensures Total(Insert(rs, p, a, b)) == Total(rs) + (b - a + 1)
  {
    hide Coalesced, Total;
    var l, r := JoinsLeft(rs, p, a), JoinsRight(rs, p, b);
    var i, j := if l then p - 1 else p, if r then p + 1 else p;
    var m := Range(if l then rs[p - 1].start else a, if r then rs[p].end else b);
    TotalThree(rs, i, j);
    TotalConcat(rs[..i] + [m], rs[j..]);
    TotalConcat(rs[..i], [m]);
    MergedTotal(rs[i..j], a, b, l, r, m);
  }

  lemma MergedTotal(ms: seq<Range>, a: nat, b: nat, l: bool, r: bool, m: Range)
    requires |ms| == (if l then 1 else 0) + (if r then 1 else 0)
    requires l ==> ms[0].end + 1 == a
    requires r ==> ms[|ms| - 1].start == b + 1
    requires m == Range(if l then ms[0].start else a, if r then ms[|ms| - 1].end else b)
    ensures Total([m]) == Total(ms) + (b - a + 1)
  {
    assert Total([m]) == Size(m);
    if |ms| == 2 {
      assert ms[1..] == [ms[1]];
      assert Total([ms[1]]) == Size(ms[1]);
    } else if |ms| == 1 {
      assert ms[1..] == [];
    }
  }

  // ---------------------------------------------------------------- canonical form

  /** Coalesced sequences that cover the same bytes are equal. */
  lemma {:induction false} Canonical(rs: seq<Range>, ss: seq<Range>)
    requires Coalesced(rs) && Coalesced(ss)
    requires forall x :: Covers(rs, x) <==> Covers(ss, x)
    ensures rs == ss
  {
    hide Covers, Coalesced;
    FirstCovered(rs);
    FirstCovered(ss);
    if rs != [] && ss != [] {
      assert rs[0].start == ss[0].start;
      SameFirstEnd(rs, ss);
      SameFirstEnd(ss, rs);
      forall x
        ensures Covers(rs[1..], x) <==> Covers(ss[1..], x)
      {
        CoversRest(rs, x);
        CoversRest(ss, x);
      }
      TailCoalesced(rs);
      TailCoalesced(ss);
      Canonical(rs[1..], ss[1..]);
      assert rs == [rs[0]] + rs[1..] && ss == [ss[0]] + ss[1..];
    }
  }

  lemma FirstCovered(rs: seq<Range>)
    requires Coalesced(rs)
    ensures rs == [] ==> forall x :: !Covers(rs, x)
    ensures rs != [] ==> Covers(rs, rs[0].start) && forall x :: Covers(rs, x) ==> rs[0].start <= x
  {
  }

  lemma TailCoalesced(rs: seq<Range>)
    requires Coalesced(rs) && rs != []
    ensures Coalesced(rs[1..])
  {
  }

  lemma SameFirstEnd(rs: seq<Range>, ss: seq<Range>)
    requires Coalesced(rs) && Coalesced(ss) && rs != [] && ss != []
    requires rs[0].start == ss[0].start
    requires forall x :: Covers(rs, x) <==> Covers(ss, x)
    ensures rs[0].end <= ss[0].end
  {
    var x := ss[0].end + 1;
    assert rs[0].start <= x <= rs[0].end ==> Covers(rs, x);
    assert !Covers(ss, x);
  }

  lemma CoversRest(rs: seq<Range>, x: int)
    requires Coalesced(rs) && rs != []
    ensures Covers(rs[1..], x) <==> Covers(rs, x) && !(rs[0].start <= x <= rs[0].end)
  {
  }

  /** Putting back what was carved out restores the very same sequence. */
  lemma CarveThenInsert(rs: seq<Range>, i: nat, a: nat, b: nat)
    requires Coalesced(rs) && Inside(rs, i, a, b)
    ensures Coalesced(Carve(rs, i, a, b))
    ensures DisjointFrom(Carve(rs, i, a, b), a, b)
    ensures Insert(Carve(rs, i, a, b), Below(Carve(rs, i, a, b), a), a, b) == rs
  {
    var cs := Carve(rs, i, a, b);
    CarveCoalesced(rs, i, a, b);
    forall k | 0 <= k < |cs|
      ensures cs[k].end < a || b < cs[k].start
    {
      var x := if cs[k].start <= a then a else cs[k].start;
      assert cs[k].start <= x <= cs[k].end ==> Covers(cs, x);
      CarveCovers(rs, i, a, b, x);
    }
    var p := Below(cs, a);
    BelowFits(cs, a, b);
    InsertCoalesced(cs, p, a, b);
    forall x
      ensures Covers(Insert(cs, p, a, b), x) <==> Covers(rs, x)
    {
      CarveCovers(rs, i, a, b, x);
      InsertCovers(cs, p, a, b, x);
      assert a <= x <= b ==> rs[i].start <= x <= rs[i].end;
    }
    Canonical(Insert(cs, p, a, b), rs);
  }
}
