/** Rounding addresses to powers of two, as the allocator's two alignment helpers do. */
module Alignment {
  import opened Common

  /** `x` with its bits below `a` cleared, for a power of two `a`. */
  function RoundDown(x: nat, a: nat): (r: nat)
    requires a > 0
    ensures r <= x
  {
    x - x % a
  }

  /** `a` divides the difference of two of its multiples. */
  lemma MultiplesDiffer(x: int, y: int, a: nat)
    requires a > 0 && x % a == 0 && y % a == 0
    ensures (x - y) % a == 0
    ensures x > y ==> x >= y + a
  {
    var p, q := x / a, y / a;
    assert x == a * p && y == a * q;
    assert x - y == a * (p - q);
    MultipleMod(a, p - q);
    if x > y {
      assert p - q >= 1 by {
        if p - q <= 0 { MulNonPositive(a, p - q); }
      }
      MulAtLeast(a, p - q);
    }
  }

  lemma MultipleMod(a: nat, k: int)
    requires a > 0
    ensures (a * k) % a == 0
  {
    assert (a * k) / a == k && a * k == a * ((a * k) / a) + (a * k) % a by { DivOfMultiple(a, k); }
  }

  lemma DivOfMultiple(a: nat, k: int)
    requires a > 0
    ensures (a * k) / a == k
  {
    var q, r := (a * k) / a, (a * k) % a;
    assert a * k == a * q + r && 0 <= r < a;
    assert a * (k - q) == r;
    if k - q >= 1 { MulAtLeast(a, k - q); }
    if k - q <= -1 { MulAtLeast(a, q - k); }
  }

  lemma MulNonPositive(a: nat, k: int)
    requires k <= 0
    ensures a * k <= 0
  {
  }

  lemma MulAtLeast(a: nat, k: int)
    requires k >= 1
    ensures a * k >= a
  {
  }

  lemma RoundDownMultiple(x: nat, a: nat)
    requires a > 0
    ensures RoundDown(x, a) % a == 0
    ensures x - RoundDown(x, a) < a
  {
    assert RoundDown(x, a) == a * (x / a);
    MultipleMod(a, x / a);
  }

  lemma AddMultiple(x: int, a: nat)
    requires a > 0 && x % a == 0
    ensures (x + a) % a == 0
  {
    assert x == a * (x / a);
    assert x + a == a * (x / a + 1);
    MultipleMod(a, x / a + 1);
  }

  /** The least multiple of `a` at or above `x`. */
  function RoundUp(x: nat, a: nat): (r: nat)
    requires a > 0
    ensures r >= x && r % a == 0 && r - x < a
  {
    if x == 0 then 0
    else
      RoundDownMultiple(x - 1, a);
      AddMultiple(RoundDown(x - 1, a), a);
      RoundDown(x - 1, a) + a
  }

  lemma RoundUpLeast(x: nat, a: nat, y: nat)
    requires a > 0 && y >= x && y % a == 0
    ensures y >= RoundUp(x, a)
  {
    if y < RoundUp(x, a) { MultiplesDiffer(RoundUp(x, a), y, a); }
  }

  /** The smallest aligned range that holds the requested one. */
  function AlignAddressAndSize(address: nat, size: nat, alignOrder: nat): (r: (nat, nat))
    requires size > 0
  {
    var a := Pow2(alignOrder);
    var start := RoundDown(address, a);
    (start, RoundDown(size + (address - start) - 1, a) + a)
  }

  lemma AlignedRange(address: nat, size: nat, alignOrder: nat)
    requires size > 0
    ensures var r := AlignAddressAndSize(address, size, alignOrder);
      && r.0 == RoundDown(address, Pow2(alignOrder))
      && r.1 >= size
      && r.0 + r.1 == RoundUp(address + size, Pow2(alignOrder))
  {
    var a := Pow2(alignOrder);
    var r := AlignAddressAndSize(address, size, alignOrder);
    RoundDownMultiple(address, a);
    RoundDownMultiple(size + (address - r.0) - 1, a);
    AddMultiple(RoundDown(size + (address - r.0) - 1, a), a);
    SumOfMultiples(r.0, r.1, a);
    RoundUpLeast(address + size, a, r.0 + r.1);
    if r.0 + r.1 > RoundUp(address + size, a) {
      MultiplesDiffer(r.0 + r.1, RoundUp(address + size, a), a);
    }
  }

  lemma SumOfMultiples(x: int, y: int, a: nat)
    requires a > 0 && x % a == 0 && y % a == 0
    ensures (x + y) % a == 0
  {
    assert x == a * (x / a) && y == a * (y / a);
    assert x + y == a * (x / a + y / a);
    MultipleMod(a, x / a + y / a);
  }

  /**
    The first aligned address of a free area and the bytes left from there, in
    64-bit arithmetic that wraps.
   */
  function AlignAddressAndAvailableSize(start: nat, size: nat, alignOrder: nat): (nat, nat)
    requires start <= WORD
  {
    if start == 0 then (0, size)
    else
      var a := Pow2(alignOrder);
      var aligned := Wrapped(RoundDown(start - 1, a) + a);
      var gap := if aligned >= start then aligned - start else aligned + WORD - start;
      if size > gap then (aligned, size - gap) else (aligned, 0)
  }

  /** A sum below twice the word size, reduced to 64 bits. */
  function Wrapped(x: nat): nat {
    if x >= WORD then x - WORD else x
  }

  /** Some aligned block of `n` bytes lies within the `size` bytes at `start`. */
  ghost predicate HoldsAligned(start: nat, size: nat, a: nat, n: nat)
    requires a > 0
  {
    exists x: nat :: start <= x && x % a == 0 && x + n <= start + size
  }

  /** The helper decides exactly whether an aligned block fits, and finds the lowest one. */
  lemma AvailableSizeCorrect(start: nat, size: nat, alignOrder: nat, n: nat)
    requires 0 < n && start + size < WORD && alignOrder < 64
    ensures var r := AlignAddressAndAvailableSize(start, size, alignOrder);
      && r.0 == RoundUp(start, Pow2(alignOrder)) % WORD
      && (r.1 >= n <==> HoldsAligned(start, size, Pow2(alignOrder), n))
      && (r.1 >= n ==> r.0 == RoundUp(start, Pow2(alignOrder)) && r.0 + n <= start + size)
  {
    var a := Pow2(alignOrder);
    var r := AlignAddressAndAvailableSize(start, size, alignOrder);
    var up := RoundUp(start, a);
    Pow2Bound(alignOrder);
    if up + n <= start + size {
      assert HoldsAligned(start, size, a, n);
    } else {
      forall x: nat | start <= x && x % a == 0
        ensures x + n > start + size
      {
        RoundUpLeast(start, a, x);
      }
    }
  }

  lemma {:induction false} Pow2Bound(k: nat)
    requires k < 64
    ensures Pow2(k) <= WORD / 2
  {
    Pow2Mono(k, 63);
    Pow2Plus8(0); Pow2Plus8(8); Pow2Plus8(16); Pow2Plus8(24);
    Pow2Plus8(32); Pow2Plus8(40); Pow2Plus8(48); Pow2Plus8(56);
    assert Pow2(64) == WORD && Pow2(64) == 2 * Pow2(63);
  }

  lemma Pow2Plus8(k: nat)
    ensures Pow2(k + 8) == 256 * Pow2(k)
  {
    assert Pow2(k + 2) == 4 * Pow2(k);
    assert Pow2(k + 4) == 4 * Pow2(k + 2);
    assert Pow2(k + 6) == 4 * Pow2(k + 4);
    assert Pow2(k + 8) == 4 * Pow2(k + 6);
  }

  lemma {:induction false} Pow2Mono(i: nat, j: nat)
    requires i <= j
    ensures Pow2(i) <= Pow2(j)
    decreases j
  {
    if i < j { Pow2Mono(i, j - 1); }
  }
}
