/** IPv4 addresses as four octets: the in-place increment and the octet-wise comparison. */
module Ipv4 {
  import opened Widths

  datatype Address = Address(o1: uint8, o2: uint8, o3: uint8, o4: uint8)

  // The address as a big-endian number.
  function Value(a: Address): (v: nat)
    ensures v < TWO32
  {
    a.o1 * 0x100_0000 + a.o2 * 0x1_0000 + a.o3 * 0x100 + a.o4
  }

  /** Com_ipv4cmp: the first differing octet decides. */
  function Compare(l: Address, r: Address): (cmp: int)
    ensures cmp < 0 <==> Value(l) < Value(r)
    ensures cmp == 0 <==> l == r
    ensures cmp > 0 <==> Value(l) > Value(r)
  {
    if l.o1 - r.o1 != 0 then l.o1 - r.o1
    else if l.o2 - r.o2 != 0 then l.o2 - r.o2
    else if l.o3 - r.o3 != 0 then l.o3 - r.o3
    else l.o4 - r.o4
  }

  // The odometer: the last octet below 255 goes up, those behind it go back to zero.
  function Successor(a: Address): Address {
    if a.o4 < 255 then a.(o4 := a.o4 + 1)
    else if a.o3 < 255 then a.(o3 := a.o3 + 1, o4 := 0)
    else if a.o2 < 255 then a.(o2 := a.o2 + 1, o3 := 0, o4 := 0)
    else if a.o1 < 255 then Address(a.o1 + 1, 0, 0, 0)
    else Address(0, 0, 0, 0)
  }

  /** The odometer counts: successor modulo 2^32. */
  lemma SuccessorIsPlusOne(a: Address)
    ensures Value(Successor(a)) == (Value(a) + 1) % TWO32
    ensures Value(Successor(a)) == if Value(a) == TWO32 - 1 then 0 else Value(a) + 1
  {
    var v := Value(a);
    assert v + 1 < TWO32 ==> (v + 1) % TWO32 == v + 1;
    assert v + 1 == TWO32 ==> (v + 1) % TWO32 == 0;
  }

  class SockAddr {
    var ip1: uint8
    var ip2: uint8
    var ip3: uint8
    var ip4: uint8

    function Now(): Address reads this { Address(ip1, ip2, ip3, ip4) }

    constructor (a: Address)
      ensures Now() == a
    {
      ip1, ip2, ip3, ip4 := a.o1, a.o2, a.o3, a.o4;
    }

    /** Com_ipv4add: false exactly when the address wraps around to zero. */
    method Add() returns (ok: bool)
      modifies this
      ensures Now() == Successor(old(Now()))
      ensures ok <==> old(Now()) != Address(255, 255, 255, 255)
    {
      if ip4 < 255 {
        ip4 := ip4 + 1;
        return true;
      } else {
        ip4 := 0;
      }
      if ip3 < 255 {
        ip3 := ip3 + 1;
        return true;
      } else {
        ip3 := 0;
      }
      if ip2 < 255 {
        ip2 := ip2 + 1;
        return true;
      } else {
        ip2 := 0;
      }
      if ip1 < 255 {
        ip1 := ip1 + 1;
        return true;
      } else {
        ip1 := 0;
      }
      return false;
    }
  }

  // The address after n increments.
  function Nth(lo: Address, n: nat): Address {
    if n == 0 then lo else Successor(Nth(lo, n - 1))
  }

  lemma {:induction false} NthCounts(lo: Address, n: nat)
    requires n <= TWO32
    ensures Value(Nth(lo, n)) == if Value(lo) + n < TWO32 then Value(lo) + n else Value(lo) + n - TWO32
  {
    if n > 0 {
      NthCounts(lo, n - 1);
      SuccessorIsPlusOne(Nth(lo, n - 1));
    }
  }

  /** Adding from lo, the comparison with hi gives 0 after their difference and never before. */
  lemma WalkStopsAtHi(lo: Address, hi: Address, i: nat)
    requires Compare(lo, hi) <= 0 && i <= Value(hi) - Value(lo)
    ensures Compare(Nth(lo, i), hi) <= 0
    ensures Compare(Nth(lo, i), hi) == 0 <==> i == Value(hi) - Value(lo)
  {
    NthCounts(lo, i);
  }

  /** Until then it visits every address of [lo, hi], and only those, exactly once and in increasing order. */
  lemma WalkVisitsTheRangeOnce(lo: Address, hi: Address, x: Address, j: nat)
    requires Compare(lo, hi) <= 0 && j <= Value(hi) - Value(lo)
    ensures Compare(lo, Nth(lo, j)) <= 0 && Compare(Nth(lo, j), hi) <= 0
    ensures Compare(lo, x) <= 0 && Compare(x, hi) <= 0 ==> (Nth(lo, j) == x <==> j == Value(x) - Value(lo))
    ensures forall i | 0 <= i < j :: Compare(Nth(lo, i), Nth(lo, j)) < 0
  {
    NthCounts(lo, j);
    if Compare(lo, x) <= 0 && j == Value(x) - Value(lo) {
      assert Compare(x, Nth(lo, j)) == 0;
    }
    forall i | 0 <= i < j
      ensures Compare(Nth(lo, i), Nth(lo, j)) < 0
    {
      NthCounts(lo, i);
    }
  }

  /** From a start above the end the walk wraps first: it reaches hi after the distance modulo 2^32. */
  lemma WalkFromAboveWraps(lo: Address, hi: Address, i: nat)
    requires Compare(lo, hi) > 0 && i <= TWO32 - Value(lo) + Value(hi)
    ensures Compare(Nth(lo, i), hi) == 0 <==> i == TWO32 - Value(lo) + Value(hi)
  {
    NthCounts(lo, i);
  }
}
