/** The Windows CE branch of the sortable list view: comparing two DECIMAL values
    (section 2.2.26 of [MS-OAUT]) limb by limb, against the order of the rationals they denote.
    Machine widths are explicit: limbs are 32 bit, products are taken modulo 2^64. */
module Decimals {
  import opened Options
  import opened Widths

  const TWO96 := 0x1_0000_0000_0000_0000_0000_0000

  const VARCMP_LT := 0
  const VARCMP_EQ := 1
  const VARCMP_GT := 2
  const VARCMP_NULL := 3

  datatype Decimal = Decimal(hi32: uint32, mid32: uint32, lo32: uint32, sign: uint8, scale: uint8) {
    function Lo64(): nat { mid32 * TWO32 + lo32 }

    function Mantissa(): nat { hi32 * TWO64 + Lo64() }

    // sign & DECIMAL_NEG, where DECIMAL_NEG is the top bit of the sign byte
    predicate Negative() { sign >= 0x80 }

    function Signed(): int {
      var m: int := Mantissa();
      if Negative() then -m else m
    }

    // The number the decimal stands for.
    ghost function Value(): real { Signed() as real / Pow10(scale) as real }
  }

  // DECIMAL_NEG is bit 7 of the sign byte; the other bits do not matter.
  lemma TheTopBitIsTheSign(d: Decimal)
    ensures d.Negative() <==> d.sign / 0x80 % 2 == 1
  {
  }

  function Pow10(n: nat): (p: nat)
    ensures p >= 1
  {
    if n == 0 then 1 else 10 * Pow10(n - 1)
  }

  function Sign(x: int): int { if x < 0 then -1 else if x > 0 then 1 else 0 }

  /** Exact comparison of the denoted rationals, by cross multiplication. */
  function CrossOrder(l: Decimal, r: Decimal): int {
    Sign(l.Signed() * Pow10(r.scale) - r.Signed() * Pow10(l.scale))
  }

  // ---------- arithmetic ----------

  lemma {:induction false} Pow10Add(a: nat, b: nat)
    ensures Pow10(a + b) == Pow10(a) * Pow10(b)
  {
    if a > 0 {
      Pow10Add(a - 1, b);
      assert Pow10(a + b) == 10 * (Pow10(a - 1) * Pow10(b));
    }
  }

  lemma SignOfScaled(x: int, k: int)
    requires k > 0
    ensures Sign(x * k) == Sign(x)
  {
    if x > 0 { assert x * k > 0; } else if x < 0 { assert x * k < 0; }
  }

  lemma CommonFactor(x: int, y: int, d: int, s: int)
    requires s > 0
    ensures Sign(x * (d * s) - y * s) == Sign(x * d - y)
  {
    assert x * (d * s) - y * s == (x * d - y) * s;
    SignOfScaled(x * d - y, s);
  }

  /** Comparing at the larger of two scales is comparing the rationals. */
  lemma AlignedOrder(small: nat, big: nat, x: int, y: int)
    requires small <= big
    ensures Sign(x * Pow10(big) - y * Pow10(small)) == Sign(x * Pow10(big - small) - y)
  {
    Pow10Add(big - small, small);
    CommonFactor(x, y, Pow10(big - small), Pow10(small));
  }

  lemma ChainedScaling(m: int, a: nat, k: nat, c: nat)
    requires m >= 0
    ensures m * Pow10(a + k + c) == m * Pow10(a) * Pow10(k) * Pow10(c)
    ensures m * Pow10(a + k) == m * Pow10(a) * Pow10(k)
    ensures m * Pow10(a + k + c) >= m * Pow10(a + k)
  {
    Pow10Add(a, k);
    Pow10Add(a + k, c);
    Reassociate(m, Pow10(a), Pow10(k), Pow10(c));
  }

  lemma Reassociate(m: int, a: int, k: int, c: int)
    requires m >= 0 && a >= 1 && k >= 1 && c >= 1
    ensures m * (a * k * c) == m * a * k * c
    ensures m * (a * k) == m * a * k
    ensures m * (a * k * c) >= m * (a * k)
  {
    assert m * (a * k) == m * a * k;
    var t := m * (a * k);
    assert m * (a * k * c) == t * c;
    assert t >= 0;
    assert t * c >= t;
  }

  lemma RationalOrder(a: int, b: int, p: int, q: int)
    requires p > 0 && q > 0
    ensures a as real / p as real < b as real / q as real <==> a * q < b * p
    ensures a as real / p as real == b as real / q as real <==> a * q == b * p
  {
    var u, v := a as real / p as real, b as real / q as real;
    var pr, qr := p as real, q as real;
    assert u * pr == a as real && v * qr == b as real;
    assert (a * q) as real == u * pr * qr by { assert (a * q) as real == a as real * qr; }
    assert (b * p) as real == v * pr * qr by { assert (b * p) as real == b as real * pr; }
    var k := pr * qr;
    assert k > 0.0;
    assert u * pr * qr == u * k && v * pr * qr == v * k;
    if u < v { assert u * k < v * k; } else if v < u { assert v * k < u * k; }
  }

  /** The cross product order is the order of the values +-m/10^scale. */
  lemma CrossOrderIsValueOrder(l: Decimal, r: Decimal)
    ensures CrossOrder(l, r) == -1 <==> l.Value() < r.Value()
    ensures CrossOrder(l, r) == 0 <==> l.Value() == r.Value()
    ensures CrossOrder(l, r) == 1 <==> l.Value() > r.Value()
  {
    RationalOrder(l.Signed(), r.Signed(), Pow10(l.scale), Pow10(r.scale));
  }

  /** The sign bit and the mantissa say on which side of zero the value lies, at any scale. */
  lemma SideOfZero(d: Decimal)
    ensures d.Value() < 0.0 <==> d.sign / 0x80 % 2 == 1 && d.Mantissa() != 0
    ensures d.Value() == 0.0 <==> d.Mantissa() == 0
  {
    TheTopBitIsTheSign(d);
    RationalOrder(d.Signed(), 0, Pow10(d.scale), 1);
  }

  // ---------- CompareMantissas ----------

  /** Limb-wise comparison, ignoring sign and scale. */
  function CompareMantissas(l: Decimal, r: Decimal): (c: int)
    ensures c == Sign(l.Mantissa() - r.Mantissa())
  {
    if l.hi32 < r.hi32 then -1
    else if l.hi32 > r.hi32 then 1
    else if l.Lo64() < r.Lo64() then -1
    else if l.Lo64() > r.Lo64() then 1
    else 0
  }

  // ---------- one rescale round ----------

  const powersOfTen: seq<uint32> :=
    [10, 100, 1000, 10000, 100000, 1000000, 10000000, 100000000, 1000000000]
  const largestPower := 9

  lemma TableHoldsPowers(k: int)
    requires 1 <= k <= largestPower
    ensures powersOfTen[k - 1] == Pow10(k)
    ensures 10 <= Pow10(k) <= 1000000000
  {
    assert Pow10(1) == 10 && Pow10(2) == 100 && Pow10(3) == 1000;
    assert Pow10(4) == 10000 && Pow10(5) == 100000 && Pow10(6) == 1000000;
    assert Pow10(7) == 10000000 && Pow10(8) == 100000000 && Pow10(9) == 1000000000;
  }

  /** One limb of the carry chain: a 32 bit limb times a 32 bit multiplier plus a 32 bit carry
      fits 64 bits, so neither the product nor the new carry is truncated. */
  lemma LimbProduct(limb: uint32, power: uint32, carry: uint32)
    ensures 0 <= limb * power + carry < TWO64
    ensures (limb * power + carry) % TWO64 == limb * power + carry
    ensures 0 <= (limb * power + carry) / TWO32 < TWO32
  {
    ProductBound(limb, power, TWO32 - 1);
    SmallModulus(limb * power + carry);
  }

  lemma ProductBound(a: int, b: int, n: int)
    requires 0 <= a <= n && 0 <= b <= n
    ensures 0 <= a * b <= n * n
  {
    assert a * (n - b) >= 0;
    assert n * (n - a) >= 0;
  }

  lemma SmallModulus(p: int)
    requires 0 <= p < TWO64
    ensures p % TWO64 == p
    ensures 0 <= p / TWO32 < TWO32
  {
  }

  lemma LimbSplit(p: int)
    ensures p == p / TWO32 * TWO32 + p % TWO32
  {
  }

  /** One step of the multiplication: the low 32 bits and the carry out of limb * power + carry. */
  method MultiplyLimb(limb: uint32, power: uint32, carry: uint32) returns (low: uint32, high: uint32)
    ensures high * TWO32 + low == limb * power + carry
  {
    LimbProduct(limb, power, carry);
    LimbSplit(limb * power + carry);
    var product := (limb * power + carry) % TWO64;
    low := product % TWO32;
    high := (product / TWO32) % TWO32;
  }

  /** How many decimal digits one round moves: the gap, but at most the table's largest power. */
  function RoundDigits(from: uint8, to: uint8): int {
    if to - from > largestPower then largestPower else to - from
  }

  /** Multiplies temp's mantissa by the power of ten that moves its scale towards scale,
      at most nine digits at a time. On overflow the two low limbs are already overwritten. */
  method RescaleRound(temp: Decimal, scale: uint8) returns (next: Decimal, overflow: bool)
    requires temp.scale < scale
    ensures var k := RoundDigits(temp.scale, scale);
      && (overflow <==> temp.Mantissa() * Pow10(k) >= TWO96)
      && (!overflow ==> next.Mantissa() == temp.Mantissa() * Pow10(k) && next.scale == temp.scale + k)
      && (overflow ==> next.scale == temp.scale && next.hi32 == temp.hi32)
    ensures next.sign == temp.sign
  {
    next := temp;
    var scaleDiff := scale - temp.scale;
    if scaleDiff > largestPower {
      scaleDiff := largestPower;
    }
    var power := powersOfTen[scaleDiff - 1];
    TableHoldsPowers(scaleDiff);
    var low, carry := MultiplyLimb(next.lo32, power, 0);
    next := next.(lo32 := low);
    var mid, carry2 := MultiplyLimb(next.mid32, power, carry);
    next := next.(mid32 := mid);
    var hi, carry3 := MultiplyLimb(next.hi32, power, carry2);
    MantissaTimes(temp, power, low, carry, mid, carry2, hi, carry3);
    overflow := carry3 != 0;
    if overflow {
      return;
    }
    next := next.(hi32 := hi);
    next := next.(scale := (next.scale + scaleDiff) % 0x100);
  }

  lemma MantissaTimes(d: Decimal, power: uint32, lo: uint32, c1: uint32, mid: uint32, c2: uint32, hi: uint32, c3: uint32)
    requires c1 * TWO32 + lo == d.lo32 * power
    requires c2 * TWO32 + mid == d.mid32 * power + c1
    requires c3 * TWO32 + hi == d.hi32 * power + c2
    ensures d.Mantissa() * power == c3 * TWO96 + hi * TWO64 + mid * TWO32 + lo
    ensures d.Mantissa() * power >= TWO96 <==> c3 != 0
  {
    assert d.Mantissa() * power == (d.hi32 * power) * TWO64 + (d.mid32 * power) * TWO32 + d.lo32 * power;
  }

  // ---------- VarDecCmp ----------

  /** The order of the smaller-scale operand against the larger-scale one, at the common scale. */
  ghost function AlignedSign(small: Decimal, big: Decimal): int
    requires small.scale <= big.scale
  {
    Sign(small.Mantissa() * Pow10(big.scale - small.scale) - big.Mantissa())
  }

  lemma OverflowDecides(small: Decimal, big: Decimal, temp: Decimal, k: nat)
    requires small.scale <= temp.scale && temp.scale + k <= big.scale
    requires temp.Mantissa() == small.Mantissa() * Pow10(temp.scale - small.scale)
    requires temp.Mantissa() * Pow10(k) > big.Mantissa()
    ensures AlignedSign(small, big) == 1
  {
    var a, c := temp.scale - small.scale, big.scale - temp.scale - k;
    ChainedScaling(small.Mantissa(), a, k, c);
    assert a + k + c == big.scale - small.scale;
  }

  lemma SameSignOrder(l: Decimal, r: Decimal)
    requires l.Negative() == r.Negative()
    ensures l.scale < r.scale ==>
      CrossOrder(l, r) == if l.Negative() then -AlignedSign(l, r) else AlignedSign(l, r)
    ensures r.scale <= l.scale ==>
      CrossOrder(l, r) == if l.Negative() then AlignedSign(r, l) else -AlignedSign(r, l)
  {
    var x: int, y: int := l.Mantissa(), r.Mantissa();
    if l.scale < r.scale {
      AlignedOrder(l.scale, r.scale, x, y);
    } else {
      AlignedOrder(r.scale, l.scale, y, x);
    }
    NegatedProducts(x, y, Pow10(r.scale), Pow10(l.scale));
  }

  lemma NegatedProducts(x: int, y: int, p: int, q: int)
    ensures (-x) * p - (-y) * q == -(x * p - y * q)
  {
  }

  lemma UnlikeSignOrder(l: Decimal, r: Decimal)
    requires l.Mantissa() == 0 || r.Mantissa() == 0 || l.Negative() != r.Negative()
    ensures CrossOrder(l, r) == Sign(Sign(l.Signed()) - Sign(r.Signed()))
  {
    SignOfScaled(l.Signed(), Pow10(r.scale));
    SignOfScaled(r.Signed(), Pow10(l.scale));
  }

  /** Returns the VARCMP code of the exact rational order, for every pair of decimals. */
  method VarDecCmp(pdecLeft: Option<Decimal>, pdecRight: Option<Decimal>) returns (code: int)
    ensures pdecLeft.None? || pdecRight.None? ==> code == VARCMP_NULL
    ensures pdecLeft.Some? && pdecRight.Some? ==> code == VARCMP_EQ + CrossOrder(pdecLeft.value, pdecRight.value)
  {
    if pdecLeft.None? || pdecRight.None? {
      return VARCMP_NULL;
    }
    var left, right := pdecLeft.value, pdecRight.value;
    ghost var l, r := left, right;
    var bLeftZero := left.Lo64() == 0 && left.hi32 == 0;
    var bRightZero := right.Lo64() == 0 && right.hi32 == 0;
    if bLeftZero || bRightZero || left.Negative() != right.Negative() { UnlikeSignOrder(l, r); }
    if bLeftZero && bRightZero {
      return VARCMP_EQ;
    }
    var bLeftNeg := left.Negative();
    var bRightNeg := right.Negative();
    if bLeftZero {
      return if bRightNeg then VARCMP_GT else VARCMP_LT;
    }
    if bRightZero || bLeftNeg != bRightNeg {
      return if bLeftNeg then VARCMP_LT else VARCMP_GT;
    }

    var temp: Decimal;
    var bInvert := bLeftNeg;
    if left.scale < right.scale {
      temp := left;
    } else {
      temp := right;
      right := left;
      bInvert := !bInvert;
    }
    ghost var small := temp;
    SameSignOrder(l, r);

    var comp := CompareMantissas(temp, right);
    while comp < 0 && temp.scale < right.scale
      invariant small.scale <= temp.scale <= right.scale
      invariant temp.Mantissa() == small.Mantissa() * Pow10(temp.scale - small.scale)
      invariant comp == CompareMantissas(temp, right)
      decreases right.scale - temp.scale
    {
      ghost var before := temp;
      ghost var k: nat := RoundDigits(temp.scale, right.scale);
      var overflow;
      temp, overflow := RescaleRound(temp, right.scale);
      if overflow {
        OverflowDecides(small, right, before, k);
        break;
      }
      ChainedScaling(small.Mantissa(), before.scale - small.scale, k, 0);
      comp := CompareMantissas(temp, right);
    }
    if temp.scale < right.scale {
      if comp >= 0 { EarlyStopDecides(small, right, temp); }
      comp := 1;
    }
    assert comp == AlignedSign(small, right);
    if bInvert {
      comp := -comp;
    }
    return if comp > 0 then VARCMP_GT else if comp < 0 then VARCMP_LT else VARCMP_EQ;
  }

  /** Stopping early with the smaller-scale mantissa not below the other one decides the order. */
  lemma EarlyStopDecides(small: Decimal, big: Decimal, temp: Decimal)
    requires small.scale <= temp.scale < big.scale
    requires small.Mantissa() > 0
    requires temp.Mantissa() == small.Mantissa() * Pow10(temp.scale - small.scale)
    requires temp.Mantissa() >= big.Mantissa()
    ensures AlignedSign(small, big) == 1
  {
    PositiveProduct(small.Mantissa(), Pow10(temp.scale - small.scale));
    TableHoldsPowers(1);
    TenfoldIsMore(temp.Mantissa(), Pow10(1));
    OverflowDecides(small, big, temp, 1);
  }

  lemma PositiveProduct(a: int, b: int)
    requires a > 0 && b > 0
    ensures a * b > 0
  {
  }

  lemma TenfoldIsMore(m: int, power: int)
    requires m > 0 && power >= 10
    ensures m * power > m
  {
    PositiveProduct(m, power - 1);
    assert m * power == m * (power - 1) + m;
  }

  // ---------- the list view comparator ----------

  function DecimalOrder(l: Decimal, r: Decimal, bDescending: bool): int {
    if bDescending then -CrossOrder(l, r) else CrossOrder(l, r)
  }

  method LVCompareDecimal(dec1: Decimal, dec2: Decimal, bDescending: bool) returns (nRet: int)
    ensures nRet == DecimalOrder(dec1, dec2, bDescending)
    ensures !bDescending ==> (nRet < 0 <==> dec1.Value() < dec2.Value()) && (nRet == 0 <==> dec1.Value() == dec2.Value())
    ensures bDescending ==> (nRet < 0 <==> dec1.Value() > dec2.Value()) && (nRet == 0 <==> dec1.Value() == dec2.Value())
  {
    CrossOrderIsValueOrder(dec1, dec2);
    nRet := VarDecCmp(Some(dec1), Some(dec2));
    nRet := nRet - 1;
    return if bDescending then -nRet else nRet;
  }

  /** Ascending puts the smaller value first, descending the larger. */
  lemma OrderFollowsDirection(l: Decimal, r: Decimal)
    ensures DecimalOrder(l, r, false) < 0 <==> l.Value() < r.Value()
    ensures DecimalOrder(l, r, true) < 0 <==> l.Value() > r.Value()
    ensures forall desc :: DecimalOrder(l, r, desc) == 0 <==> l.Value() == r.Value()
  {
    CrossOrderIsValueOrder(l, r);
  }

  /** Swapping the operands, or the direction, exactly reverses the answer. */
  lemma OrderIsAntisymmetric(l: Decimal, r: Decimal, desc: bool)
    ensures DecimalOrder(r, l, desc) == -DecimalOrder(l, r, desc)
    ensures DecimalOrder(l, r, !desc) == DecimalOrder(r, l, desc)
    ensures DecimalOrder(l, l, desc) == 0
  {
    CrossOrderIsValueOrder(l, r);
    CrossOrderIsValueOrder(r, l);
    CrossOrderIsValueOrder(l, l);
  }

  /** "Not after" is transitive, and a strict step anywhere makes the whole chain strict. */
  lemma OrderIsTransitive(a: Decimal, b: Decimal, c: Decimal, desc: bool)
    requires DecimalOrder(a, b, desc) <= 0 && DecimalOrder(b, c, desc) <= 0
    ensures DecimalOrder(a, c, desc) <= 0
    ensures DecimalOrder(a, c, desc) == 0 <==> DecimalOrder(a, b, desc) == 0 && DecimalOrder(b, c, desc) == 0
  {
    CrossOrderIsValueOrder(a, b);
    CrossOrderIsValueOrder(b, c);
    CrossOrderIsValueOrder(a, c);
  }

  /** Decimals that compare equal are interchangeable in every other comparison. */
  lemma EqualDecimalsInterchange(a: Decimal, b: Decimal, c: Decimal, desc: bool)
    requires DecimalOrder(a, b, desc) == 0
    ensures DecimalOrder(b, a, desc) == 0
    ensures DecimalOrder(a, c, desc) == DecimalOrder(b, c, desc)
    ensures DecimalOrder(c, a, desc) == DecimalOrder(c, b, desc)
  {
    CrossOrderIsValueOrder(a, b);
    CrossOrderIsValueOrder(a, c);
    CrossOrderIsValueOrder(b, c);
    OrderIsAntisymmetric(a, b, desc);
    OrderIsAntisymmetric(a, c, desc);
    OrderIsAntisymmetric(b, c, desc);
  }
}
