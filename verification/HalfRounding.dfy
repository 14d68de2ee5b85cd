/** Conversion of a 32-bit float to a 16-bit float with rounding to nearest, ties to even, done on the
bit patterns: the last part of CreateFpTruncWithRounding in lgc/builder/ArithBuilder.cpp.

Bit operations on disjoint or lowest bits are written with division, remainder and addition.
Magnitudes are exact integers: those of 32-bit floats in units of 2^-149, and those of 16-bit floats
in units of 2^-24.
*/
module HalfRounding {
  function Pow2(n: nat): (r: nat)
    ensures r > 0
  {
    if n == 0 then 1 else 2 * Pow2(n - 1)
  }

  lemma {:induction false} Pow2Adds(a: nat, b: nat)
    ensures Pow2(a + b) == Pow2(a) * Pow2(b)
    decreases a
  {
    if a != 0 {
      Pow2Adds(a - 1, b);
      TimesTwo(Pow2(a - 1), Pow2(b));
    }
  }

  lemma TimesTwo(x: nat, y: nat)
    ensures 2 * x * y == 2 * (x * y)
  {
  }

  // ----- the rounding step -----

  /** Add the lowest bit that is kept, add just under half of what is discarded, and discard k bits. */
  function RoundShift(m: nat, k: nat): nat
  {
    Rounded(m, ShiftRight(m, Pow2(k)), Pow2(k))
  }

  function Rounded(m: nat, kept: nat, d: nat): nat
    requires 0 < d
  {
    var lowest := kept % 2;
    var rounder := (d - 1) / 2;
    ShiftRight(m + lowest + rounder, d)
  }

  /** A logical shift right by k bits, given d = 2^k. */
  function ShiftRight(m: nat, d: nat): (q: nat)
    requires 0 < d
    ensures q * d <= m < q * d + d
  {
    assert m == m / d * d + m % d;
    m / d
  }

  /** q is the integer nearest to m / d, the even one if two are equally near. */
  predicate NearestEven(m: int, d: int, q: int)
  {
    -d <= 2 * (q * d - m) <= d && (2 * (q * d - m) == d || 2 * (q * d - m) == -d ==> q % 2 == 0)
  }

  lemma RoundShiftIsNearestEven(m: nat, k: nat)
    requires 1 <= k
    ensures NearestEven(m, Pow2(k), RoundShift(m, k))
  {
    hide NearestEven;
    hide Rounded;
    hide ShiftRight;
    var d := Pow2(k);
    assert d == 2 * Pow2(k - 1);
    var q := ShiftRight(m, d);
    AddAndDivide(m, d, Pow2(k - 1), q, m - q * d);
  }

  lemma AddAndDivide(m: nat, d: nat, h: nat, q: nat, r: nat)
    requires d == 2 * h && 0 < h && m == q * d + r && r < d
    ensures NearestEven(m, d, Rounded(m, q, d))
  {
    hide NearestEven;
    hide ShiftRight;
    var s := r + q % 2 + (h - 1);
    assert (d - 1) / 2 == h - 1;
    Distribute(q, 1, d);
    if s < d {
      QuotientIs(q * d + s, d, q, s);
      NearestBelow(m, d, q, r);
    } else {
      QuotientIs(q * d + s, d, q + 1, s - d);
      NearestAbove(m, d, q, r);
    }
  }

  lemma NearestBelow(m: nat, d: nat, q: nat, r: nat)
    requires m == q * d + r && 2 * r <= d && (2 * r == d ==> q % 2 == 0)
    ensures NearestEven(m, d, q)
  {
  }

  lemma NearestAbove(m: nat, d: nat, q: nat, r: nat)
    requires m == q * d + r && r < d && 2 * r >= d && (2 * r == d ==> (q + 1) % 2 == 0)
    ensures NearestEven(m, d, q + 1)
  {
    Distribute(q, 1, d);
  }

  lemma Distribute(a: int, b: int, d: int)
    ensures (a + b) * d == a * d + b * d
  {
  }

  lemma QuotientIs(x: nat, d: nat, q: nat, r: nat)
    requires x == q * d + r && r < d
    ensures ShiftRight(x, d) == q
  {
    var p := ShiftRight(x, d);
    if p < q {
      MulMonotone(p + 1, q, d);
      Distribute(p, 1, d);
    } else if q < p {
      MulMonotone(q + 1, p, d);
      Distribute(q, 1, d);
    }
  }

  lemma MulMonotone(a: nat, b: nat, u: nat)
    requires a <= b && 0 < u
    ensures a * u <= b * u && (a < b ==> a * u < b * u)
  {
    Distribute(a, b - a, u);
    if a < b {
      Distribute(1, b - a - 1, u);
    }
  }

  // ----- the conversion -----

  const INF16: nat := 0x7C00

  /** CreateFpTruncWithRounding for one element.  The shift amounts are only defined when the exponent is
      not too small, so the result for too small exponents is selected first. */
  function TruncToHalf(bits32: nat): nat
    requires bits32 < 0x1_0000_0000
  {
    var sign16 := SignBit(bits32);
    var exp32 := bits32 / 0x80_0000 % 0x100;
    var exp16 := exp32 - (127 - 15);
    var mant32 := bits32 % 0x80_0000;
    var isNanInf := exp32 == 0xFF;
    var isNan := isNanInf && mant32 != 0;
    var inf16 := sign16 + 0x7C00;
    var nan16 := inf16 + NanPayload(mant32);
    var combined16 := Combined(exp16, mant32);
    if isNan then nan16
    else if isNanInf || combined16 >= 0x7C00 then inf16
    else combined16 + sign16
  }

  function SignBit(bits32: nat): nat { bits32 / 0x1_0000 / 0x8000 * 0x8000 }

  /** The upper bits of the mantissa with the lowest bit set. */
  function NanPayload(mant32: nat): nat { mant32 / 0x2000 / 2 * 2 + 1 }

  /** Exponent and mantissa of the result, added so that a carry out of the mantissa increments the exponent. */
  function Combined(exp16: int, mant32: nat): nat
  {
    var isTooSmall := exp16 < -10;
    var isDenorm := exp16 <= 0;
    if isTooSmall then 0
    else
      var numBitsToDiscard := if isDenorm then 14 - exp16 else 13;
      var mant := if isDenorm then mant32 + 0x80_0000 else mant32;
      RoundShift(mant, numBitsToDiscard) + (if isDenorm then 0 else exp16) * 0x400
  }

  // ----- magnitudes -----

  /** The magnitude of the 16-bit pattern `p`; the pattern of infinity counts as the power of two it would be. */
  function HalfMagnitude(p: nat): nat
  {
    var e, f := p / 0x400, p % 0x400;
    if e == 0 then f else (0x400 + f) * Pow2(e - 1)
  }

  /** The magnitude of a finite 32-bit float with the given exponent and mantissa fields. */
  function SingleMagnitude(e: nat, m: nat): nat
  {
    if e == 0 then m else (0x80_0000 + m) * Pow2(e - 1)
  }

  /** One unit of 16-bit magnitudes in units of 32-bit magnitudes: 2^-24 / 2^-149. */
  function Unit(): (u: nat)
    ensures 0 < u
  {
    Pow2(125)
  }

  function Abs(x: int): nat { if x < 0 then -x else x }

  function Distance(single: nat, p: nat): nat { Abs(single - HalfMagnitude(p) * Unit()) }

  /** Rounding to nearest, ties to even (section 4.3.1 of IEEE 754-2019): no pattern up to infinity is nearer,
      and if another one is equally near then this one is even.  Magnitudes from halfway between the largest
      finite number and the next power of two on round to infinity. */
  ghost predicate RoundsTo(single: nat, p: nat)
  {
    p <= INF16 &&
    forall q: nat :: q <= INF16 && q != p ==>
                       Distance(single, p) <= Distance(single, q) &&
                       (Distance(single, p) == Distance(single, q) ==> p % 2 == 0)
  }

  // ----- neighbours decide -----

  lemma HalfStep(p: nat)
    ensures HalfMagnitude(p + 1) > HalfMagnitude(p)
    ensures p >= 0x400 ==> HalfMagnitude(p + 1) - HalfMagnitude(p) == Pow2(p / 0x400 - 1)
    ensures p < 0x400 ==> HalfMagnitude(p + 1) == p + 1 && HalfMagnitude(p) == p
  {
    var e, f := p / 0x400, p % 0x400;
    if e != 0 {
      if f == 0x3FF {
        assert (p + 1) / 0x400 == e + 1 && (p + 1) % 0x400 == 0;
        assert Pow2(e) == 2 * Pow2(e - 1);
      } else {
        assert (p + 1) / 0x400 == e && (p + 1) % 0x400 == f + 1;
        Distribute(0x400 + f, 1, Pow2(e - 1));
      }
    } else if f == 0x3FF {
      assert (p + 1) / 0x400 == 1 && (p + 1) % 0x400 == 0;
    }
  }

  lemma {:induction false} HalfIncreases(p: nat, q: nat)
    requires p < q
    ensures HalfMagnitude(p) < HalfMagnitude(q)
    decreases q
  {
    HalfStep(q - 1);
    if p < q - 1 { HalfIncreases(p, q - 1); }
  }

  /** Twice the point halfway between pattern `p` and the next one. */
  function TwiceMiddle(p: nat): nat { (HalfMagnitude(p) + HalfMagnitude(p + 1)) * Unit() }

  /** The magnitude is at least the middle below `p`, and on it only if `p` is even. */
  predicate AboveMiddle(single: nat, p: nat)
  {
    0 < p ==> TwiceMiddle(p - 1) <= 2 * single && (TwiceMiddle(p - 1) == 2 * single ==> p % 2 == 0)
  }

  predicate BelowMiddle(single: nat, p: nat)
  {
    2 * single <= TwiceMiddle(p) && (TwiceMiddle(p) == 2 * single ==> p % 2 == 0)
  }

  lemma NotNearerBelow(single: nat, p: nat, q: nat)
    requires AboveMiddle(single, p) && q < p
    ensures Distance(single, p) <= Distance(single, q)
    ensures Distance(single, p) == Distance(single, q) ==> p % 2 == 0
  {
    hide HalfMagnitude;
    hide Unit;
    if q < p - 1 { HalfIncreases(q, p - 1); }
    HalfIncreases(p - 1, p);
    FarBelow(HalfMagnitude(p), HalfMagnitude(p - 1), HalfMagnitude(q), Unit(), single);
  }

  lemma NotNearerAbove(single: nat, p: nat, q: nat)
    requires BelowMiddle(single, p) && p < q
    ensures Distance(single, p) <= Distance(single, q)
    ensures Distance(single, p) == Distance(single, q) ==> p % 2 == 0
  {
    hide HalfMagnitude;
    hide Unit;
    if p + 1 < q { HalfIncreases(p + 1, q); }
    HalfIncreases(p, p + 1);
    FarAbove(HalfMagnitude(p), HalfMagnitude(p + 1), HalfMagnitude(q), Unit(), single);
  }

  lemma FarBelow(p: nat, n: nat, q: nat, u: nat, x: nat)
    requires q <= n < p && 0 < u && (n + p) * u <= 2 * x
    ensures Abs(x - p * u) <= Abs(x - q * u)
    ensures Abs(x - p * u) == Abs(x - q * u) ==> (n + p) * u == 2 * x
  {
    MulMonotone(q, n, u);
    MulMonotone(n, p, u);
    Distribute(n, p, u);
  }

  lemma FarAbove(p: nat, n: nat, q: nat, u: nat, x: nat)
    requires p < n <= q && 0 < u && 2 * x <= (p + n) * u
    ensures Abs(x - p * u) <= Abs(x - q * u)
    ensures Abs(x - p * u) == Abs(x - q * u) ==> (p + n) * u == 2 * x
  {
    MulMonotone(n, q, u);
    MulMonotone(p, n, u);
    Distribute(p, n, u);
  }

  /** A pattern between its middles is the rounded one; beyond the largest finite pattern, infinity is. */
  lemma MiddlesDecide(single: nat, p: nat)
    requires AboveMiddle(single, p) && BelowMiddle(single, p)
    ensures RoundsTo(single, if p < INF16 then p else INF16)
  {
    hide Distance;
    hide AboveMiddle;
    hide BelowMiddle;
    var r := if p < INF16 then p else INF16;
    if INF16 < p { AboveLowerMiddle(single, p, INF16); }
    forall q: nat | q <= INF16 && q != r
      ensures Distance(single, r) <= Distance(single, q)
      ensures Distance(single, r) == Distance(single, q) ==> r % 2 == 0
    {
      if q < r { NotNearerBelow(single, r, q); } else { NotNearerAbove(single, r, q); }
    }
  }

  lemma AboveLowerMiddle(single: nat, p: nat, q: nat)
    requires AboveMiddle(single, p) && 0 < q < p && q % 2 == 0
    ensures AboveMiddle(single, q)
  {
    hide HalfMagnitude;
    hide Unit;
    HalfIncreases(q - 1, p - 1);
    HalfIncreases(q, p);
    MulMonotone(HalfMagnitude(q - 1) + HalfMagnitude(q), HalfMagnitude(p - 1) + HalfMagnitude(p), Unit());
  }

  // ----- what the definition of rounding implies -----

  /** Larger magnitudes round to no smaller patterns; with equal magnitudes, the rounded pattern is unique. */
  lemma RoundingIsMonotone(x: nat, y: nat, p: nat, q: nat)
    requires RoundsTo(x, p) && RoundsTo(y, q) && x <= y
    ensures p <= q
  {
    hide HalfMagnitude;
    hide Unit;
    if q < p {
      HalfIncreases(q, p);
      MulMonotone(HalfMagnitude(q), HalfMagnitude(p), Unit());
      assert Distance(x, p) <= Distance(x, q) && Distance(y, q) <= Distance(y, p);
      assert x == y;
      assert q + 1 < p;
      NearerBetween(x, q, q + 1, p);
    }
  }

  lemma NearerBetween(single: nat, p: nat, n: nat, q: nat)
    requires p < n < q && Distance(single, p) == Distance(single, q)
    ensures Distance(single, n) < Distance(single, p)
  {
    hide HalfMagnitude;
    hide Unit;
    HalfIncreases(p, n);
    HalfIncreases(n, q);
    MulMonotone(HalfMagnitude(p), HalfMagnitude(n), Unit());
    MulMonotone(HalfMagnitude(n), HalfMagnitude(q), Unit());
  }

  /** A magnitude that a 16-bit float has rounds to that float. */
  lemma RepresentableRoundsToItself(p: nat, q: nat)
    requires p <= INF16 && RoundsTo(HalfMagnitude(p) * Unit(), q)
    ensures q == p
  {
    hide HalfMagnitude;
    hide Unit;
    if q != p {
      var x := HalfMagnitude(p) * Unit();
      assert Distance(x, q) <= Distance(x, p);
      if q < p {
        HalfIncreases(q, p);
        MulMonotone(HalfMagnitude(q), HalfMagnitude(p), Unit());
      } else {
        HalfIncreases(p, q);
        MulMonotone(HalfMagnitude(p), HalfMagnitude(q), Unit());
      }
    }
  }

  // ----- the cases of the conversion -----

  lemma TooSmallRoundsToZero(e: nat, m: nat)
    requires e < 102 && m < 0x80_0000
    ensures RoundsTo(SingleMagnitude(e, m), 0)
  {
    hide Pow2;
    var x := SingleMagnitude(e, m);
    assert 2 * x <= Unit() by {
      assert Pow2(24) == 0x100_0000 by { Pow2Of24(); }
      if e == 0 {
        Pow2Increases(24, 125);
      } else {
        MulMonotone(0x80_0000 + m, Pow2(24), Pow2(e - 1));
        Pow2Adds(24, e - 1);
        Pow2Increases(e + 24, 125);
        Pow2Next(e + 23);
      }
    }
    MiddlesDecide(x, 0);
  }

  lemma Pow2Of24()
    ensures Pow2(13) == 0x2000 && Pow2(24) == 0x100_0000
  {
    assert Pow2(12) == 0x1000;
    Pow2Adds(12, 12);
  }

  lemma Pow2Next(n: nat)
    ensures Pow2(n + 1) == 2 * Pow2(n)
  {
  }

  lemma {:induction false} Pow2Increases(a: nat, b: nat)
    requires a <= b
    ensures Pow2(a) <= Pow2(b)
    decreases b
  {
    if a < b { Pow2Increases(a, b - 1); }
  }

  lemma SmallHalves(p: nat)
    requires p <= 2047
    ensures HalfMagnitude(p) == p
  {
    assert Pow2(0) == 1;
  }

  /** The result between middles, from the nearest integer to the quotient of the mantissa: both sides of
      the comparison are scaled by the power of two `s` that belongs to the exponent. */
  lemma Scaled(m: int, d: int, q: int, s: nat)
    requires NearestEven(m, d, q) && 0 < s
    ensures (2 * q - 1) * (d * s) <= 2 * (m * s) <= (2 * q + 1) * (d * s)
    ensures (2 * q - 1) * (d * s) == 2 * (m * s) || 2 * (m * s) == (2 * q + 1) * (d * s) ==> q % 2 == 0
  {
    Reassociate(2 * q - 1, d, s);
    Reassociate(2 * q + 1, d, s);
    Reassociate(2, m, s);
    Distribute(2 * q, -1, d);
    Distribute(2 * q, 1, d);
    MulOrder((2 * q - 1) * d, 2 * m, s);
    MulOrder(2 * m, (2 * q + 1) * d, s);
  }

  lemma Reassociate(a: int, b: int, c: int)
    ensures a * (b * c) == (a * b) * c
  {
  }

  lemma MulOrder(a: int, b: int, s: nat)
    requires a <= b && 0 < s
    ensures a * s <= b * s && (a < b ==> a * s < b * s)
  {
    Distribute(a, b - a, s);
    if a < b { MulMonotone(0, b - a, s); }
  }

  /** Denormal results: the whole mantissa is shifted and no exponent is added. */
  lemma DenormRounds(e: nat, m: nat)
    requires 102 <= e <= 112 && m < 0x80_0000
    ensures RoundsTo(SingleMagnitude(e, m), Combined(e - 112, m)) && Combined(e - 112, m) <= 0x400
  {
    hide Pow2;
    hide RoundShift;
    hide HalfMagnitude;
    var k := 126 - e;
    var n := 0x80_0000 + m;
    var q := RoundShift(n, k);
    RoundShiftIsNearestEven(n, k);
    Pow2Adds(k, e - 1);
    Scaled(n, Pow2(k), q, Pow2(e - 1));
    SmallQuotient(n, k, q);
    SmallHalves(q);
    SmallHalves(q + 1);
    if 0 < q { SmallHalves(q - 1); }
    assert Pow2(k) * Pow2(e - 1) == Unit();
    MiddlesDecide(SingleMagnitude(e, m), q);
  }

  lemma SmallQuotient(n: nat, k: nat, q: nat)
    requires n < 0x100_0000 && 14 <= k && NearestEven(n, Pow2(k), q)
    ensures q <= 0x400
  {
    hide Pow2;
    Pow2Of24();
    Pow2Increases(14, k);
    Pow2Next(13);
    if 0x400 < q { MulMonotone(0x401, q, Pow2(k)); }
  }

  /** A normal pattern, or the pattern after the largest one with its exponent. */
  lemma NormalHalf(e16: nat, q: nat)
    requires 1 <= e16 && q <= 0x400
    ensures HalfMagnitude(q + e16 * 0x400) == (0x400 + q) * Pow2(e16 - 1)
  {
    var p := q + e16 * 0x400;
    if q < 0x400 {
      assert p / 0x400 == e16 && p % 0x400 == q;
    } else {
      assert p / 0x400 == e16 + 1 && p % 0x400 == 0;
      Pow2Next(e16 - 1);
    }
  }

  /** Twice the middle after a normal pattern, in units of its last place. */
  lemma NormalMiddle(e16: nat, q: nat)
    requires 1 <= e16 && q < 0x400
    ensures TwiceMiddle(q + e16 * 0x400) == (2 * q + 0x801) * (Pow2(e16 - 1) * Unit())
  {
    hide Pow2;
    hide HalfMagnitude;
    hide Unit;
    NormalHalf(e16, q);
    NormalHalf(e16, q + 1);
    Distribute(0x400 + q, 0x401 + q, Pow2(e16 - 1));
    Reassociate(2 * q + 0x801, Pow2(e16 - 1), Unit());
  }

  /** The last place of the result is 13 bits above the last place of the operand. */
  lemma LastPlace(e: nat)
    requires 113 <= e
    ensures Pow2(e - 113) * Unit() == 0x2000 * Pow2(e - 1)
  {
    hide Pow2;
    Pow2Of24();
    Pow2Adds(13, e - 1);
    Pow2Adds(e - 113, 125);
  }

  lemma NormalSingle(e: nat, m: nat)
    requires 113 <= e
    ensures 2 * SingleMagnitude(e, m) == 0x800 * (0x2000 * Pow2(e - 1)) + 2 * (m * Pow2(e - 1))
  {
    hide Pow2;
    Distribute(0x80_0000, m, Pow2(e - 1));
  }

  lemma NormalAbove(e: nat, m: nat, q: nat)
    requires 113 <= e && NearestEven(m, 0x2000, q) && q <= 0x400
    ensures AboveMiddle(SingleMagnitude(e, m), q + (e - 112) * 0x400)
  {
    hide Pow2;
    hide RoundShift;
    hide HalfMagnitude;
    hide SingleMagnitude;
    hide TwiceMiddle;
    hide Unit;
    hide NearestEven;
    NormalSingle(e, m);
    LastPlace(e);
    var w := 0x2000 * Pow2(e - 1);
    if q == 0 {
      BelowNormal(e - 112);
    } else {
      Scaled(m, 0x2000, q, Pow2(e - 1));
      NormalMiddle(e - 112, q - 1);
      Distribute(2 * q - 1, 0x800, w);
    }
  }

  /** The middle before the smallest pattern with an exponent is below that pattern. */
  lemma BelowNormal(e16: nat)
    requires 1 <= e16
    ensures TwiceMiddle(e16 * 0x400 - 1) < 0x800 * (Pow2(e16 - 1) * Unit())
  {
    hide Pow2;
    hide HalfMagnitude;
    hide Unit;
    var p := e16 * 0x400;
    NormalHalf(e16, 0);
    HalfIncreases(p - 1, p);
    MulMonotone(HalfMagnitude(p - 1) + HalfMagnitude(p), 0x800 * Pow2(e16 - 1), Unit());
    Reassociate(0x800, Pow2(e16 - 1), Unit());
  }

  lemma NormalBelow(e: nat, m: nat, q: nat)
    requires 113 <= e && NearestEven(m, 0x2000, q) && q <= 0x400 && m < 0x80_0000
    ensures BelowMiddle(SingleMagnitude(e, m), q + (e - 112) * 0x400)
  {
    hide Pow2;
    hide RoundShift;
    hide HalfMagnitude;
    hide SingleMagnitude;
    hide TwiceMiddle;
    hide Unit;
    hide NearestEven;
    hide BelowMiddle;
    if q == 0x400 {
      CarryBelow(e, m);
    } else {
      SameExponentBelow(e, m, q);
    }
  }

  lemma SameExponentBelow(e: nat, m: nat, q: nat)
    requires 113 <= e && NearestEven(m, 0x2000, q) && q < 0x400
    ensures BelowMiddle(SingleMagnitude(e, m), q + (e - 112) * 0x400)
  {
    hide Pow2;
    hide HalfMagnitude;
    hide SingleMagnitude;
    hide TwiceMiddle;
    hide Unit;
    hide NearestEven;
    hide BelowMiddle;
    var s, w, p := Pow2(e - 1), 0x2000 * Pow2(e - 1), q + (e - 112) * 0x400;
    NormalSingle(e, m);
    LastPlace(e);
    Scaled(m, 0x2000, q, s);
    NormalMiddle(e - 112, q);
    assert TwiceMiddle(p) == (2 * q + 1) * w + 0x800 * w by {
      Distribute(2 * q + 1, 0x800, w);
    }
    BelowBy(SingleMagnitude(e, m), p, q, (2 * q + 1) * w, 2 * (m * s), 0x800 * w);
  }

  lemma BelowBy(single: nat, p: nat, q: nat, middle: int, rest: int, shared: int)
    requires 2 * single == shared + rest && TwiceMiddle(p) == middle + shared
    requires rest <= middle && (rest == middle ==> q % 2 == 0) && p % 2 == q % 2
    ensures BelowMiddle(single, p)
  {
    hide TwiceMiddle;
  }

  lemma CarryBelow(e: nat, m: nat)
    requires 113 <= e && m < 0x80_0000
    ensures BelowMiddle(SingleMagnitude(e, m), (e - 111) * 0x400)
  {
    hide Pow2;
    hide HalfMagnitude;
    hide SingleMagnitude;
    hide TwiceMiddle;
    hide Unit;
    NormalSingle(e, m);
    LastPlace(e);
    MulMonotone(m, 0x80_0000, Pow2(e - 1));
    AboveNormal(e - 111);
  }

  /** The middle after the smallest pattern with an exponent is above that pattern. */
  lemma AboveNormal(e16: nat)
    requires 2 <= e16
    ensures TwiceMiddle(e16 * 0x400) > 0x1000 * (Pow2(e16 - 2) * Unit())
  {
    hide Pow2;
    hide HalfMagnitude;
    hide Unit;
    var p := e16 * 0x400;
    NormalHalf(e16, 0);
    Pow2Next(e16 - 2);
    HalfIncreases(p, p + 1);
    MulMonotone(0x1000 * Pow2(e16 - 2), HalfMagnitude(p) + HalfMagnitude(p + 1), Unit());
    Reassociate(0x1000, Pow2(e16 - 2), Unit());
  }

  /** Normal results: 13 bits are shifted out and the exponent is added to what remains. */
  lemma NormalRounds(e: nat, m: nat)
    requires 113 <= e < 255 && m < 0x80_0000
    ensures var p := Combined(e - 112, m); RoundsTo(SingleMagnitude(e, m), if p < INF16 then p else INF16)
  {
    hide Pow2;
    hide RoundShift;
    hide HalfMagnitude;
    hide NearestEven;
    hide AboveMiddle;
    hide BelowMiddle;
    hide SingleMagnitude;
    var q := RoundShift(m, 13);
    Pow2Of24();
    RoundShiftIsNearestEven(m, 13);
    SmallNormal(m, q);
    NormalAbove(e, m, q);
    NormalBelow(e, m, q);
    MiddlesDecide(SingleMagnitude(e, m), q + (e - 112) * 0x400);
  }

  lemma SmallNormal(m: nat, q: int)
    requires m < 0x80_0000 && NearestEven(m, 0x2000, q)
    ensures q <= 0x400
  {
  }

  // ----- the whole conversion -----

  /** Every 32-bit pattern: the sign is kept; finite numbers round to nearest even; infinity stays infinity; and
      NaN, only, gives NaN, with the top bits of its payload below a lowest bit that keeps it from being infinity. */
  lemma TruncationRounds(bits32: nat)
    requires bits32 < 0x1_0000_0000
    ensures
      var e, m := bits32 / 0x80_0000 % 0x100, bits32 % 0x80_0000;
      var r := TruncToHalf(bits32);
      var p := r % 0x8000;
      && r < 0x1_0000 && r / 0x8000 == bits32 / 0x8000_0000
      && (p > INF16 <==> e == 0xFF && m != 0)
      && (p > INF16 ==> p % 0x400 / 2 == m / 0x4000 && p % 2 == 1)
      && (e == 0xFF && m == 0 ==> p == INF16)
      && (e != 0xFF ==> RoundsTo(SingleMagnitude(e, m), p))
  {
    hide Combined;
    hide RoundsTo;
    hide SingleMagnitude;
    var e, m := bits32 / 0x80_0000 % 0x100, bits32 % 0x80_0000;
    FiniteRounds(e, m);
    SignAndRest(bits32 / 0x1_0000 / 0x8000, Rest(e, m));
    NanRest(m);
  }

  /** The result of the conversion without its sign. */
  function Rest(e: nat, m: nat): nat
  {
    if e == 0xFF && m != 0 then 0x7C00 + m / 0x2000 / 2 * 2 + 1
    else if e == 0xFF || Combined(e - 112, m) >= 0x7C00 then 0x7C00
    else Combined(e - 112, m)
  }

  lemma SignAndRest(sign: nat, rest: nat)
    requires sign < 2 && rest < 0x8000
    ensures (rest + sign * 0x8000) / 0x8000 == sign && (rest + sign * 0x8000) % 0x8000 == rest
  {
  }

  lemma NanRest(m: nat)
    requires m < 0x80_0000
    ensures var p := 0x7C00 + m / 0x2000 / 2 * 2 + 1; p < 0x8000 && p % 0x400 / 2 == m / 0x4000 && p % 2 == 1
  {
    var t := m / 0x4000;
    assert m / 0x2000 / 2 == t && t < 0x200;
    assert (0x7C00 + t * 2 + 1) % 0x400 == t * 2 + 1;
  }

  lemma FiniteRounds(e: nat, m: nat)
    requires m < 0x80_0000 && e < 0x100
    ensures var p := Combined(e - 112, m);
            e < 0xFF ==> RoundsTo(SingleMagnitude(e, m), if p < INF16 then p else INF16)
  {
    hide RoundShift;
    hide SingleMagnitude;
    hide Distance;
    if e < 102 {
      TooSmallRoundsToZero(e, m);
    } else if e <= 112 {
      DenormRounds(e, m);
    } else if e < 255 {
      NormalRounds(e, m);
    }
  }
}
