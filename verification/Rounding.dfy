/** Rounding to the nearest float, ties to even, stated without bits: of all
    floats the nearest, and of two as near the one with an even significand
    (section 4.3.1 of IEEE 754-2019). Quantities are in units of 2^-1074. */
module Rounding {
  import opened Values
  import opened Powers

  const TWO53: int := 0x20_0000_0000_0000
  /** Infinity's bits. It stands at 2^1024, where the next float would be: what
      is nearest to that, or past it, overflows. */
  const INFINITY: int := 0x7FF0_0000_0000_0000
  /** The largest shift a finite float's significand has. */
  const TOP_SHIFT: nat := 2045

  function Abs(x: int): (a: nat)
    ensures a == x || a == -x
  {
    if x < 0 then -x else x
  }

  /** How far `num / den` units are from the float `bits`, times `den`. */
  function Distance(num: nat, den: nat, bits: u64): (d: nat) {
    Abs(num - den * Units(bits))
  }

  /** `bits` is `num / den` units rounded once. */
  ghost predicate IsRounded(num: nat, den: nat, bits: int) {
    && 0 <= bits <= INFINITY
    && forall c :: 0 <= c <= INFINITY && c != bits ==>
         && Distance(num, den, bits) <= Distance(num, den, c)
         && (Distance(num, den, bits) == Distance(num, den, c) ==> bits % 2 == 0)
  }

  // --------------------------------------------------------- floats, in order

  /** A float by its significand and shift. */
  lemma UnitsAt(shift: nat, m: nat)
    requires shift <= TOP_SHIFT && m <= TWO53 && (shift == 0 || TWO52 <= m)
    ensures 0 <= shift * TWO52 + m <= INFINITY
    ensures Units(shift * TWO52 + m) == m * Pow2(shift)
  {
    hide Pow2;
    if m == TWO53 {
      NormalUnits(shift * TWO52 + m, shift + 1, TWO52);
      hide Units;
      DoubledOnce(shift);
    } else if shift == 0 && m < TWO52 {
      FieldsAt(m, 0, m);
      OneUnit();
      hide ExponentField, FractionField;
    } else {
      NormalUnits(shift * TWO52 + m, shift, m);
    }
  }

  lemma OneUnit()
    ensures Pow2(0) == 1
  {
  }

  lemma DoubledOnce(shift: nat)
    ensures TWO52 * Pow2(shift + 1) == TWO53 * Pow2(shift)
  {
  }

  /** A float with a leading one: its significand at its shift. */
  lemma NormalUnits(bits: int, shift: nat, m: nat)
    requires TWO52 <= m < TWO53 && shift < 0x7FF && bits == shift * TWO52 + m
    ensures 0 <= bits < TWO63 && Units(bits) == m * Pow2(shift)
  {
    FieldsAt(bits, shift + 1, m - TWO52);
    hide ExponentField, FractionField, Pow2;
  }

  lemma FieldsAt(bits: int, e: nat, f: nat)
    requires e < 0x800 && f < TWO52 && bits == e * TWO52 + f
    ensures 0 <= bits < TWO63
    ensures ExponentField(bits) == e && FractionField(bits) == f
  {
    QuotientIs(bits, TWO52, e, f);
    QuotientIs(bits, TWO63, 0, bits);
  }

  /** Every float's significand and shift. */
  lemma ShiftOf(bits: int) returns (shift: nat, m: nat)
    requires 0 <= bits < INFINITY
    ensures shift <= TOP_SHIFT && m < TWO53 && (shift == 0 || TWO52 <= m)
    ensures bits == shift * TWO52 + m
  {
    if bits < TWO53 {
      shift, m := 0, bits;
    } else {
      shift, m := bits / TWO52 - 1, TWO52 + bits % TWO52;
    }
  }

  lemma OneMore(m: int, ulp: int)
    ensures (m + 1) * ulp == m * ulp + ulp
  {
  }

  /** The next float is one unit in the last place away. */
  lemma NextUnits(shift: nat, m: nat, bits: int)
    requires shift <= TOP_SHIFT && m < TWO53 && (shift == 0 || TWO52 <= m) && bits == shift * TWO52 + m
    ensures 0 <= bits < INFINITY
    ensures Units(bits) == m * Pow2(shift) && Units(bits + 1) == Units(bits) + Pow2(shift)
  {
    hide Units, Pow2;
    UnitsAt(shift, m);
    UnitsAt(shift, m + 1);
    OneMore(m, Pow2(shift));
    assert bits + 1 == shift * TWO52 + (m + 1);
  }

  lemma NextIsMore(bits: int)
    requires 0 <= bits < INFINITY
    ensures Units(bits) < Units(bits + 1)
  {
    var shift, m := ShiftOf(bits);
    NextUnits(shift, m, bits);
    hide Units, Pow2;
  }

  lemma {:induction false} UnitsAreOrdered(a: int, b: int)
    requires 0 <= a < b <= INFINITY
    ensures Units(a) < Units(b)
    decreases b
  {
    NextIsMore(b - 1);
    if a < b - 1 { UnitsAreOrdered(a, b - 1); }
  }

  // ------------------------------------------------------ the nearest of all

  /** Of the two floats around a quantity, the nearer is the nearest of all. */
  lemma NearestOfTwo(num: nat, den: nat, bits: int, nearest: int)
    requires den > 0 && 0 <= bits < INFINITY
    requires den * Units(bits) <= num < den * Units(bits + 1)
    requires var (down, up) := (num - den * Units(bits), den * Units(bits + 1) - num);
             nearest == if down < up || (down == up && bits % 2 == 0) then bits else bits + 1
    ensures IsRounded(num, den, nearest)
  {
    hide Units;
    forall c | 0 <= c <= INFINITY && c != nearest
      ensures Distance(num, den, nearest) <= Distance(num, den, c)
      ensures Distance(num, den, nearest) == Distance(num, den, c) ==> nearest % 2 == 0
    {
      if c < bits {
        UnitsAreOrdered(c, bits);
        Further(den, Units(c), Units(bits));
      } else if c > bits + 1 {
        UnitsAreOrdered(bits + 1, c);
        Further(den, Units(bits + 1), Units(c));
      }
    }
  }

  lemma Further(den: nat, a: nat, b: nat)
    requires den > 0 && a < b
    ensures den * a < den * b
  {
    assert den * b == den * a + den * (b - a);
    SmallMultiple(b - a, den);
  }

  /** At 2^1024 and past it everything is infinity. */
  lemma PastTheTop(num: nat, den: nat)
    requires den > 0 && num >= den * Units(INFINITY)
    ensures IsRounded(num, den, INFINITY)
  {
    hide Units;
    forall c | 0 <= c <= INFINITY && c != INFINITY
      ensures Distance(num, den, INFINITY) < Distance(num, den, c)
    {
      UnitsAreOrdered(c, INFINITY);
      Further(den, Units(c), Units(INFINITY));
    }
  }

  /** A quantity has one rounding. */
  lemma RoundingIsUnique(num: nat, den: nat, a: int, b: int)
    requires den > 0 && IsRounded(num, den, a) && IsRounded(num, den, b)
    ensures a == b
  {
    if a < b {
      NoTwo(num, den, a, b);
    } else if b < a {
      NoTwo(num, den, b, a);
    }
  }

  lemma NoTwo(num: nat, den: nat, a: int, b: int)
    requires den > 0 && 0 <= a < b <= INFINITY && IsRounded(num, den, a)
    ensures !IsRounded(num, den, b)
  {
    hide Units;
    UnitsAreOrdered(a, b);
    Further(den, Units(a), Units(b));
    if b > a + 1 {
      UnitsAreOrdered(a, a + 1);
      UnitsAreOrdered(a + 1, b);
      Further(den, Units(a), Units(a + 1));
      Further(den, Units(a + 1), Units(b));
      Between(num, den * Units(a), den * Units(a + 1), den * Units(b));
      assert Distance(num, den, a) <= Distance(num, den, a + 1);
    }
    assert Distance(num, den, a) <= Distance(num, den, b);
    if Distance(num, den, a) == Distance(num, den, b) {
      assert a % 2 == 0 && b == a + 1;
    }
  }

  /** A quantity as near to two is nearer to what lies between. */
  lemma Between(num: nat, a: nat, c: nat, b: nat)
    requires a < c < b
    ensures Abs(num - a) == Abs(num - b) ==> Abs(num - c) < Abs(num - a)
    ensures Abs(num - a) <= Abs(num - c) ==> Abs(num - a) < Abs(num - b)
  {
  }

  lemma NearerFloat(num: nat, den: nat, near: int, far: int)
    requires den > 0 && 0 <= near <= INFINITY && 0 <= far <= INFINITY
    requires (near < far && num <= den * Units(near)) || (far < near && den * Units(near) <= num)
    ensures Distance(num, den, near) < Distance(num, den, far)
  {
    hide Units;
    if near < far {
      UnitsAreOrdered(near, far);
      Further(den, Units(near), Units(far));
    } else {
      UnitsAreOrdered(far, near);
      Further(den, Units(far), Units(near));
    }
  }

  /** Rounding never goes past a float. */
  lemma AtMostAFloat(num: nat, den: nat, bits: int, above: int)
    requires den > 0 && IsRounded(num, den, bits)
    requires 0 <= above <= INFINITY && num <= den * Units(above)
    ensures bits <= above
  {
    if above < bits { NearerFloat(num, den, above, bits); }
  }

  lemma AtLeastAFloat(num: nat, den: nat, bits: int, below: int)
    requires den > 0 && IsRounded(num, den, bits)
    requires 0 <= below <= INFINITY && den * Units(below) <= num
    ensures below <= bits
  {
    if bits < below { NearerFloat(num, den, below, bits); }
  }

  /** Infinity exactly from half a unit in the last place past the largest
      float on: 2^1024 - 2^970 (in units, 2^2098 - 2^2044). */
  lemma OverflowThreshold(num: nat, den: nat, bits: int)
    requires den > 0 && IsRounded(num, den, bits)
    ensures bits == INFINITY <==> 2 * num >= den * (Units(INFINITY - 1) + Units(INFINITY))
  {
    hide Units;
    var (below, top) := (Units(INFINITY - 1), Units(INFINITY));
    UnitsAreOrdered(INFINITY - 1, INFINITY);
    Further(den, below, top);
    Distribute(den, below, top);
    if bits == INFINITY {
      assert Distance(num, den, INFINITY) <= Distance(num, den, INFINITY - 1);
    } else {
      assert Distance(num, den, bits) <= Distance(num, den, INFINITY);
      assert bits != INFINITY - 1 ==> Distance(num, den, bits) <= Distance(num, den, INFINITY - 1);
      if bits < INFINITY - 1 {
        UnitsAreOrdered(bits, INFINITY - 1);
        Further(den, Units(bits), below);
      }
    }
  }

  lemma LargestFloats()
    ensures Units(INFINITY - 1) == (TWO53 - 1) * Pow2(TOP_SHIFT)
    ensures Units(INFINITY) == TWO53 * Pow2(TOP_SHIFT)
  {
    UnitsAt(TOP_SHIFT, TWO53 - 1);
    UnitsAt(TOP_SHIFT, TWO53);
    hide Units, Pow2;
    assert TOP_SHIFT * TWO52 + TWO53 == INFINITY;
  }

  // ----------------------------------------------- from significand and rest

  /** The quantity is a significand, and a remainder of the last place. */
  lemma RoundAt(num: nat, den: nat, shift: nat, m: nat, over: nat, nearest: int)
    requires den > 0 && shift <= TOP_SHIFT && m < TWO53 && (shift == 0 || TWO52 <= m)
    requires num == den * (m * Pow2(shift)) + over && over < den * Pow2(shift)
    requires nearest == shift * TWO52 + m +
                        if 2 * over > den * Pow2(shift) || (2 * over == den * Pow2(shift) && m % 2 == 1) then 1 else 0
    ensures IsRounded(num, den, nearest)
  {
    hide Units, Pow2, IsRounded;
    var bits := shift * TWO52 + m;
    NextUnits(shift, m, bits);
    assert bits % 2 == m % 2;
    RoundBetween(num, den, bits, m * Pow2(shift), Pow2(shift), over, nearest);
  }

  lemma RoundBetween(num: nat, den: nat, bits: int, unit: nat, ulp: nat, over: nat, nearest: int)
    requires den > 0 && 0 <= bits < INFINITY && Units(bits) == unit && Units(bits + 1) == unit + ulp
    requires num == den * unit + over && over < den * ulp
    requires nearest == bits +
                        if 2 * over > den * ulp || (2 * over == den * ulp && bits % 2 == 1) then 1 else 0
    ensures IsRounded(num, den, nearest)
  {
    hide Units, IsRounded;
    Distribute(den, unit, ulp);
    NearestOfTwo(num, den, bits, nearest);
  }

  /** `low` of a shifted-out part, and `rem` of `den` of a unit beneath it,
      against half: the round bit and the sticky bits decide. */
  lemma HalfByBits(den: nat, rem: nat, half: nat, ulp: nat, low: nat)
    requires rem < den && half > 0 && ulp == 2 * half && low < ulp
    ensures var over := den * low + rem;
            && over < den * ulp
            && (2 * over > den * ulp <==> low >= half && (low % half != 0 || rem != 0))
            && (2 * over == den * ulp <==> low >= half && low % half == 0 && rem == 0)
  {
    Distribute(den, half, half);
    if low >= half {
      QuotientIs(low, half, 1, low - half);
      Distribute(den, half, low - half);
      SmallMultiple(low - half, den);
      UpTo(den, low, ulp);
      HalfIsLinear(den, rem, den * half, den * low, low > half);
    } else {
      UpTo(den, low, half);
    }
  }

  lemma UpTo(den: nat, low: nat, bound: nat)
    requires low < bound
    ensures den * low + den <= den * bound
  {
    Distribute(den, low, 1);
    MulMono(low + 1, bound, den);
  }

  lemma HalfIsLinear(den: nat, rem: nat, half: nat, low: nat, more: bool)
    requires rem < den && low + den <= 2 * half
    requires if more then low >= half + den else low == half
    ensures low + rem < 2 * half
    ensures 2 * (low + rem) > 2 * half <==> more || rem != 0
  {
  }
}
