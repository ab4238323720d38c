/** Whole numbers as integers and as floats: what joins the units of the two
    (`src/aggregate.rs`, `src/query.rs`), by the bits of a float (section 3.4 of IEEE 754-2019). */
module WholeFloats {
  import opened Values
  import opened Powers
  import opened Rounding
  import opened WideInteger
  import opened ExactSums

  /** The bits of 1.0. */
  const ONE: u64 := 0x3FF0_0000_0000_0000

  lemma Pow2At52()
    ensures Pow2(52) == TWO52
  {
    assert Pow2(13) == 0x2000;
    hide Pow2;
    Pow2Add(13, 13);
    Pow2Add(26, 26);
  }

  lemma IntExact(i: i64)
    ensures ExactOf(Int(i)) == Finite(i * Pow2(INT_SHIFT))
  {
    hide Pow2;
  }

  /** The fields of a float, by its sign, its exponent and its fraction. */
  function FloatOf(negative: bool, exponent: nat, fraction: nat): (bits: u64)
    requires exponent < 0x7FF && fraction < TWO52
  {
    (if negative then TWO63 else 0) + exponent * TWO52 + fraction
  }

  lemma FieldsOf(negative: bool, exponent: nat, fraction: nat)
    requires exponent < 0x7FF && fraction < TWO52
    ensures var bits := FloatOf(negative, exponent, fraction);
            && NegativeBit(bits) == negative && Unsigned(bits) == exponent * TWO52 + fraction < INFINITY
            && ExponentField(bits) == exponent && FractionField(bits) == fraction
  {
    var rest := exponent * TWO52 + fraction;
    var bits := FloatOf(negative, exponent, fraction);
    QuotientIs(bits, TWO63, if negative then 1 else 0, rest);
    QuotientIs(rest, TWO52, exponent, fraction);
    QuotientIs(bits, TWO52, (if negative then 2048 else 0) + exponent, fraction);
  }

  /** A normal float's value: its significand, the leading one put before its fraction,
      times two to its exponent. */
  lemma NormalIs(negative: bool, exponent: nat, fraction: nat)
    requires 0 < exponent < 0x7FF && fraction < TWO52
    ensures var units: int := (TWO52 + fraction) * Pow2(exponent - 1);
            ExactOf(Float(FloatOf(negative, exponent, fraction))) == Finite(if negative then -units else units)
  {
    var bits := FloatOf(negative, exponent, fraction);
    FieldsOf(negative, exponent, fraction);
    hide Pow2, ExponentField, FractionField, FloatOf;
  }

  lemma OneUnits()
    ensures Units(ONE) == Pow2(INT_SHIFT) && ExactOf(Float(ONE)) == Finite(Pow2(INT_SHIFT))
  {
    hide Pow2, ExactOf, Units, FloatOf, ExponentField, FractionField, NegativeBit, Unsigned;
    NormalIs(false, 1023, 0);
    OneIsThis();
    FloatUnits(ONE);
    Pow2At52();
    Pow2Add(52, 1022);
  }

  lemma OneIsThis()
    ensures FloatOf(false, 1023, 0) == ONE && !NegativeBit(ONE) && Unsigned(ONE) == ONE
  {
  }

  /** An integer is so many times the float 1.0. */
  lemma IntIsSoManyOnes(i: i64)
    ensures ExactOf(Float(ONE)) == Finite(Units(ONE)) && ExactOf(Int(i)) == Finite(i * Units(ONE))
  {
    OneUnits();
    IntExact(i);
    hide Units, Pow2, ExactOf;
  }

  /** Between which powers of two a number is. */
  lemma {:induction false} TopPower(n: nat) returns (k: nat)
    requires n > 0
    ensures Pow2(k) <= n < Pow2(k + 1)
  {
    if n == 1 {
      k := 0;
    } else {
      var half := TopPower(n / 2);
      k := half + 1;
    }
  }

  /** The significand of a number between those: its first bit the 52nd. */
  lemma SignificandIs(n: nat, k: nat)
    requires k <= 52 && Pow2(k) <= n < Pow2(k + 1)
    ensures TWO52 <= n * Pow2(52 - k) < 2 * TWO52
    ensures n * Pow2(52 - k) * Pow2(1022 + k) == n * Pow2(INT_SHIFT)
  {
    var p := Pow2(52 - k);
    Pow2At52();
    Twice(52);
    hide Pow2;
    Pow2Add(k, 52 - k);
    Pow2Add(k + 1, 52 - k);
    Pow2Add(52 - k, 1022 + k);
    MulMono(Pow2(k), n, p);
    MulMono(n + 1, Pow2(k + 1), p);
    Distributes(n, p);
    Associate(n, p, Pow2(1022 + k));
  }

  lemma Twice(k: nat)
    ensures Pow2(k + 1) == 2 * Pow2(k)
  {
  }

  lemma Distributes(n: int, p: int)
    ensures (n + 1) * p == n * p + p
  {
  }

  lemma Associate(a: int, b: int, c: int)
    ensures (a * b) * c == a * (b * c)
  {
  }

  /** Every integer of at most 53 bits is the float of its sign, with its highest bit for
      the exponent and the bits past that for the fraction. */
  lemma IntIsAFloat(i: i64, k: nat)
    requires i != 0 && k <= 52 && Pow2(k) <= Abs(i) < Pow2(k + 1)
    ensures TWO52 <= Abs(i) * Pow2(52 - k) < 2 * TWO52
    ensures ExactOf(Float(FloatOf(i < 0, 1023 + k, Abs(i) * Pow2(52 - k) - TWO52))) == ExactOf(Int(i))
  {
    hide Pow2, ExactOf, FloatOf;
    var n := Abs(i);
    SignificandIs(n, k);
    NormalIs(i < 0, 1023 + k, n * Pow2(52 - k) - TWO52);
    IntExact(i);
    Negates(n, Pow2(INT_SHIFT));
  }

  lemma Negates(n: int, p: int)
    ensures (-n) * p == -(n * p)
  {
  }

  /** So is 2^53. */
  lemma TwoTo53IsAFloat(negative: bool)
    ensures ExactOf(Float(FloatOf(negative, 1023 + 53, 0))) == ExactOf(Int(if negative then -TWO53 else TWO53))
  {
    hide Pow2, ExactOf, Units, FloatOf, ExponentField, FractionField, NegativeBit, Unsigned;
    NormalIs(negative, 1076, 0);
    IntExact(if negative then -TWO53 else TWO53);
    Twice(1074);
    Negates(TWO53, Pow2(INT_SHIFT));
    Associate(TWO52, 2, Pow2(1074));
  }

  /** For every integer of at most 53 bits there is a float as large. */
  lemma EveryIntHasAFloat(i: i64) returns (bits: u64)
    requires Abs(i) <= TWO53
    ensures ExactOf(Float(bits)) == ExactOf(Int(i))
  {
    if i == 0 {
      bits := 0;
      ZeroIsZero();
    } else if Abs(i) == TWO53 {
      bits := FloatOf(i < 0, 1023 + 53, 0);
      TwoTo53IsAFloat(i < 0);
    } else {
      var k := TopPower(Abs(i));
      AtMost52(Abs(i), k);
      IntIsAFloat(i, k);
      hide Pow2, ExactOf;
      bits := FloatOf(i < 0, 1023 + k, Abs(i) * Pow2(52 - k) - TWO52);
    }
  }

  lemma ZeroIsZero()
    ensures ExactOf(Float(0)) == ExactOf(Int(0)) == Finite(0)
  {
    hide Pow2;
  }

  lemma AtMost52(n: nat, k: nat)
    requires Pow2(k) <= n < TWO53
    ensures k <= 52
  {
    if k > 52 { FromTwo53(k); }
  }

  lemma FromTwo53(k: nat)
    requires k >= 53
    ensures Pow2(k) >= TWO53
  {
    Pow2At52();
    Twice(52);
    hide Pow2;
    if k > 53 { Pow2Mono(53, k); }
  }

  /** What is a float is rounded to it. */
  lemma ExactIsRounded(num: nat, bits: int)
    requires 0 <= bits < INFINITY && num == Units(bits)
    ensures IsRounded(num, 1, bits)
  {
    hide Units;
    forall c | 0 <= c <= INFINITY && c != bits ensures Distance(num, 1, bits) < Distance(num, 1, c) {
      if c < bits { UnitsAreOrdered(c, bits); } else { UnitsAreOrdered(bits, c); }
    }
  }

  /** The mean of one integer is the float as large, and its sum as a float. */
  lemma MeanOfOne(i: i64, bits: u64, avg: Document)
    requires ExactOf(Float(bits)) == ExactOf(Int(i)) && i != 0
    requires MeanIs([Int(i)], avg)
    ensures avg == Float(bits)
  {
    var xs := ExactsOf([Int(i)]);
    IntExact(i);
    NotZero(i);
    assert xs == [ExactOf(Int(i))] && xs[..0] == [];
    var x := i * Pow2(INT_SHIFT);
    hide Pow2, ExactOf, IsRounded;
    assert SumOf(xs) == x && SpecialOf(xs) == None;
    OneFloat(x, bits, avg.bits);
  }

  lemma NotZero(i: int)
    ensures i != 0 ==> i * Pow2(INT_SHIFT) != 0
  {
    hide Pow2;
    SmallMultiple(i, Pow2(INT_SHIFT));
  }

  lemma OneFloat(x: int, a: u64, b: u64)
    requires x != 0 && ExactOf(Float(a)) == Finite(x) && IsSignedRounded(x, 1, b)
    ensures a == b
  {
    FloatUnits(a);
    FloatUnits(b);
    hide Units, IsRounded, ExactOf;
    ExactIsRounded(Abs(x), Unsigned(a));
    RoundingIsUnique(Abs(x), 1, Unsigned(b), Unsigned(a));
    NoUnits();
  }

  lemma NoUnits()
    ensures Units(0) == 0
  {
  }

  /** The mean of the integer 3 is 3.0. */
  lemma MeanOfThree(avg: Document)
    requires MeanIs([Int(3)], avg)
    ensures avg == Float(0x4008_0000_0000_0000)
  {
    assert Pow2(1) == 2 && Pow2(2) == 4;
    IntIsAFloat(3, 1);
    Pow2At52();
    Twice(51);
    hide Pow2, ExactOf, MeanIs;
    MeanOfOne(3, FloatOf(false, 1024, 3 * Pow2(51) - TWO52), avg);
  }

  /** The values that are no numbers, by their bits. */
  lemma BitsOfSpecials(bits: u64)
    ensures ExactOf(Float(bits)) == Infinite(false) <==> bits == 0x7FF0_0000_0000_0000
    ensures ExactOf(Float(bits)) == Infinite(true) <==> bits == 0xFFF0_0000_0000_0000
    ensures ExactOf(Float(bits)) == NaN <==>
              0x7FF0_0000_0000_0000 < bits <= 0x7FFF_FFFF_FFFF_FFFF || bits > 0xFFF0_0000_0000_0000
  {
    hide Units;
  }

  // ------------------------------------------------- an integer against a float

  /** `trunc`, of a number of units: the whole ones, towards zero. */
  function Truncated(x: int, one: int): (whole: int)
    requires one >= 1
  {
    if x >= 0 then x / one else -(-x / one)
  }

  /** `int_vs_float`: past the ends of an `i64` at once, else by the whole part and then
      by what is left. Nothing for NaN. */
  function IntVsFloat(i: i64, bits: u64): (r: Option<int>) {
    var (f, one) := (ExactOf(Float(bits)), Pow2(INT_SHIFT));
    if f.NaN? then None
    else if CompareExact(f, Finite(TWO63 * one)) >= 0 then Some(-1)
    else if CompareExact(f, Finite(-TWO63 * one)) < 0 then Some(1)
    else
      var whole := Truncated(f.units, one);
      Some(if i != whole then Sign(i, whole) else Sign(whole * one, f.units))
  }

  /** It is the order of the exact values. */
  lemma IntVsFloatIsExact(i: i64, bits: u64)
    ensures var f := ExactOf(Float(bits));
            IntVsFloat(i, bits) == if f.NaN? then None else Some(CompareExact(ExactOf(Int(i)), f))
  {
    var (f, one) := (ExactOf(Float(bits)), Pow2(INT_SHIFT));
    IntExact(i);
    hide Pow2, ExactOf;
    if f.Finite? {
      WholePart(i, f.units, one);
    }
  }

  /** The whole part is an `i64` where it is looked at, and decides where it differs. */
  lemma WholePart(i: i64, x: int, one: int)
    requires one >= 1
    ensures x >= TWO63 * one ==> i * one < x
    ensures x < -TWO63 * one ==> i * one > x
    ensures var whole := Truncated(x, one);
            && (-TWO63 * one <= x < TWO63 * one ==> -TWO63 <= whole < TWO63)
            && Sign(i * one, x) == if i != whole then Sign(i, whole) else Sign(whole * one, x)
  {
    Apart(i, TWO63, one);
    Apart(-TWO63, i, one);
    var whole := Truncated(x, one);
    TruncatedIs(x, one);
    Apart(i, whole, one);
    Apart(whole, i, one);
    Apart(TWO63, whole, one);
    Apart(whole, -TWO63, one);
    hide Truncated;
  }

  lemma TruncatedIs(x: int, one: int)
    requires one >= 1
    ensures var whole := Truncated(x, one);
            if x >= 0 then whole >= 0 && whole * one <= x < whole * one + one
            else whole <= 0 && whole * one - one < x <= whole * one
  {
    if x >= 0 { QuotientTimes(x, one); } else { QuotientTimes(-x, one); }
  }

  lemma QuotientTimes(x: nat, one: int)
    requires one >= 1
    ensures x / one >= 0 && x / one * one <= x < x / one * one + one && -(x / one) * one == -(x / one * one)
  {
  }

  lemma Apart(a: int, b: int, one: int)
    requires one >= 1
    ensures a < b ==> a * one + one <= b * one
    ensures a == b ==> a * one == b * one
  {
    if a < b {
      Distributes(b - a - 1, one);
      NotBelow(b - a - 1, one);
      assert b * one == (b - a - 1) * one + a * one + one;
    }
  }

  lemma NotBelow(k: nat, one: int)
    requires one >= 1
    ensures k * one >= 0
  {
  }
}
