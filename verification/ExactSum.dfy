/** Exact sums and means (`src/aggregate.rs`): every number added into one wide
    integer, rounded once at the end. */
module ExactSums {
  import opened Values
  import opened Powers
  import opened Rounding
  import opened WideInteger

  predicate IsNumber(d: Document) {
    d.Int? || d.Float?
  }

  predicate AllNumbers(numbers: seq<Document>) {
    forall i :: 0 <= i < |numbers| ==> IsNumber(numbers[i])
  }

  predicate AnyFloat(numbers: seq<Document>) {
    exists i :: 0 <= i < |numbers| && numbers[i].Float?
  }

  /** What the numbers are, exactly. */
  function ExactsOf(numbers: seq<Document>): (xs: seq<Exact>)
    requires AllNumbers(numbers)
    ensures |xs| == |numbers|
  {
    seq(|numbers|, i requires 0 <= i < |numbers| => ExactOf(numbers[i]))
  }

  /** The exact sum of the finite ones, in units. */
  function Units'(x: Exact): (u: int) {
    if x.Finite? then x.units else 0
  }

  function SumOf(xs: seq<Exact>): (sum: int) {
    if xs == [] then 0 else SumOf(xs[..|xs| - 1]) + Units'(xs[|xs| - 1])
  }

  /** Infinities and NaNs, added as IEEE adds them. */
  function AddSpecial(a: Option<Exact>, b: Exact): (sum: Option<Exact>) {
    if b.Finite? then a
    else if a.None? then Some(b)
    else if a.value == b then a
    else Some(NaN)
  }

  function SpecialOf(xs: seq<Exact>): (special: Option<Exact>) {
    if xs == [] then None else AddSpecial(SpecialOf(xs[..|xs| - 1]), xs[|xs| - 1])
  }

  /** How the machine adds what is not finite, and divides it by a count. Section 6.2.3
      of IEEE 754-2019 leaves open which NaN comes of it. */
  datatype Ieee = Ieee(add: (u64, u64) -> u64, div: (u64, nat) -> u64)

  predicate IsNonFinite(d: Document) {
    d.Float? && !ExactOf(d).Finite?
  }

  /** Infinities and NaNs added as IEEE adds them, and no more. */
  ghost predicate IeeeOk(ieee: Ieee) {
    && (forall a: u64, b: u64 :: IsNonFinite(Float(a)) && IsNonFinite(Float(b)) ==>
          Some(ExactOf(Float(ieee.add(a, b)))) == AddSpecial(Some(ExactOf(Float(a))), ExactOf(Float(b))))
    && (forall a: u64, n: nat :: IsNonFinite(Float(a)) && n > 0 ==>
          ExactOf(Float(ieee.div(a, n))) == ExactOf(Float(a)))
  }

  /** What is not finite among numbers, added in turn: the first as it is. */
  function SpecialBits(ieee: Ieee, numbers: seq<Document>): (special: Option<u64>) {
    if numbers == [] then None
    else
      var n := |numbers| - 1;
      WithSpecial(ieee, SpecialBits(ieee, numbers[..n]), numbers[n])
  }

  function WithSpecial(ieee: Ieee, special: Option<u64>, d: Document): (after: Option<u64>) {
    if !IsNonFinite(d) then special
    else if special.None? then Some(d.bits)
    else Some(ieee.add(special.value, d.bits))
  }

  /** One float, or NaN both. */
  predicate SameFloat(a: u64, b: u64) {
    a == b || (ExactOf(Float(a)).NaN? && ExactOf(Float(b)).NaN?)
  }

  predicate Alike(a: Document, b: Document) {
    a == b || (a.Float? && b.Float? && SameFloat(a.bits, b.bits))
  }

  /** Numbers whose total is NaN: one of them is, or both infinities are there. */
  predicate GivesNaN(xs: multiset<Exact>) {
    NaN in xs || (Infinite(true) in xs && Infinite(false) in xs)
  }

  /** `bits` is the exact quotient `num / den`, rounded once; never `-0.0`. */
  ghost predicate IsSignedRounded(num: int, den: nat, bits: u64) {
    && IsRounded(Abs(num), den, Unsigned(bits))
    && (NegativeBit(bits) <==> num < 0 && Unsigned(bits) != 0)
  }

  /** The total of numbers: exact, and rounded once. Which NaN is open. */
  ghost predicate IsTotal(xs: seq<Exact>, bits: u64) {
    var special := SpecialOf(xs);
    if special.Some? then ExactOf(Float(bits)) == special.value else IsSignedRounded(SumOf(xs), 1, bits)
  }

  /** The mean of numbers: the exact total by the count, rounded once. */
  ghost predicate IsMean(xs: seq<Exact>, bits: u64) {
    var special := SpecialOf(xs);
    if special.Some? then ExactOf(Float(bits)) == special.value else IsSignedRounded(SumOf(xs), |xs|, bits)
  }

  // ------------------------------------------------------- the range of a sum

  /** Every finite number is within 2^2098 units of zero. */
  const WIDEST: nat := 2098

  lemma NumberIsBounded(d: Document)
    requires IsNumber(d)
    ensures Abs(Units'(ExactOf(d))) <= Pow2(WIDEST)
  {
    hide Pow2, Units;
    match d
    case Int(i) =>
      IntIsBounded(i);
    case Float(bits) =>
      if ExactOf(d).Finite? { FloatIsBounded(bits); }
  }

  lemma IntIsBounded(i: i64)
    ensures Abs(i * Pow2(INT_SHIFT)) <= Pow2(WIDEST)
  {
    hide Pow2;
    Pow2Add(64, INT_SHIFT);
    Pow2At64();
    Pow2Mono(64 + INT_SHIFT, WIDEST);
    MulMono(i, B, Pow2(INT_SHIFT));
    MulMono(-B, i, Pow2(INT_SHIFT));
    assert -B * Pow2(INT_SHIFT) == -(B * Pow2(INT_SHIFT));
  }

  lemma FloatIsBounded(bits: u64)
    requires ExponentField(bits) != 0x7FF
    ensures Units(bits) <= Pow2(WIDEST)
  {
    FiniteIsBelowInfinity(bits);
    LargestFloats();
    TopUnits();
    hide Units, Pow2;
    UnitsAreOrdered(Unsigned(bits), INFINITY);
  }

  /** A finite float's bits, sign left out, are below infinity's. */
  lemma FiniteIsBelowInfinity(bits: u64)
    requires ExponentField(bits) != 0x7FF
    ensures Unsigned(bits) < INFINITY && Units(Unsigned(bits)) == Units(bits)
  {
    var b := Unsigned(bits);
    QuotientIs(bits, TWO63, if bits >= TWO63 then 1 else 0, b);
    QuotientIs(b, TWO63, 0, b);
    assert b % TWO52 == bits % TWO52;
  }

  lemma {:induction false} SumIsBounded(numbers: seq<Document>)
    requires AllNumbers(numbers)
    ensures Abs(SumOf(ExactsOf(numbers))) <= |numbers| * Pow2(WIDEST)
  {
    if numbers != [] {
      var n := |numbers| - 1;
      SumIsBounded(numbers[..n]);
      assert ExactsOf(numbers)[..n] == ExactsOf(numbers[..n]);
      NumberIsBounded(numbers[n]);
      hide Pow2, ExactOf;
      OneMore(n, Pow2(WIDEST));
    }
  }

  /** With fewer than 2^64 numbers the wide integer never wraps. */
  lemma SumIsInRange(numbers: seq<Document>)
    requires AllNumbers(numbers)
    requires |numbers| < B
    ensures -Half() <= SumOf(ExactsOf(numbers)) < Half()
  {
    hide Pow2, Base;
    SumIsBounded(numbers);
    MulMono(|numbers|, B, Pow2(WIDEST));
    Pow2At64();
    Pow2Add(64, WIDEST);
    HalfIsPow2();
    Pow2Mono(64 + WIDEST, 2175);
  }

  lemma HalfIsPow2()
    ensures Half() == Pow2(2175)
  {
    hide Base, Pow2;
    BaseIsPow2(LIMBS - 1);
    Pow2Add(63, 64 * (LIMBS - 1));
    Pow2At64();
    OneMorePower(63);
  }

  // ----------------------------------------------------------- the accumulator

  function IntOf(d: Document): (i: int) {
    if d.Int? then d.number else 0
  }

  function IntSum(numbers: seq<Document>): (sum: int) {
    if numbers == [] then 0 else IntSum(numbers[..|numbers| - 1]) + IntOf(numbers[|numbers| - 1])
  }

  /** What `sum` hands out: an integer where every number was one and it fits, else
      the total as a float. */
  ghost predicate SumIs(numbers: seq<Document>, sum: Document) {
    AllNumbers(numbers) &&
    var whole := IntSum(numbers);
    if !AnyFloat(numbers) && -TWO63 <= whole < TWO63 then sum == Int(whole)
    else sum.Float? && IsTotal(ExactsOf(numbers), sum.bits)
  }

  /** What `avg` hands out: nothing of no numbers, else their mean. */
  ghost predicate MeanIs(numbers: seq<Document>, avg: Document) {
    AllNumbers(numbers) &&
    if numbers == [] then avg == Null else avg.Float? && IsMean(ExactsOf(numbers), avg.bits)
  }

  class ExactSum {
    /** The integers' sum, an `i128`. */
    var ints: int
    const wide: Wide
    /** Infinities and NaNs, added as `ieee` adds them. */
    var special: Option<u64>
    const ieee: Ieee
    var floats: bool
    var n: nat

    /** It holds exactly `numbers`. */
    ghost predicate Holds(numbers: seq<Document>)
      reads this, wide.limbs
    {
      && wide.Valid() && AllNumbers(numbers) && |numbers| < B
      && n == |numbers|
      && ints == IntSum(numbers)
      && (floats <==> AnyFloat(numbers))
      && IeeeOk(ieee) && special == SpecialBits(ieee, numbers)
      && Signed(wide.limbs[..]) == SumOf(ExactsOf(numbers))
    }

    constructor (i: Ieee)
      requires IeeeOk(i)
      ensures Holds([]) && ieee == i && fresh(wide) && fresh(wide.limbs)
    {
      ints, special, ieee, floats, n := 0, None, i, false, 0;
      wide := new Wide();
    }

    /** Adds `value` if it is a number; whether it was. */
    method Add(value: Document, ghost numbers: seq<Document>) returns (added: bool)
      requires Holds(numbers) && |numbers| + 1 < B
      modifies this, wide.limbs
      ensures added <==> IsNumber(value)
      ensures Holds(if added then numbers + [value] else numbers)
    {
      hide Pow2, Signed, Half, SumOf, SpecialBits, IntSum, ExactsOf, ExactOf, AnyFloat, AllNumbers, IeeeOk;
      if !IsNumber(value) {
        return false;
      }
      OneMoreNumber(numbers, value);
      assert (numbers + [value])[..|numbers|] == numbers;
      assert SpecialBits(ieee, numbers + [value]) == WithSpecial(ieee, special, value) by { OneMoreSpecial(ieee, numbers, value); }
      SumIsInRange(numbers + [value]);
      if value.Int? { UnitsOfInt(value.number); }
      AddWide(value);
      if value.Float? {
        floats := true;
        special := WithSpecial(ieee, special, value);
      } else {
        ints := ints + value.number;
      }
      n := n + 1;
      return true;
    }

    /** The number's units into the wide integer, none of an infinity or NaN. */
    method AddWide(value: Document)
      requires IsNumber(value) && wide.Valid()
      requires -Half() <= Signed(wide.limbs[..]) + Units'(ExactOf(value)) < Half()
      modifies wide.limbs
      ensures Signed(wide.limbs[..]) == old(Signed(wide.limbs[..])) + Units'(ExactOf(value))
    {
      hide Pow2, Signed, Half, ExactOf, Units, ExponentField, FractionField;
      match value {
        case Int(i) =>
          UnitsOfInt(i);
          wide.Add(Abs(i), INT_SHIFT, i < 0);
        case Float(bits) =>
          UnitsOfFloat(bits);
          if ExponentField(bits) == 0x7FF {
            // Added apart, as IEEE adds it.
          } else if ExponentField(bits) == 0 {
            wide.Add(FractionField(bits), 0, NegativeBit(bits));
          } else {
            wide.Add(FractionField(bits) + TWO52, ExponentField(bits) - 1, NegativeBit(bits));
          }
      }
    }

    /** The total as a float, rounded once. */
    method Total(ghost numbers: seq<Document>) returns (bits: u64)
      requires Holds(numbers)
      ensures IsTotal(ExactsOf(numbers), bits)
      ensures SpecialBits(ieee, numbers).Some? ==> Some(bits) == SpecialBits(ieee, numbers)
    {
      hide IsTotal, ExactsOf, SpecialBits, IeeeOk, Signed, SumOf, AnyFloat, IntSum, IsSignedRounded;
      match special {
        case Some(x) =>
          bits := x;
          SpecialTotal(ieee, numbers);
        case None =>
          bits := ToFloat(numbers);
          FiniteIs(ieee, numbers, bits);
      }
    }

    /** `to_f64`. */
    method ToFloat(ghost numbers: seq<Document>) returns (bits: u64)
      requires Holds(numbers)
      ensures IsSignedRounded(SumOf(ExactsOf(numbers)), 1, bits)
    {
      hide Pow2, Signed, Value, Base, SumOf, SpecialBits, ExactsOf, IsRounded, IeeeOk, AnyFloat, IntSum;
      var negative, magnitude := SignAndMagnitude(wide.limbs);
      bits := Rounded(negative, magnitude, None, 1, 0);
    }

    /** `div_to_f64`. */
    method DivToFloat(ghost numbers: seq<Document>) returns (bits: u64)
      requires Holds(numbers) && n > 0
      ensures IsSignedRounded(SumOf(ExactsOf(numbers)), n, bits)
    {
      hide Pow2, Signed, Value, Base, SumOf, SpecialBits, ExactsOf, IsRounded, IeeeOk, AnyFloat, IntSum;
      var negative, quotient := SignAndMagnitude(wide.limbs);
      var rest := Divide(quotient, n);
      bits := Rounded(negative, quotient, RestOf(rest, n), n, rest);
    }

    /** `sum`: an integer where every number was one and it fits. */
    method Sum(ghost numbers: seq<Document>) returns (sum: Document)
      requires Holds(numbers)
      ensures SumIs(numbers, sum)
      ensures SpecialBits(ieee, numbers).Some? ==> sum == Float(SpecialBits(ieee, numbers).value)
    {
      SpecialIsFloat(ieee, numbers);
      hide SpecialBits, IsTotal, IeeeOk, ExactsOf;
      if !floats && -TWO63 <= ints < TWO63 {
        sum := Int(ints);
      } else {
        var bits := Total(numbers);
        sum := Float(bits);
      }
    }

    /** `avg`: nothing of no numbers, else their mean. */
    method Avg(ghost numbers: seq<Document>) returns (avg: Document)
      requires Holds(numbers)
      ensures MeanIs(numbers, avg)
      ensures SpecialBits(ieee, numbers).Some? ==> avg == Float(ieee.div(SpecialBits(ieee, numbers).value, |numbers|))
    {
      hide IsMean, ExactsOf, SpecialBits, IeeeOk, Signed, SumOf, AnyFloat, IntSum, IsSignedRounded;
      SpecialIsFloat(ieee, numbers);
      if n == 0 {
        return Null;
      }
      match special {
        case Some(x) =>
          avg := Float(ieee.div(x, n));
          SpecialTotal(ieee, numbers);
        case None =>
          var bits := DivToFloat(numbers);
          avg := Float(bits);
          FiniteIs(ieee, numbers, bits);
      }
    }
  }

  lemma OneMoreNumber(numbers: seq<Document>, value: Document)
    requires AllNumbers(numbers) && IsNumber(value)
    ensures AllNumbers(numbers + [value])
    ensures ExactsOf(numbers + [value]) == ExactsOf(numbers) + [ExactOf(value)]
    ensures SumOf(ExactsOf(numbers + [value])) == SumOf(ExactsOf(numbers)) + Units'(ExactOf(value))
    ensures SpecialOf(ExactsOf(numbers + [value])) == AddSpecial(SpecialOf(ExactsOf(numbers)), ExactOf(value))
    ensures IntSum(numbers + [value]) == IntSum(numbers) + IntOf(value)
    ensures AnyFloat(numbers + [value]) <==> AnyFloat(numbers) || value.Float?
  {
    var all := numbers + [value];
    assert all[|numbers|] == value;
    assert forall i :: 0 <= i < |numbers| ==> all[i] == numbers[i];
    assert all[..|numbers|] == numbers;
    assert ExactsOf(all) == ExactsOf(numbers) + [ExactOf(value)];
    assert ExactsOf(all)[..|numbers|] == ExactsOf(numbers);
  }

  lemma OneMoreSpecial(ieee: Ieee, numbers: seq<Document>, value: Document)
    ensures SpecialBits(ieee, numbers + [value]) == WithSpecial(ieee, SpecialBits(ieee, numbers), value)
  {
    assert (numbers + [value])[..|numbers|] == numbers;
  }

  /** The bits kept have the value that is special of the numbers. */
  lemma {:induction false} SpecialBitsAre(ieee: Ieee, numbers: seq<Document>)
    requires IeeeOk(ieee) && AllNumbers(numbers)
    ensures var special := SpecialBits(ieee, numbers);
            && SpecialOf(ExactsOf(numbers)) == (if special.None? then None else Some(ExactOf(Float(special.value))))
            && (special.Some? ==> IsNonFinite(Float(special.value)))
  {
    hide ExactOf;
    if numbers != [] {
      var n := |numbers| - 1;
      SpecialBitsAre(ieee, numbers[..n]);
      assert ExactsOf(numbers)[..n] == ExactsOf(numbers[..n]);
      IntIsFinite(numbers[n]);
    }
  }

  lemma SpecialTotal(ieee: Ieee, numbers: seq<Document>)
    requires IeeeOk(ieee) && AllNumbers(numbers) && SpecialBits(ieee, numbers).Some?
    ensures IsTotal(ExactsOf(numbers), SpecialBits(ieee, numbers).value)
    ensures numbers != [] ==> IsMean(ExactsOf(numbers), ieee.div(SpecialBits(ieee, numbers).value, |numbers|))
  {
    SpecialBitsAre(ieee, numbers);
    hide SpecialBits, SpecialOf, ExactsOf, SumOf, ExactOf;
  }

  lemma FiniteIs(ieee: Ieee, numbers: seq<Document>, bits: u64)
    requires IeeeOk(ieee) && AllNumbers(numbers) && SpecialBits(ieee, numbers).None?
    ensures IsSignedRounded(SumOf(ExactsOf(numbers)), 1, bits) ==> IsTotal(ExactsOf(numbers), bits)
    ensures IsSignedRounded(SumOf(ExactsOf(numbers)), |numbers|, bits) ==> IsMean(ExactsOf(numbers), bits)
  {
    SpecialBitsAre(ieee, numbers);
    hide SpecialBits, SpecialOf, ExactsOf, SumOf, ExactOf, IsSignedRounded;
  }

  lemma IntIsFinite(d: Document)
    ensures d.Int? ==> ExactOf(d).Finite?
  {
  }

  lemma {:induction false} SpecialIsFloat(ieee: Ieee, numbers: seq<Document>)
    ensures SpecialBits(ieee, numbers).Some? ==> numbers != [] && AnyFloat(numbers)
  {
    hide ExactOf;
    if numbers != [] {
      var n := |numbers| - 1;
      SpecialIsFloat(ieee, numbers[..n]);
      if IsNonFinite(numbers[n]) {
        assert numbers[n].Float?;
      } else if AnyFloat(numbers[..n]) {
        var i :| 0 <= i < n && numbers[..n][i].Float?;
        assert numbers[i].Float?;
      }
    }
  }

  lemma UnitsOfInt(i: i64)
    ensures ExactOf(Int(i)).Finite?
    ensures Units'(ExactOf(Int(i))) == Plus(i < 0, 0, Abs(i) * Pow2(INT_SHIFT))
  {
    hide Pow2;
    var (value: int, p: int) := (i, Pow2(INT_SHIFT));
    assert -((-value) * p) == value * p;
  }

  lemma UnitsOfFloat(bits: u64)
    ensures ExactOf(Float(bits)).Finite? <==> ExponentField(bits) != 0x7FF
    ensures ExponentField(bits) == 0x7FF ==> Units'(ExactOf(Float(bits))) == 0
    ensures ExponentField(bits) == 0 ==>
              Units'(ExactOf(Float(bits))) == Plus(NegativeBit(bits), 0, FractionField(bits) * Pow2(0))
    ensures 0 < ExponentField(bits) < 0x7FF ==>
              var units := (FractionField(bits) + TWO52) * Pow2(ExponentField(bits) - 1);
              Units'(ExactOf(Float(bits))) == Plus(NegativeBit(bits), 0, units)
  {
    OneUnit();
    hide Pow2, ExponentField, FractionField;
  }

  // --------------------------------------------------- the order does not matter

  /** What is special of numbers depends on which there are alone. */
  lemma {:induction false} SpecialIs(xs: seq<Exact>)
    ensures SpecialOf(xs)
         == if NaN in xs || (Infinite(true) in xs && Infinite(false) in xs) then Some(NaN)
            else if Infinite(true) in xs then Some(Infinite(true))
            else if Infinite(false) in xs then Some(Infinite(false))
            else None
  {
    if xs != [] {
      var n := |xs| - 1;
      SpecialIs(xs[..n]);
      assert forall x :: x in xs <==> x in xs[..n] || x == xs[n];
    }
  }

  lemma {:induction false} SumWithout(xs: seq<Exact>, i: nat)
    requires i < |xs|
    ensures SumOf(xs) == SumOf(xs[..i] + xs[i + 1..]) + Units'(xs[i])
  {
    var n := |xs| - 1;
    if i == n {
      assert xs[..i] + xs[i + 1..] == xs[..n];
    } else {
      SumWithout(xs[..n], i);
      var rest := xs[..i] + xs[i + 1..];
      assert rest[..|rest| - 1] == xs[..n][..i] + xs[..n][i + 1..];
      assert rest[|rest| - 1] == xs[n];
    }
  }

  lemma {:induction false} SumIsPermuted(a: seq<Exact>, b: seq<Exact>)
    requires multiset(a) == multiset(b)
    ensures SumOf(a) == SumOf(b) && |a| == |b|
  {
    assert |multiset(a)| == |a| && |multiset(b)| == |b|;
    if a != [] {
      var n := |a| - 1;
      var x := a[n];
      assert x in multiset(a);
      var i :| 0 <= i < |b| && b[i] == x;
      TakenFrom(a, n);
      TakenFrom(b, i);
      assert a[..n] + a[n + 1..] == a[..n];
      hide SumOf;
      SumIsPermuted(a[..n], b[..i] + b[i + 1..]);
      SumWithout(a, n);
      SumWithout(b, i);
    }
  }

  lemma TakenFrom<T>(xs: seq<T>, i: nat)
    requires i < |xs|
    ensures multiset(xs[..i] + xs[i + 1..]) == multiset(xs) - multiset{xs[i]}
  {
    assert xs == xs[..i] + [xs[i]] + xs[i + 1..];
  }

  /** The same numbers in any order have the same total and the same mean. */
  lemma OrderDoesNotMatter(a: seq<Exact>, b: seq<Exact>, bits: u64)
    requires multiset(a) == multiset(b)
    ensures IsTotal(a, bits) <==> IsTotal(b, bits)
    ensures IsMean(a, bits) <==> IsMean(b, bits)
  {
    SumIsPermuted(a, b);
    SpecialIs(a);
    SpecialIs(b);
    assert forall x :: x in a <==> x in multiset(a);
    assert forall x :: x in b <==> x in multiset(b);
    hide SumOf, SpecialOf, IsSignedRounded;
  }

  lemma InfiniteBits(bits: u64)
    requires ExactOf(Float(bits)).Infinite?
    ensures bits == if NegativeBit(bits) then INFINITY + TWO63 else INFINITY
    ensures ExactOf(Float(bits)) == Infinite(NegativeBit(bits))
  {
  }

  lemma SpecialFloats(special: Exact, a: u64, b: u64)
    requires ExactOf(Float(a)) == ExactOf(Float(b)) == special && !special.Finite?
    ensures SameFloat(a, b) && (special != NaN ==> a == b)
  {
    if special != NaN {
      InfiniteBits(a);
      InfiniteBits(b);
    }
    hide ExactOf;
  }

  lemma SpecialOfThem(xs: seq<Exact>)
    ensures SpecialOf(xs) == Some(NaN) <==> GivesNaN(multiset(xs))
    ensures SpecialOf(xs).Some? ==> !SpecialOf(xs).value.Finite?
  {
    SpecialIs(xs);
    assert forall x :: x in xs <==> x in multiset(xs);
  }

  /** A total is one float, or NaN; so is a mean. */
  lemma TotalIsUnique(xs: seq<Exact>, a: u64, b: u64)
    requires IsTotal(xs, a) && IsTotal(xs, b)
    ensures SameFloat(a, b) && (!GivesNaN(multiset(xs)) ==> a == b)
  {
    SpecialOfThem(xs);
    hide IsRounded, GivesNaN, ExactOf;
    if SpecialOf(xs).None? {
      RoundingIsUnique(Abs(SumOf(xs)), 1, Unsigned(a), Unsigned(b));
    } else {
      SpecialFloats(SpecialOf(xs).value, a, b);
    }
  }

  lemma MeanIsUnique(xs: seq<Exact>, a: u64, b: u64)
    requires xs != [] && IsMean(xs, a) && IsMean(xs, b)
    ensures SameFloat(a, b) && (!GivesNaN(multiset(xs)) ==> a == b)
  {
    SpecialOfThem(xs);
    hide IsRounded, GivesNaN, ExactOf;
    if SpecialOf(xs).None? {
      RoundingIsUnique(Abs(SumOf(xs)), |xs|, Unsigned(a), Unsigned(b));
    } else {
      SpecialFloats(SpecialOf(xs).value, a, b);
    }
  }

  /** Just where the total is NaN it is more than one. */
  lemma TotalIsOneFloat(xs: seq<Exact>)
    ensures (forall a: u64, b: u64 :: IsTotal(xs, a) && IsTotal(xs, b) ==> a == b) <==> !GivesNaN(multiset(xs))
    ensures xs != [] ==>
              ((forall a: u64, b: u64 :: IsMean(xs, a) && IsMean(xs, b) ==> a == b) <==> !GivesNaN(multiset(xs)))
  {
    SpecialOfThem(xs);
    TwoNaNs();
    hide GivesNaN, ExactOf, IsSignedRounded;
    if GivesNaN(multiset(xs)) {
      assert IsTotal(xs, ONE_NAN) && IsTotal(xs, OTHER_NAN) && IsMean(xs, ONE_NAN) && IsMean(xs, OTHER_NAN);
    } else {
      forall a: u64, b: u64 | IsTotal(xs, a) && IsTotal(xs, b) ensures a == b { TotalIsUnique(xs, a, b); }
      if xs != [] {
        forall a: u64, b: u64 | IsMean(xs, a) && IsMean(xs, b) ensures a == b { MeanIsUnique(xs, a, b); }
      }
    }
  }

  const ONE_NAN: u64 := 0x7FF8_0000_0000_0001
  const OTHER_NAN: u64 := 0x7FF8_0000_0000_0002

  lemma TwoNaNs()
    ensures ExactOf(Float(ONE_NAN)) == ExactOf(Float(OTHER_NAN)) == NaN && ONE_NAN != OTHER_NAN
  {
  }

  // ------------------------------------------------------ the mean lies between

  ghost predicate FiniteFloats(numbers: seq<Document>) {
    forall i :: 0 <= i < |numbers| ==> numbers[i].Float? && ExactOf(numbers[i]).Finite?
  }

  lemma {:induction false} SumLiesBetween(xs: seq<Exact>, low: int, high: int)
    requires forall x <- xs :: x.Finite? && low <= x.units <= high
    ensures |xs| * low <= SumOf(xs) <= |xs| * high
  {
    if xs != [] {
      var n := |xs| - 1;
      SumLiesBetween(xs[..n], low, high);
      OneMore(n, low);
      OneMore(n, high);
    }
  }

  /** The mean of finite floats is no less than the smallest and no more than
      the largest of them, so it is finite, however large their total. */
  lemma MeanLiesBetween(numbers: seq<Document>, low: u64, high: u64, bits: u64)
    requires numbers != [] && FiniteFloats(numbers)
    requires Float(low) in numbers && Float(high) in numbers
    requires forall i :: 0 <= i < |numbers| ==>
               CompareExact(ExactOf(Float(low)), ExactOf(numbers[i])) <= 0
               && CompareExact(ExactOf(numbers[i]), ExactOf(Float(high))) <= 0
    requires IsMean(ExactsOf(numbers), bits)
    ensures ExactOf(Float(bits)).Finite?
    ensures CompareExact(ExactOf(Float(low)), ExactOf(Float(bits))) <= 0
    ensures CompareExact(ExactOf(Float(bits)), ExactOf(Float(high))) <= 0
  {
    var xs := ExactsOf(numbers);
    var (lo, hi) := (ExactOf(Float(low)).units, ExactOf(Float(high)).units);
    assert forall x <- xs :: x.Finite? && lo <= x.units <= hi;
    SpecialIs(xs);
    SumLiesBetween(xs, lo, hi);
    hide ExactsOf, SumOf, SpecialOf, ExactOf;
    RoundedLiesBetween(SumOf(xs), |xs|, low, high, bits);
  }

  lemma RoundedLiesBetween(sum: int, n: nat, low: u64, high: u64, bits: u64)
    requires n > 0 && ExactOf(Float(low)).Finite? && ExactOf(Float(high)).Finite?
    requires n * ExactOf(Float(low)).units <= sum <= n * ExactOf(Float(high)).units
    requires IsSignedRounded(sum, n, bits)
    ensures ExactOf(Float(bits)).Finite?
    ensures ExactOf(Float(low)).units <= ExactOf(Float(bits)).units <= ExactOf(Float(high)).units
  {
    FloatUnits(low);
    FloatUnits(high);
    assert Units(0) == 0;
    hide Units, IsRounded, ExactOf;
    var (lo, hi) := (ExactOf(Float(low)).units, ExactOf(Float(high)).units);
    if sum >= 0 {
      SignOfFactor(n, hi, sum);
      AtMostAFloat(sum, n, Unsigned(bits), Unsigned(high));
      UnitsUpTo(Unsigned(bits), Unsigned(high));
      if lo > 0 {
        AtLeastAFloat(sum, n, Unsigned(bits), Unsigned(low));
        UnitsUpTo(Unsigned(low), Unsigned(bits));
      }
    } else {
      Opposite(n, lo);
      Opposite(n, hi);
      SignOfFactor(n, -lo, -sum);
      AtMostAFloat(-sum, n, Unsigned(bits), Unsigned(low));
      UnitsUpTo(Unsigned(bits), Unsigned(low));
      if hi < 0 {
        AtLeastAFloat(-sum, n, Unsigned(bits), Unsigned(high));
        UnitsUpTo(Unsigned(high), Unsigned(bits));
      }
    }
    FloatUnits(bits);
  }

  /** A finite float's units, by its sign and its bits without. */
  lemma FloatUnits(bits: u64)
    ensures ExactOf(Float(bits)).Finite? <==> Unsigned(bits) < INFINITY
    ensures ExactOf(Float(bits)).Finite? ==>
              var units: int := Units(Unsigned(bits));
              ExactOf(Float(bits)).units == if NegativeBit(bits) then -units else units
  {
    if ExponentField(bits) != 0x7FF {
      FiniteIsBelowInfinity(bits);
    } else {
      var b := Unsigned(bits);
      QuotientIs(bits, TWO63, if bits >= TWO63 then 1 else 0, b);
      assert b / TWO52 == 0x7FF;
    }
  }

  lemma SignOfFactor(n: nat, x: int, s: int)
    requires n > 0 && 0 <= s <= n * x
    ensures x >= 0
  {
    if x < 0 { SmallMultiple(x, n); }
  }

  lemma Opposite(n: int, x: int)
    ensures n * -x == -(n * x)
  {
  }

  lemma UnitsUpTo(a: int, b: int)
    requires 0 <= a <= b <= INFINITY
    ensures Units(a) <= Units(b)
  {
    hide Units;
    if a < b { UnitsAreOrdered(a, b); }
  }

  // ------------------------------------------------- whatever the order and the kind

  /** The numbers among values. */
  function NumbersIn(values: seq<Document>): (numbers: seq<Document>)
    ensures AllNumbers(numbers) && |numbers| <= |values|
  {
    if values == [] then []
    else
      var n := |values| - 1;
      var rest := NumbersIn(values[..n]);
      if IsNumber(values[n]) then rest + [values[n]] else rest
  }

  /** Every value added, one after another; those that are no numbers are passed
      over. */
  method SumAll(ieee: Ieee, values: seq<Document>) returns (sum: Document, avg: Document)
    requires |values| < B && IeeeOk(ieee)
    ensures SumIs(NumbersIn(values), sum) && MeanIs(NumbersIn(values), avg)
    ensures var special := SpecialBits(ieee, NumbersIn(values));
            special.Some? ==> sum == Float(special.value) && avg == Float(ieee.div(special.value, |NumbersIn(values)|))
  {
    hide *;
    var exact := new ExactSum(ieee);
    NumbersInNone(values);
    for i := 0 to |values|
      invariant exact.ieee == ieee && exact.Holds(NumbersIn(values[..i])) && fresh(exact) && fresh(exact.wide) && fresh(exact.wide.limbs)
    {
      NumbersInMore(values, i);
      var added := exact.Add(values[i], NumbersIn(values[..i]));
    }
    assert values[..|values|] == values;
    sum := exact.Sum(NumbersIn(values));
    avg := exact.Avg(NumbersIn(values));
  }

  lemma NumbersInNone(values: seq<Document>)
    ensures NumbersIn(values[..0]) == []
  {
  }

  lemma NumbersInMore(values: seq<Document>, i: nat)
    requires i < |values|
    ensures NumbersIn(values[..i + 1])
         == if IsNumber(values[i]) then NumbersIn(values[..i]) + [values[i]] else NumbersIn(values[..i])
  {
    assert values[..i + 1][..i] == values[..i];
  }

  lemma {:induction false} IntSumWithout(numbers: seq<Document>, i: nat)
    requires i < |numbers|
    ensures IntSum(numbers) == IntSum(numbers[..i] + numbers[i + 1..]) + IntOf(numbers[i])
  {
    hide IntOf;
    var n := |numbers| - 1;
    var rest := numbers[..i] + numbers[i + 1..];
    if i == n {
      assert rest == numbers[..n];
    } else {
      var front := numbers[..n];
      IntSumWithout(front, i);
      var less := front[..i] + front[i + 1..];
      assert numbers[i + 1..] == front[i + 1..] + [numbers[n]] && numbers[..i] == front[..i];
      assert rest == less + [numbers[n]] && |less| == n - 1;
      assert rest[..n - 1] == less && rest[n - 1] == numbers[n];
    }
  }

  lemma ExactsWithout(numbers: seq<Document>, i: nat)
    requires AllNumbers(numbers) && i < |numbers|
    ensures AllNumbers(numbers[..i] + numbers[i + 1..])
    ensures multiset(ExactsOf(numbers[..i] + numbers[i + 1..])) == multiset(ExactsOf(numbers)) - multiset{ExactOf(numbers[i])}
  {
    hide ExactOf;
    var xs := ExactsOf(numbers);
    assert ExactsOf(numbers[..i] + numbers[i + 1..]) == xs[..i] + xs[i + 1..];
    TakenFrom(xs, i);
  }

  lemma {:induction false} NumbersPermuted(a: seq<Document>, b: seq<Document>)
    requires AllNumbers(a) && AllNumbers(b) && multiset(a) == multiset(b)
    ensures multiset(ExactsOf(a)) == multiset(ExactsOf(b)) && IntSum(a) == IntSum(b)
    decreases |a|
  {
    hide ExactOf, IntOf;
    if a == [] {
      assert |multiset(b)| == 0;
    } else {
      var n := |a| - 1;
      var x := a[n];
      assert x in multiset(b);
      var i :| 0 <= i < |b| && b[i] == x;
      var less, rest := a[..n] + a[n + 1..], b[..i] + b[i + 1..];
      TakenFrom(a, n);
      TakenFrom(b, i);
      ExactsWithout(a, n);
      ExactsWithout(b, i);
      IntSumWithout(a, n);
      IntSumWithout(b, i);
      NumbersPermuted(less, rest);
      assert ExactsOf(a)[n] == ExactOf(x) && ExactsOf(b)[i] == ExactOf(x);
      Restored(multiset(ExactsOf(a)), multiset(ExactsOf(b)), ExactOf(x));
    }
  }

  lemma Restored(a: multiset<Exact>, b: multiset<Exact>, x: Exact)
    requires x in a && x in b && a - multiset{x} == b - multiset{x}
    ensures a == b
  {
    assert a == a - multiset{x} + multiset{x};
    assert b == b - multiset{x} + multiset{x};
  }

  /** The sum of the same numbers in any order is the same; only which NaN it is, where
      it is one, may differ. */
  lemma SumIgnoresOrder(a: seq<Document>, b: seq<Document>, s: Document, t: Document)
    requires multiset(a) == multiset(b) && SumIs(a, s) && SumIs(b, t)
    ensures Alike(s, t) && (!GivesNaN(multiset(ExactsOf(a))) ==> s == t)
  {
    NumbersPermuted(a, b);
    assert forall d :: d in a <==> d in multiset(a);
    assert forall d :: d in b <==> d in multiset(b);
    SameFloats(a, b);
    hide IntSum, ExactsOf, AnyFloat, IsTotal, GivesNaN, SameFloat;
    if s.Float? && t.Float? {
      OrderDoesNotMatter(ExactsOf(a), ExactsOf(b), s.bits);
      TotalIsUnique(ExactsOf(b), s.bits, t.bits);
    }
  }

  lemma SameFloats(a: seq<Document>, b: seq<Document>)
    requires forall d :: d in a <==> d in b
    ensures AnyFloat(a) == AnyFloat(b)
  {
    if i :| 0 <= i < |a| && a[i].Float? { assert a[i] in b; }
    if i :| 0 <= i < |b| && b[i].Float? { assert b[i] in a; }
  }

  /** The mean depends on what the numbers are, exactly: neither on their order nor
      on whether a whole number came as an integer or as a float. Only which NaN it
      is, where it is one, may differ. */
  lemma MeanIgnoresKind(a: seq<Document>, b: seq<Document>, s: Document, t: Document)
    requires AllNumbers(a) && AllNumbers(b) && multiset(ExactsOf(a)) == multiset(ExactsOf(b))
    requires MeanIs(a, s) && MeanIs(b, t)
    ensures Alike(s, t) && (!GivesNaN(multiset(ExactsOf(a))) ==> s == t)
  {
    hide ExactsOf, IsMean, GivesNaN, SameFloat;
    assert |multiset(ExactsOf(a))| == |a| && |multiset(ExactsOf(b))| == |b|;
    if a != [] {
      OrderDoesNotMatter(ExactsOf(a), ExactsOf(b), s.bits);
      MeanIsUnique(ExactsOf(b), s.bits, t.bits);
    }
  }

  // -------------------------------------------------------------------- which NaN

  /** Of one number alone that is not finite the sum has its bits. */
  lemma {:induction false} OneSpecialIsKept(ieee: Ieee, numbers: seq<Document>, i: nat)
    requires i < |numbers| && IsNonFinite(numbers[i])
    requires forall j :: 0 <= j < |numbers| && j != i ==> !IsNonFinite(numbers[j])
    ensures SpecialBits(ieee, numbers) == Some(numbers[i].bits)
  {
    hide IsNonFinite;
    var n := |numbers| - 1;
    assert forall j :: 0 <= j < n ==> numbers[..n][j] == numbers[j];
    if i == n {
      NoneSpecial(ieee, numbers[..n]);
    } else {
      OneSpecialIsKept(ieee, numbers[..n], i);
    }
  }

  lemma {:induction false} NoneSpecial(ieee: Ieee, numbers: seq<Document>)
    requires forall j :: 0 <= j < |numbers| ==> !IsNonFinite(numbers[j])
    ensures SpecialBits(ieee, numbers) == None
  {
    hide IsNonFinite;
    if numbers != [] {
      var n := |numbers| - 1;
      assert forall j :: 0 <= j < n ==> numbers[..n][j] == numbers[j];
      NoneSpecial(ieee, numbers[..n]);
    }
  }

  /** A machine on which the first NaN stays. */
  function FirstNaN(): (ieee: Ieee) {
    Ieee((a: u64, b: u64) => if ExactOf(Float(a)).NaN? || a == b then a else if ExactOf(Float(b)).NaN? then b else ONE_NAN,
         (a: u64, n: nat) => a)
  }

  lemma FirstNaNIsOk()
    ensures IeeeOk(FirstNaN())
  {
    TwoNaNs();
    forall a: u64, b: u64 | IsNonFinite(Float(a)) && IsNonFinite(Float(b))
      ensures Some(ExactOf(Float(FirstNaN().add(a, b)))) == AddSpecial(Some(ExactOf(Float(a))), ExactOf(Float(b)))
    {
      if ExactOf(Float(a)).Infinite? && ExactOf(Float(b)).Infinite? {
        InfiniteBits(a);
        InfiniteBits(b);
      }
      hide ExactOf;
    }
  }

  /** There two NaNs in the other order have another sum, and for a mean one is not as
      good as the other: only that it is NaN does not depend on it. */
  lemma NaNsDepend()
    ensures IeeeOk(FirstNaN())
    ensures var (x, y) := (Float(ONE_NAN), Float(OTHER_NAN));
            && SpecialBits(FirstNaN(), [x, y]) == Some(ONE_NAN) && SpecialBits(FirstNaN(), [y, x]) == Some(OTHER_NAN)
            && SpecialBits(FirstNaN(), [x]) == Some(ONE_NAN) && SpecialBits(FirstNaN(), [y]) == Some(OTHER_NAN)
            && ExactOf(x) == ExactOf(y)
  {
    TwoNaNs();
    FirstNaNIsOk();
    var (x, y) := (Float(ONE_NAN), Float(OTHER_NAN));
    hide ExactOf, IeeeOk;
    OneSpecialIsKept(FirstNaN(), [x], 0);
    OneSpecialIsKept(FirstNaN(), [y], 0);
    OneMoreSpecial(FirstNaN(), [x], y);
    OneMoreSpecial(FirstNaN(), [y], x);
    assert [x] + [y] == [x, y] && [y] + [x] == [y, x];
  }
}
