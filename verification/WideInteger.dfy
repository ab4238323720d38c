/** The wide fixed-point integer exact sums are kept in (`src/aggregate.rs`):
    34 limbs of 64 bits, two's complement, in units of 2^-1074. */
module WideInteger {
  import opened Values
  import opened Powers
  import opened Rounding

  const B: int := 0x1_0000_0000_0000_0000
  const LIMBS: nat := 34

  /** 2^(64 n): what limb `n` counts. */
  function Base(n: nat): (b: nat)
    ensures b >= 1
  {
    if n == 0 then 1 else B * Base(n - 1)
  }

  /** What limbs stand for, lowest first. */
  function Value(l: seq<u64>): (v: nat) {
    if l == [] then 0
    else
      MulNonNegative(l[|l| - 1], Base(|l| - 1));
      Value(l[..|l| - 1]) + l[|l| - 1] * Base(|l| - 1)
  }

  // ------------------------------------------------------------ limb arithmetic

  lemma {:induction false} BaseIsPow2(n: nat)
    ensures Base(n) == Pow2(64 * n)
  {
    if n > 0 {
      BaseIsPow2(n - 1);
      Pow2Of64(64 * (n - 1));
    }
  }

  lemma Pow2Of64(k: nat)
    ensures Pow2(64 + k) == B * Pow2(k)
  {
    Pow2Add(64, k);
    Pow2At64();
    hide Pow2;
  }

  lemma Pow2At64()
    ensures Pow2(64) == B
  {
    assert Pow2(8) == 0x100;
    hide Pow2;
    Pow2Add(8, 8);
    Pow2Add(16, 16);
    Pow2Add(32, 32);
  }

  lemma BaseAdd(a: nat, b: nat)
    ensures Base(a + b) == Base(a) * Base(b)
  {
    BaseIsPow2(a);
    BaseIsPow2(b);
    BaseIsPow2(a + b);
    Pow2Add(64 * a, 64 * b);
  }

  lemma ValueOneMore(l: seq<u64>, x: u64)
    ensures Value(l + [x]) == Value(l) + x * Base(|l|)
  {
    assert (l + [x])[..|l|] == l;
  }

  lemma ValueUpTo(l: seq<u64>, i: nat)
    requires i < |l|
    ensures Value(l[..i + 1]) == Value(l[..i]) + l[i] * Base(i)
  {
    assert l[..i + 1] == l[..i] + [l[i]];
    ValueOneMore(l[..i], l[i]);
  }

  lemma {:induction false} ValueIsBounded(l: seq<u64>)
    ensures Value(l) < Base(|l|)
  {
    if l != [] {
      var n := |l| - 1;
      ValueIsBounded(l[..n]);
      BelowNext(Value(l[..n]), l[n], Base(n));
    }
  }

  lemma BelowNext(v: nat, x: u64, base: nat)
    requires v < base
    ensures v + x * base < B * base
  {
    MulMono(x, B - 1, base);
    OneMore(B - 1, base);
  }

  /** The limbs from `i` on count in steps of their base. */
  lemma {:induction false} ValueSplit(l: seq<u64>, i: nat)
    requires i <= |l|
    ensures Value(l) == Value(l[..i]) + Base(i) * Value(l[i..])
  {
    if i == |l| {
      assert l[..i] == l;
    } else {
      var n := |l| - 1;
      ValueSplit(l[..n], i);
      assert l[..n][..i] == l[..i] && l[..n][i..] == l[i..][..n - i];
      BaseAdd(i, n - i);
      SplitStep(Base(i), Value(l[i..][..n - i]), l[n], Base(n - i));
    }
  }

  lemma SplitStep(low: int, rest: int, x: int, high: int)
    ensures low * (rest + x * high) == low * rest + x * (low * high)
  {
    Distribute(low, rest, x * high);
  }

  lemma ValueFront(x: u64, l: seq<u64>)
    ensures Value([x] + l) == x + B * Value(l)
  {
    ValueSplit([x] + l, 1);
    assert ([x] + l)[..1] == [x] && ([x] + l)[1..] == l;
    assert Value([x]) == x && Base(1) == B;
  }

  // ------------------------------------------------------------------- the sign

  /** Half the range: 2^2175. */
  ghost function Half(): (h: int)
    ensures h > 0
  {
    TWO63 * Base(LIMBS - 1)
  }

  /** What the limbs stand for as two's complement. */
  ghost function Signed(l: seq<u64>): (v: int)
    requires |l| == LIMBS
  {
    if l[LIMBS - 1] >= TWO63 then Value(l) - Base(LIMBS) else Value(l)
  }

  lemma SignedIsInRange(l: seq<u64>)
    requires |l| == LIMBS
    ensures Base(LIMBS) == 2 * Half()
    ensures -Half() <= Signed(l) < Half()
    ensures Signed(l) < 0 <==> l[LIMBS - 1] >= TWO63
    ensures Signed(l) == if Signed(l) < 0 then Value(l) - Base(LIMBS) else Value(l)
  {
    hide Base;
    var (top, base) := (l[LIMBS - 1], Base(LIMBS - 1));
    ValueUpTo(l, LIMBS - 1);
    assert l[..LIMBS] == l;
    ValueIsBounded(l[..LIMBS - 1]);
    ValueIsBounded(l);
    DoubleHalf();
    if top >= TWO63 {
      MulMono(TWO63, top, base);
    } else {
      MulMono(top, TWO63 - 1, base);
      OneMore(TWO63 - 1, base);
    }
  }

  lemma DoubleHalf()
    ensures Base(LIMBS) == 2 * Half()
  {
    assert Base(LIMBS) == B * Base(LIMBS - 1);
  }

  // ------------------------------------------------------------------- adding

  /** `overflowing_add` or `overflowing_sub`, twice: of the part, then of the
      carry; what carries over is one. */
  function AddLimb(x: u64, part: u64, carry: bool, negative: bool): (r: (u64, bool))
    ensures var c := if carry then 1 else 0;
            var over := if r.1 then B else 0;
            if negative then r.0 - over == x - part - c else r.0 + over == x + part + c
  {
    var c := if carry then 1 else 0;
    if negative then
      var (a, o1) := if x >= part then (x - part, false) else (x - part + B, true);
      var (b, o2) := if a >= c then (a - c, false) else (a - c + B, true);
      (b, o1 || o2)
    else
      var (a, o1) := if x + part < B then (x + part, false) else (x + part - B, true);
      var (b, o2) := if a + c < B then (a + c, false) else (a + c - B, true);
      (b, o1 || o2)
  }

  /** What has been added once the limbs below `i` are done: the low part at
      `limb`, the high one above it. */
  ghost function Added(limb: nat, low: u64, high: u64, i: nat): (v: int) {
    if i <= limb then 0
    else if i == limb + 1 then low * Base(limb)
    else low * Base(limb) + high * Base(limb + 1)
  }

  ghost function Plus(negative: bool, a: int, b: int): (c: int) {
    if negative then a - b else a + b
  }

  /** The limbs below `i` are added, but for what carries into `i`. */
  ghost predicate AddedBelow(
    was: seq<u64>, now: seq<u64>, limb: nat, low: u64, high: u64, negative: bool, carry: bool, i: nat)
    requires |was| == |now| && i <= |was|
  {
    && Plus(negative, Value(now[..i]), if carry then Base(i) else 0)
       == Plus(negative, Value(was[..i]), Added(limb, low, high, i))
    && now[i..] == was[i..]
  }

  lemma AddOneLimb(
    was: seq<u64>, now: seq<u64>, limb: nat, low: u64, high: u64, negative: bool, carry: bool, i: nat,
    part: u64, after: seq<u64>)
    requires |was| == |now| == |after| && limb <= i < |was|
    requires AddedBelow(was, now, limb, low, high, negative, carry, i)
    requires part == if i == limb then low else if i == limb + 1 then high else 0
    requires after == now[i := AddLimb(now[i], part, carry, negative).0]
    ensures AddedBelow(was, after, limb, low, high, negative, AddLimb(now[i], part, carry, negative).1, i + 1)
  {
    var (sum, over) := AddLimb(now[i], part, carry, negative);
    ValueUpTo(was, i);
    ValueUpTo(after, i);
    assert after[..i] == now[..i] && after[i + 1..] == now[i..][1..] && was[i + 1..] == was[i..][1..];
    assert now[i] == now[i..][0] == was[i..][0] == was[i];
    assert Added(limb, low, high, i + 1) == Added(limb, low, high, i) + part * Base(i);
    assert Base(i + 1) == B * Base(i);
    hide Base, Value, Added, AddLimb;
    CarryStep(negative, was[i], part, carry, sum, over, Base(i));
  }

  /** A limb's step, in its base. */
  lemma CarryStep(negative: bool, x: int, part: int, carry: bool, sum: int, over: bool, base: int)
    requires var c := if carry then 1 else 0;
             var o := if over then B else 0;
             if negative then sum - o == x - part - c else sum + o == x + part + c
    ensures var c := if carry then base else 0;
            var o := if over then B * base else 0;
            if negative then sum * base - o == x * base - part * base - c
            else sum * base + o == x * base + part * base + c
  {
    var c := if carry then 1 else 0;
    var o := if over then B else 0;
    Distribute(base, sum, if negative then -o else o);
    Distribute(base, x, if negative then -part else part);
    Distribute(base, if negative then x - part else x + part, if negative then -c else c);
  }

  /** Added whole, and what carried past the top is lost: the sum is right
      where it is in range. */
  lemma AddedWhole(was: seq<u64>, now: seq<u64>, value: u64, shift: nat, negative: bool, carry: bool)
    requires |was| == |now| == LIMBS && shift < 2048
    requires var (limb, wide) := (shift / 64, value * Pow2(shift % 64));
             && 0 <= wide / B < B && 0 <= wide % B < B
             && AddedBelow(was, now, limb, wide % B, wide / B, negative, carry, LIMBS)
    ensures var sum := Plus(negative, Signed(was), value * Pow2(shift));
            -Half() <= sum < Half() ==> Signed(now) == sum
  {
    hide Pow2, Base, Value, Added;
    assert was[..LIMBS] == was && now[..LIMBS] == now;
    SignedIsInRange(was);
    SignedIsInRange(now);
    AddedIsShifted(value, shift);
    hide Half;
  }

  lemma AddedIsShifted(value: u64, shift: nat)
    requires shift < 2048
    requires var wide := value * Pow2(shift % 64); 0 <= wide / B < B && 0 <= wide % B < B
    ensures var wide := value * Pow2(shift % 64);
            Added(shift / 64, wide % B, wide / B, LIMBS) == value * Pow2(shift)
  {
    var (limb, bit) := (shift / 64, shift % 64);
    assert Base(limb + 1) == B * Base(limb);
    hide Base, Pow2;
    PartsAreWhole(value * Pow2(bit), Base(limb));
    BaseIsPow2(limb);
    Pow2Add(bit, 64 * limb);
    Reassociate(value, Pow2(bit), Pow2(64 * limb));
    assert shift == bit + 64 * limb;
  }

  lemma PartsAreWhole(wide: nat, base: nat)
    ensures (wide % B) * base + (wide / B) * (B * base) == wide * base
  {
    var (low, high) := (wide % B, wide / B);
    Reassociate(high, B, base);
    Distribute(base, low, high * B);
  }

  lemma Reassociate(x: int, y: int, z: int)
    ensures x * (y * z) == (x * y) * z
  {
  }

  lemma PartsFit(value: u64, bit: nat)
    requires bit < 64
    ensures 0 <= value * Pow2(bit)
    ensures 0 <= value * Pow2(bit) / B < B
  {
    Pow2Mono(bit, 64);
    Pow2At64();
    hide Pow2;
    var p := Pow2(bit);
    MulNonNegative(value, p);
    MulMono(value, B - 1, p);
    assert (B - 1) * p < B * B;
    DivBelow(value * p, B);
  }

  lemma DivBelow(v: nat, d: nat)
    requires d > 0 && v < d * d
    ensures v / d < d
  {
    if v / d >= d {
      MulMono(d, v / d, d);
    }
  }

  class Wide {
    const limbs: array<u64>

    ghost predicate Valid() {
      limbs.Length == LIMBS
    }

    constructor ()
      ensures Valid() && fresh(limbs)
      ensures Signed(limbs[..]) == 0
    {
      limbs := new u64[LIMBS](_ => 0);
      new;
      ValueOfZeros(limbs[..]);
    }

    /** Adds, or with `negative` subtracts, `value << shift`. */
    method Add(value: u64, shift: nat, negative: bool)
      requires Valid() && shift < 2048
      modifies limbs
      ensures var sum := Plus(negative, old(Signed(limbs[..])), value * Pow2(shift));
              -Half() <= sum < Half() ==> Signed(limbs[..]) == sum
    {
      ghost var was := limbs[..];
      var (limb, bit) := (shift / 64, shift % 64);
      var wide := value * Pow2(bit);
      PartsFit(value, bit);
      hide Pow2, Base, Value, Signed, Half;
      var parts: seq<u64> := [wide % B, wide / B];
      var carry := false;
      var i := limb;
      assert AddedBelow(was, limbs[..], limb, parts[0], parts[1], negative, carry, i);
      while i < LIMBS
        invariant limb <= i <= LIMBS
        invariant AddedBelow(was, limbs[..], limb, parts[0], parts[1], negative, carry, i)
      {
        var part: u64 := if i - limb < 2 then parts[i - limb] else 0;
        if part == 0 && !carry && i >= limb + 2 {
          break;
        }
        var (sum, over) := AddLimb(limbs[i], part, carry, negative);
        ghost var now := limbs[..];
        limbs[i] := sum;
        AddOneLimb(was, now, limb, parts[0], parts[1], negative, carry, i, part, limbs[..]);
        carry := over;
        i := i + 1;
      }
      NothingMore(was, limbs[..], limb, parts[0], parts[1], negative, carry, i);
      AddedWhole(was, limbs[..], value, shift, negative, carry);
    }
  }

  lemma {:induction false} ValueOfZeros(l: seq<u64>)
    requires forall i :: 0 <= i < |l| ==> l[i] == 0
    ensures Value(l) == 0
  {
    if l != [] { ValueOfZeros(l[..|l| - 1]); }
  }

  /** With nothing carried and nothing to add, the limbs above stay. */
  lemma NothingMore(
    was: seq<u64>, now: seq<u64>, limb: nat, low: u64, high: u64, negative: bool, carry: bool, i: nat)
    requires |was| == |now| == LIMBS && i <= LIMBS
    requires AddedBelow(was, now, limb, low, high, negative, carry, i)
    requires i == LIMBS || (!carry && i >= limb + 2)
    ensures AddedBelow(was, now, limb, low, high, negative, carry, LIMBS)
  {
    if i < LIMBS {
      ValueSplit(was, i);
      ValueSplit(now, i);
      assert was[..LIMBS] == was && now[..LIMBS] == now;
      hide Value, Base;
    }
  }

  // --------------------------------------------------------- sign and magnitude

  /** The limbs below `i` inverted, one added: what is left to a full base. */
  ghost predicate NegatedBelow(was: seq<u64>, now: seq<u64>, carry: bool, i: nat)
    requires |was| == |now| && i <= |was|
  {
    && Value(now[..i]) + (if carry then Base(i) else 0) == Base(i) - Value(was[..i])
    && now[i..] == was[i..]
  }

  /** `!limb`, then `overflowing_add` of the carry. */
  function NegateLimb(x: u64, carry: bool): (r: (u64, bool)) {
    if carry && x == 0 then (0, true) else (B - 1 - x + (if carry then 1 else 0), false)
  }

  lemma NegateOneLimb(was: seq<u64>, now: seq<u64>, carry: bool, i: nat, after: seq<u64>)
    requires |was| == |now| == |after| && i < |was| && NegatedBelow(was, now, carry, i)
    requires after == now[i := NegateLimb(now[i], carry).0]
    ensures NegatedBelow(was, after, NegateLimb(now[i], carry).1, i + 1)
  {
    var (v, over) := NegateLimb(now[i], carry);
    ValueUpTo(was, i);
    ValueUpTo(after, i);
    assert after[..i] == now[..i] && after[i + 1..] == now[i..][1..] && was[i + 1..] == was[i..][1..];
    assert now[i] == now[i..][0] == was[i..][0] == was[i];
    assert Base(i + 1) == B * Base(i);
    hide Base, Value;
    NegateStep(was[i], carry, v, over, Base(i), Value(now[..i]), Value(was[..i]));
  }

  lemma NegateStep(x: int, carry: bool, v: int, over: bool, base: int, low: int, wasLow: int)
    requires v + (if over then B else 0) == B - 1 - x + (if carry then 1 else 0)
    requires low + (if carry then base else 0) == base - wasLow
    ensures low + v * base + (if over then B * base else 0) == B * base - (wasLow + x * base)
  {
    var left := B - 1 - x;
    CarryStep(false, left, 0, carry, v, over, base);
    Distribute(base, left, x);
    Distribute(base, B - 1, 1);
  }

  /** Whether it is below zero, and how far from zero. */
  method SignAndMagnitude(limbs: array<u64>) returns (negative: bool, magnitude: array<u64>)
    requires limbs.Length == LIMBS
    ensures fresh(magnitude) && magnitude.Length == LIMBS
    ensures negative <==> Signed(limbs[..]) < 0
    ensures Value(magnitude[..]) == Abs(Signed(limbs[..]))
  {
    hide Half, Value, Base, Signed;
    ghost var was := limbs[..];
    SignedIsInRange(was);
    negative := limbs[LIMBS - 1] >= TWO63;
    magnitude := new u64[LIMBS](i requires 0 <= i < LIMBS reads limbs => limbs[i]);
    assert magnitude[..] == was;
    if negative {
      Negate(magnitude);
    }
  }

  /** Two's complement in place: invert, add one. */
  method Negate(magnitude: array<u64>)
    requires magnitude.Length == LIMBS && Signed(magnitude[..]) < 0
    modifies magnitude
    ensures Value(magnitude[..]) == -old(Signed(magnitude[..]))
  {
    hide *;
    ghost var was := magnitude[..];
    var carry := true;
    NegateNone(was);
    for i := 0 to LIMBS
      invariant NegatedBelow(was, magnitude[..], carry, i)
    {
      ghost var now := magnitude[..];
      var (v, over) := NegateLimb(magnitude[i], carry);
      magnitude[i] := v;
      NegateOneLimb(was, now, carry, i, magnitude[..]);
      carry := over;
    }
    NegateAll(was, magnitude[..], carry);
  }

  lemma NegateNone(was: seq<u64>)
    ensures NegatedBelow(was, was, true, 0)
  {
  }

  lemma NegateAll(was: seq<u64>, now: seq<u64>, carry: bool)
    requires |was| == |now| == LIMBS && Signed(was) < 0 && NegatedBelow(was, now, carry, LIMBS)
    ensures Value(now) == -Signed(was)
  {
    hide Base, Value, Half, Signed;
    assert now[..LIMBS] == now && was[..LIMBS] == was;
    SignedIsInRange(was);
  }

  // -------------------------------------------------------------- long division

  /** The limbs from `i` on divided by `n`, `rest` left over. */
  ghost predicate DividedFrom(was: seq<u64>, now: seq<u64>, n: nat, rest: nat, i: nat)
    requires |was| == |now| && i <= |was|
  {
    && Value(was[i..]) == n * Value(now[i..]) + rest
    && now[..i] == was[..i]
  }

  lemma DivideOneLimb(was: seq<u64>, now: seq<u64>, n: nat, rest: nat, i: nat, q: u64, r: nat, after: seq<u64>)
    requires |was| == |now| == |after| && 0 < i <= |was| && DividedFrom(was, now, n, rest, i)
    requires rest * B + now[i - 1] == n * q + r
    requires after == now[i - 1 := q]
    ensures DividedFrom(was, after, n, r, i - 1)
  {
    var x := was[i - 1];
    assert now[i - 1] == now[..i][i - 1] == was[..i][i - 1] == x;
    assert was[i - 1..] == [x] + was[i..] && after[i - 1..] == [q] + now[i..];
    assert after[..i - 1] == now[..i][..i - 1] && was[..i - 1] == was[..i][..i - 1];
    ValueFront(x, was[i..]);
    ValueFront(q, now[i..]);
    hide Value;
    DivideStep(n, Value(now[i..]), rest, x, q, r);
  }

  lemma DivideStep(n: int, high: int, rest: int, x: int, q: int, r: int)
    requires rest * B + x == n * q + r
    ensures x + B * (n * high + rest) == n * (q + B * high) + r
  {
    Distribute(B, n * high, rest);
    Distribute(n, q, B * high);
  }

  /** The magnitude divided in place, a limb at a time from the top: the
      remainder stays below `n`, so it and the next limb make a limb. */
  method Divide(magnitude: array<u64>, n: u64) returns (rest: nat)
    requires magnitude.Length == LIMBS && n > 0
    modifies magnitude
    ensures rest < n
    ensures old(Value(magnitude[..])) == n * Value(magnitude[..]) + rest
  {
    ghost var was := magnitude[..];
    rest := 0;
    var i := LIMBS;
    while i > 0
      invariant 0 <= i <= LIMBS && rest < n
      invariant DividedFrom(was, magnitude[..], n, rest, i)
    {
      hide Value;
      ghost var now := magnitude[..];
      var current := rest * B + magnitude[i - 1];
      QuotientFits(rest, magnitude[i - 1], n);
      magnitude[i - 1] := current / n;
      DivideOneLimb(was, now, n, rest, i, current / n, current % n, magnitude[..]);
      rest := current % n;
      i := i - 1;
    }
    assert was[0..] == was && magnitude[..][0..] == magnitude[..];
  }

  lemma QuotientFits(rest: nat, x: u64, n: u64)
    requires rest < n
    ensures 0 <= (rest * B + x) / n < B
  {
    var (q, r) := ((rest * B + x) / n, (rest * B + x) % n);
    assert rest * B + x == n * q + r;
    if q >= B { MulMono(B, q, n); }
  }

  // ----------------------------------------------------------------- single bits

  /** A number's bits from `at` on. */
  function High(v: nat, at: nat): (h: nat) {
    DivIsNat(v, Pow2(at));
    v / Pow2(at)
  }

  lemma DivIsNat(v: nat, d: nat)
    requires d > 0
    ensures v / d >= 0
  {
  }

  /** Bit `at` of a number. */
  function BitOf(v: nat, at: nat): (bit: nat)
    ensures bit < 2
  {
    High(v, at) % 2
  }

  /** Bit `at` of the limbs. */
  function Bit(l: seq<u64>, at: nat): (bit: nat)
    requires at / 64 < |l|
  {
    BitOf(l[at / 64], at % 64)
  }

  /** One bit more of a number's low part. */
  lemma LowBits(v: nat, k: nat)
    ensures v % Pow2(k + 1) == v % Pow2(k) + BitOf(v, k) * Pow2(k)
    ensures High(v, k + 1) == High(v, k) / 2
  {
    var p := Pow2(k);
    assert Pow2(k + 1) == p * 2;
    hide Pow2;
    DivDiv(v, p, 2);
  }

  lemma HighOfHigh(v: nat, shift: nat, k: nat)
    ensures High(High(v, shift), k) == High(v, shift + k)
  {
    Pow2Add(shift, k);
    hide Pow2;
    DivDiv(v, Pow2(shift), Pow2(k));
  }

  lemma HighOfLimbs(l: seq<u64>, i: nat)
    requires i <= |l|
    ensures High(Value(l), 64 * i) == Value(l[i..])
  {
    hide Value, Base, Pow2;
    ValueSplit(l, i);
    ValueIsBounded(l[..i]);
    BaseIsPow2(i);
    QuotientOf(Value(l[..i]), Pow2(64 * i), Value(l[i..]));
  }

  lemma QuotientOf(low: nat, d: nat, q: nat)
    requires low < d
    ensures (low + d * q) / d == q
  {
    QuotientIs(low + d * q, d, q, low);
  }

  /** A bit of the limbs is that bit of what they stand for. */
  lemma BitIsRight(l: seq<u64>, at: nat)
    requires at / 64 < |l|
    ensures Bit(l, at) == BitOf(Value(l), at)
  {
    var (i, j) := (at / 64, at % 64);
    hide Value, Base, Pow2, High;
    HighOfLimbs(l, i);
    ValueFrom(l, i);
    HighOfHigh(Value(l), 64 * i, j);
    BitBelowTop(l[i], Value(l[i + 1..]), j);
  }

  lemma ValueFrom(l: seq<u64>, i: nat)
    requires i < |l|
    ensures Value(l[i..]) == l[i] + B * Value(l[i + 1..])
  {
    assert l[i..] == [l[i]] + l[i + 1..];
    ValueFront(l[i], l[i + 1..]);
  }

  lemma BitBelowTop(x: u64, high: nat, j: nat)
    requires j < 64
    ensures BitOf(x + B * high, j) == BitOf(x, j)
  {
    var p := Pow2(j);
    Pow2Add(j, 64 - j);
    Pow2At64();
    var q := Pow2(63 - j);
    assert Pow2(64 - j) == 2 * q;
    hide Pow2;
    assert B == p * (2 * q);
    BitOfSum(x, high, p, q);
  }

  lemma BitOfSum(x: nat, high: nat, p: nat, q: nat)
    requires p > 0
    ensures ((x + p * (2 * q) * high) / p) % 2 == (x / p) % 2
  {
    var more := 2 * q * high;
    assert p * (2 * q) * high == p * more by { Reassociate(p, 2 * q, high); }
    Distribute(p, x / p, more);
    QuotientIs(x + p * more, p, x / p + more, x % p);
    assert more == 2 * (q * high) by { Reassociate(2, q, high); }
    QuotientIs(x / p + more, 2, (x / p) / 2 + q * high, (x / p) % 2);
  }

  /** The place of a number's highest bit: `63 - leading_zeros`. */
  function TopBit(x: nat): (k: nat)
    requires x > 0
    ensures Pow2(k) <= x < Pow2(k + 1)
  {
    if x == 1 then 0 else TopBit(x / 2) + 1
  }

  lemma TopBitOfLimb(x: u64)
    requires x > 0
    ensures TopBit(x) < 64
  {
    Pow2At64();
    if TopBit(x) >= 64 {
      if TopBit(x) > 64 { Pow2Mono(64, TopBit(x)); }
    }
  }

  // --------------------------------------------------------------------- rounding

  /** The place of the magnitude's highest bit, if it is not zero. */
  method HighestBit(magnitude: array<u64>) returns (high: Option<nat>)
    requires magnitude.Length == LIMBS
    ensures high.None? ==> Value(magnitude[..]) == 0
    ensures high.Some? ==> high.value < 64 * LIMBS
    ensures high.Some? ==> Pow2(high.value) <= Value(magnitude[..]) < Pow2(high.value + 1)
    ensures high.Some? && high.value < 64 ==> Value(magnitude[..]) == magnitude[0]
  {
    hide Pow2, Base, Value, TopBit;
    var i := LIMBS;
    while i > 0
      invariant 0 <= i <= LIMBS
      invariant forall j :: i <= j < LIMBS ==> magnitude[j] == 0
    {
      i := i - 1;
      if magnitude[i] != 0 {
        var top := TopBit(magnitude[i]);
        TopBitOfLimb(magnitude[i]);
        HighestOfLimbs(magnitude[..], i);
        return Some(64 * i + top);
      }
    }
    ValueOfZeros(magnitude[..]);
    return None;
  }

  lemma HighestOfLimbs(l: seq<u64>, i: nat)
    requires i < |l| && l[i] != 0 && forall j :: i < j < |l| ==> l[j] == 0
    ensures var high := 64 * i + TopBit(l[i]); Pow2(high) <= Value(l) < Pow2(high + 1)
    ensures i == 0 ==> Value(l) == l[0]
  {
    var k := TopBit(l[i]);
    hide Pow2, Base, Value, TopBit;
    ValueOfZerosAbove(l, i + 1);
    ValueUpTo(l, i);
    ValueIsBounded(l[..i]);
    ShiftedPower(i, k);
    ShiftedPower(i, k + 1);
    LeadingLimb(Value(l), Value(l[..i]), l[i], Base(i), Pow2(k), Pow2(k + 1), Pow2(64 * i + k), Pow2(64 * i + (k + 1)));
    if i == 0 { SmallestBase(l); }
  }

  lemma ShiftedPower(i: nat, k: nat)
    ensures Pow2(64 * i + k) == Base(i) * Pow2(k)
  {
    BaseIsPow2(i);
    Pow2Add(64 * i, k);
  }

  lemma {:induction false} ValueOfZerosAbove(l: seq<u64>, n: nat)
    requires n <= |l| && forall j :: n <= j < |l| ==> l[j] == 0
    ensures Value(l) == Value(l[..n])
  {
    if n == |l| {
      assert l[..n] == l;
    } else {
      var last := |l| - 1;
      ValueOfZerosAbove(l[..last], n);
      assert l[..last][..n] == l[..n];
    }
  }

  lemma SmallestBase(l: seq<u64>)
    ensures Value(l[..0]) == 0 && Base(0) == 1
  {
  }

  lemma LeadingLimb(v: nat, low: nat, x: nat, base: nat, p: nat, q: nat, least: nat, most: nat)
    requires low < base && p <= x < q && v == low + x * base && least == base * p && most == base * q
    ensures least <= v < most
  {
    MulMono(p, x, base);
    MulMono(x + 1, q, base);
    OneMore(x, base);
  }

  /** Below 2^53 units a float's bits are its units. */
  lemma RoundSmall(v: nat, n: nat, rem: nat, value: nat)
    requires rem < n && v < TWO53
    requires value == v + if 2 * rem > n || (2 * rem == n && v % 2 == 1) then 1 else 0
    ensures IsRounded(n * v + rem, n, value)
  {
    OneUnit();
    hide Pow2, IsRounded, Units;
    RoundAt(n * v + rem, n, 0, v, rem, value);
  }

  /** The significand is the top 53 bits; the bit below and those under it, and
      the rest of a unit, decide. */
  lemma RoundLarge(v: nat, n: nat, rem: nat, shift: nat, value: nat)
    requires rem < n && 0 < shift <= TOP_SHIFT && TWO52 <= High(v, shift) < TWO53
    requires var (round, sticky) := (BitOf(v, shift - 1) == 1, rem != 0 || v % Pow2(shift - 1) != 0);
             value == shift * TWO52 + High(v, shift) +
                      if round && (sticky || High(v, shift) % 2 == 1) then 1 else 0
    ensures IsRounded(n * v + rem, n, value)
  {
    hide IsRounded, Units, Pow2, High;
    var (m, half, low) := (High(v, shift), Pow2(shift - 1), v % Pow2(shift));
    OneMorePower(shift - 1);
    LowBits(v, shift - 1);
    LowHalf(low, half, v % half, BitOf(v, shift - 1));
    HalfByBits(n, rem, half, Pow2(shift), low);
    HighAndLow(v, shift);
    SplitAgain(n, v, m, Pow2(shift), low, rem);
    RoundAt(n * v + rem, n, shift, m, n * low + rem, value);
  }

  lemma HighAndLow(v: nat, k: nat)
    ensures v == High(v, k) * Pow2(k) + v % Pow2(k)
  {
  }

  lemma SplitAgain(n: nat, v: nat, m: nat, p: nat, low: nat, rem: nat)
    requires v == m * p + low
    ensures n * v + rem == n * (m * p) + (n * low + rem)
  {
    Distribute(n, m * p, low);
  }

  lemma LowHalf(low: nat, half: nat, rest: nat, bit: nat)
    requires half > 0 && bit < 2 && rest < half && low == rest + bit * half
    ensures low < 2 * half && (low >= half <==> bit == 1) && low % half == rest
  {
    QuotientIs(low, half, bit, rest);
  }

  /** From 2^2098 units on, infinity. */
  lemma RoundTop(v: nat, n: nat, rem: nat, high: nat)
    requires rem < n && Pow2(high) <= v && high >= TOP_SHIFT + 53
    ensures IsRounded(n * v + rem, n, INFINITY)
  {
    hide Units, Pow2, IsRounded;
    assert Units(INFINITY) <= v by {
      LargestFloats();
      TopUnits();
      if high > TOP_SHIFT + 53 { Pow2Mono(TOP_SHIFT + 53, high); }
    }
    MulMono(Units(INFINITY), v, n);
    PastTheTop(n * v + rem, n);
  }

  lemma TopUnits()
    ensures TWO53 * Pow2(TOP_SHIFT) == Pow2(TOP_SHIFT + 53)
  {
    Pow2Add(53, TOP_SHIFT);
    Pow2At53();
    hide Pow2;
  }

  lemma Pow2At53()
    ensures Pow2(53) == TWO53 && Pow2(52) == TWO52
  {
    assert Pow2(8) == 0x100;
    assert Pow2(4) == 0x10;
    hide Pow2;
    Pow2Add(8, 8);
    Pow2Add(16, 16);
    Pow2Add(32, 16);
    Pow2Add(48, 4);
    OneMorePower(52);
  }

  lemma OneMorePower(k: nat)
    ensures Pow2(k + 1) == 2 * Pow2(k)
  {
  }

  /** The 53 bits from `shift` on, put together bit by bit. */
  method Significand(magnitude: array<u64>, shift: nat) returns (m: nat)
    requires magnitude.Length == LIMBS && shift + 53 <= 64 * LIMBS
    ensures m == High(Value(magnitude[..]), shift) % Pow2(53)
  {
    hide *;
    ghost var v := High(Value(magnitude[..]), shift);
    m := 0;
    NoBits(v);
    for k := 0 to 53
      invariant m == v % Pow2(k)
    {
      m := m + Bit(magnitude[..], shift + k) * Pow2(k);
      BitIsRight(magnitude[..], shift + k);
      ShiftedBit(Value(magnitude[..]), shift, k);
      LowBits(v, k);
    }
  }

  lemma NoBits(v: nat)
    ensures v % Pow2(0) == 0
  {
  }

  lemma ShiftedBit(v: nat, shift: nat, k: nat)
    ensures BitOf(High(v, shift), k) == BitOf(v, shift + k)
  {
    HighOfHigh(v, shift, k);
  }

  /** Whether any bit below `end` is one. */
  method AnyBit(magnitude: array<u64>, end: nat) returns (any: bool)
    requires magnitude.Length == LIMBS && end <= 64 * LIMBS
    ensures any <==> Value(magnitude[..]) % Pow2(end) != 0
  {
    hide *;
    ghost var v := Value(magnitude[..]);
    any := false;
    NoBits(v);
    for at := 0 to end
      invariant any <==> v % Pow2(at) != 0
    {
      any := any || Bit(magnitude[..], at) == 1;
      BitIsRight(magnitude[..], at);
      LowBits(v, at);
      BitAdds(v % Pow2(at), BitOf(v, at), Pow2(at));
    }
  }

  lemma BitAdds(low: nat, bit: nat, p: nat)
    requires bit < 2 && p > 0
    ensures low + bit * p != 0 <==> low != 0 || bit == 1
  {
  }

  /** How a division's rest compares to half a unit, if there is one. */
  function RestOf(rem: nat, n: nat): (rest: Option<int>) {
    if rem == 0 then None else Some(Sign(2 * rem, n))
  }

  /** A float's bits without its sign. */
  function Unsigned(bits: u64): (b: nat) {
    if bits >= TWO63 then bits - TWO63 else bits
  }

  /** `magnitude` units, and `rest` of a unit more, rounded once to the nearest
      float, ties to even, and signed; zero is never negative. */
  method Rounded(negative: bool, magnitude: array<u64>, rest: Option<int>, ghost n: nat, ghost rem: nat)
    returns (bits: u64)
    requires magnitude.Length == LIMBS && rem < n && rest == RestOf(rem, n)
    ensures IsRounded(n * Value(magnitude[..]) + rem, n, Unsigned(bits))
    ensures NegativeBit(bits) <==> negative && Unsigned(bits) != 0
  {
    hide Value, Pow2, IsRounded, High, BitOf;
    ghost var v := Value(magnitude[..]);
    var high := HighestBit(magnitude);
    var value: nat;
    if high.None? || high.value <= 52 {
      var units: nat := magnitude[0];
      SmallMagnitude(magnitude[..], high);
      if rest == Some(1) || (rest == Some(0) && units % 2 == 1) {
        units := units + 1;
      }
      RoundSmall(v, n, rem, units);
      value := units;
    } else {
      value := RoundedLarge(magnitude, rest, high.value, n, rem);
    }
    bits := if negative && value != 0 then value + TWO63 else value;
  }

  method RoundedLarge(magnitude: array<u64>, rest: Option<int>, high: nat, ghost n: nat, ghost rem: nat)
    returns (value: nat)
    requires magnitude.Length == LIMBS && rem < n && rest == RestOf(rem, n)
    requires 52 < high < 64 * LIMBS && Pow2(high) <= Value(magnitude[..]) < Pow2(high + 1)
    ensures value <= INFINITY && IsRounded(n * Value(magnitude[..]) + rem, n, value)
  {
    hide Value, Pow2, IsRounded, High, BitOf, Bit;
    ghost var v := Value(magnitude[..]);
    var shift := high - 52;
    var mantissa := Significand(magnitude, shift);
    TopBits(v, shift);
    BitIsRight(magnitude[..], shift - 1);
    var round := Bit(magnitude[..], shift - 1) == 1;
    var below := AnyBit(magnitude, shift - 1);
    var sticky := rest.Some? || below;
    var exponent := shift + 1;
    var up := round && (sticky || mantissa % 2 == 1);
    if up {
      mantissa := mantissa + 1;
      if mantissa == TWO53 {
        mantissa := mantissa / 2;
        exponent := exponent + 1;
      }
    }
    value := if exponent >= 0x7FF then INFINITY else exponent * TWO52 + mantissa % TWO52;
    if shift <= TOP_SHIFT {
      RoundLarge(v, n, rem, shift, value);
    } else {
      RoundTop(v, n, rem, high);
    }
  }

  lemma SmallMagnitude(l: seq<u64>, high: Option<nat>)
    requires |l| == LIMBS
    requires high.None? ==> Value(l) == 0
    requires high.Some? ==> high.value <= 52 && Value(l) == l[0] && Value(l) < Pow2(high.value + 1)
    ensures Value(l) == l[0] < TWO53
  {
    Pow2At53();
    hide Pow2;
    if high.None? {
      ValueSplit(l, 1);
      ValueUpTo(l, 0);
      MulNonNegative(Base(1), Value(l[1..]));
      assert Value(l[..1]) == l[0] by { SmallestBase(l); }
    } else if high.value < 52 {
      Pow2Mono(high.value + 1, 53);
    }
  }

  /** The bits from 52 below the highest on are a significand. */
  lemma TopBits(v: nat, shift: nat)
    requires Pow2(shift + 52) <= v < Pow2(shift + 53)
    ensures TWO52 <= High(v, shift) < TWO53
    ensures High(v, shift) % Pow2(53) == High(v, shift)
  {
    Pow2Add(52, shift);
    Pow2Add(53, shift);
    Pow2At53();
    hide Pow2;
    var (q, r) := (v / Pow2(shift), v % Pow2(shift));
    assert v == q * Pow2(shift) + r;
    if q < TWO52 { MulMono(q + 1, TWO52, Pow2(shift)); OneMore(q, Pow2(shift)); }
    if q >= TWO53 { MulMono(TWO53, q, Pow2(shift)); }
    QuotientIs(q, TWO53, 0, q);
  }
}
