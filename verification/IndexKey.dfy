/** Keys of a secondary index (`src/index/key.rs`): a value as bytes, so that keys
    compared byte by byte stand in the order of the sort. */
module IndexKeys {
  import opened Values
  import opened Powers
  import opened Rounding
  import opened WideInteger
  import opened ExactSums
  import opened WholeFloats
  import opened Codec

  // -------------------------------------------------------------- numbers as bytes

  /** The last bytes of a number, the highest first. */
  function ToBig(x: nat, n: nat): (bytes: seq<byte>)
    ensures |bytes| == n
  {
    if n == 0 then [] else ToBig(x / 256, n - 1) + [x % 256]
  }

  lemma {:induction false} BigEndian(x: nat, y: nat, n: nat)
    requires x < Power256(n) && y < Power256(n)
    ensures CompareBytes(ToBig(x, n), ToBig(y, n)) == Sign(x, y)
    decreases n
  {
    if n > 0 {
      BigEndian(x / 256, y / 256, n - 1);
      JoinedOrder(ToBig(x / 256, n - 1), ToBig(y / 256, n - 1), [x % 256], [y % 256]);
      LastByte(x % 256, y % 256);
      BytesAreTotal(ToBig(x / 256, n - 1), ToBig(y / 256, n - 1));
      hide CompareBytes;
    }
  }

  lemma LastByte(a: byte, b: byte)
    ensures CompareBytes([a], [b]) == Sign(a, b)
  {
  }

  // --------------------------------------------------- none begins with another

  /** Neither is the beginning of the other, unless they are the same. */
  predicate ApartOrSame(a: seq<byte>, b: seq<byte>) {
    a == b || (!(a <= b) && !(b <= a))
  }

  /** Then what follows plays no part where they differ. */
  lemma {:induction false} JoinedOrder(a: seq<byte>, b: seq<byte>, x: seq<byte>, y: seq<byte>)
    requires ApartOrSame(a, b)
    ensures CompareBytes(a + x, b + y) == if a == b then CompareBytes(x, y) else CompareBytes(a, b)
  {
    if a == b == [] {
      assert a + x == x && b + y == y;
    } else {
      assert a != [] && b != [];
      assert (a + x)[1..] == a[1..] + x && (b + y)[1..] == b[1..] + y;
      assert a == [a[0]] + a[1..] && b == [b[0]] + b[1..];
      if a[0] == b[0] { JoinedOrder(a[1..], b[1..], x, y); }
    }
  }

  lemma SameLength(a: seq<byte>, b: seq<byte>)
    requires |a| == |b|
    ensures ApartOrSame(a, b)
  {
  }

  lemma JoinedApart(a: seq<byte>, b: seq<byte>, x: seq<byte>, y: seq<byte>)
    requires ApartOrSame(a, b) && ApartOrSame(x, y)
    ensures ApartOrSame(a + x, b + y)
    ensures a + x == b + y <==> a == b && x == y
  {
    if a == b {
      assert (a + x)[|a|..] == x && (b + y)[|a|..] == y;
    } else {
      BeginsIn(a, b, x, y);
      BeginsIn(b, a, y, x);
    }
  }

  /** Of two beginnings of one text one begins the other. */
  lemma BeginsIn(a: seq<byte>, b: seq<byte>, x: seq<byte>, y: seq<byte>)
    ensures a + x <= b + y ==> a <= b || b <= a
  {
    if a + x <= b + y {
      var t := b + y;
      assert t[..|a|] == a && t[..|b|] == b;
      if |a| <= |b| { assert b[..|a|] == a; } else { assert a[..|b|] == b; }
    }
  }

  // ------------------------------------------------------------- text and binary

  const MAX_KEY_LEN: nat := 1024
  const MAX_COMPOUND_FIELDS: nat := 8

  type Fields = n: nat | 1 <= n <= MAX_COMPOUND_FIELDS witness 1

  function StringBudget(fields: Fields): (budget: nat) {
    (MAX_KEY_LEN - 16) / fields - 3
  }

  function Width(b: byte): (n: nat) {
    if b == 0 then 2 else 1
  }

  function Piece(b: byte): (bytes: seq<byte>)
    ensures |bytes| == Width(b)
  {
    if b == 0 then [0, 0xFF] else [b]
  }

  /** A zero as zero and 255, up to the first byte that has no room; then two zeros. */
  function Escaped(bytes: seq<byte>, budget: nat): (out: seq<byte>)
    ensures 2 <= |out| <= budget + 2
  {
    if bytes == [] || Width(bytes[0]) > budget then [0, 0]
    else Piece(bytes[0]) + Escaped(bytes[1..], budget - Width(bytes[0]))
  }

  /** `encode_escaped`, after its tag. */
  method EscapeText(bytes: seq<byte>, budget: nat) returns (out: seq<byte>)
    ensures out == Escaped(bytes, budget)
  {
    out := [];
    var used := 0;
    for i := 0 to |bytes|
      invariant used <= budget && Escaped(bytes, budget) == out + Escaped(bytes[i..], budget - used)
    {
      var left := bytes[i..];
      if used + Width(bytes[i]) > budget {
        return out + [0, 0];
      }
      assert left[1..] == bytes[i + 1..];
      used := used + Width(bytes[i]);
      out := out + Piece(bytes[i]);
    }
    out := out + [0, 0];
  }

  /** Smaller text never has the greater bytes. */
  lemma {:induction false} EscapedOrder(a: seq<byte>, b: seq<byte>, budget: nat)
    requires CompareBytes(a, b) <= 0
    ensures CompareBytes(Escaped(a, budget), Escaped(b, budget)) <= 0
  {
    if a != [] && b != [] && a[0] == b[0] && Width(a[0]) <= budget {
      var left := budget - Width(a[0]);
      EscapedOrder(a[1..], b[1..], left);
      JoinedOrder(Piece(a[0]), Piece(b[0]), Escaped(a[1..], left), Escaped(b[1..], left));
    } else if a != [] && b != [] && a[0] != b[0] && Width(a[0]) <= budget && Width(b[0]) <= budget {
      assert a[0] < b[0];
      FirstBytes(a, budget);
      FirstBytes(b, budget);
    } else {
      EndIsLeast(b, budget);
      if b != [] && Width(b[0]) > budget { ShortEnd(a, b, budget); }
    }
  }

  lemma FirstBytes(a: seq<byte>, budget: nat)
    requires a != [] && Width(a[0]) <= budget
    ensures Escaped(a, budget)[0] == a[0]
  {
  }

  lemma EndIsLeast(b: seq<byte>, budget: nat)
    ensures CompareBytes([0, 0], Escaped(b, budget)) <= 0
  {
    var e := Escaped(b, budget);
    assert e[1..] != [];
  }

  lemma ShortEnd(a: seq<byte>, b: seq<byte>, budget: nat)
    requires CompareBytes(a, b) <= 0 && b != [] && Width(b[0]) > budget
    ensures Escaped(a, budget) == [0, 0]
  {
  }

  lemma {:induction false} EscapedApart(a: seq<byte>, b: seq<byte>, budget: nat)
    ensures ApartOrSame(Escaped(a, budget), Escaped(b, budget))
  {
    var (x, y) := (Escaped(a, budget), Escaped(b, budget));
    if a != [] && b != [] && a[0] == b[0] && Width(a[0]) <= budget {
      var left := budget - Width(a[0]);
      EscapedApart(a[1..], b[1..], left);
      JoinedApart(Piece(a[0]), Piece(b[0]), Escaped(a[1..], left), Escaped(b[1..], left));
    } else {
      assert x == y || x[0] != y[0] || x[1] != y[1];
    }
  }

  /** Where a byte of room is left nothing was cut: so it is that text and no other. */
  lemma {:induction false} EscapedExact(a: seq<byte>, b: seq<byte>, budget: nat)
    requires Escaped(a, budget) == Escaped(b, budget) && |Escaped(a, budget)| < budget + 1
    ensures a == b
  {
    if a != [] && b != [] && a[0] == b[0] && Width(a[0]) <= budget {
      var left := budget - Width(a[0]);
      var n := Width(a[0]);
      assert Escaped(a, budget)[n..] == Escaped(a[1..], left) && Escaped(b, budget)[n..] == Escaped(b[1..], left);
      EscapedExact(a[1..], b[1..], left);
      assert a == [a[0]] + a[1..] && b == [b[0]] + b[1..];
    } else {
      assert Escaped(a, budget)[0] == Escaped(b, budget)[0] && Escaped(a, budget)[1] == Escaped(b, budget)[1];
    }
  }

  // --------------------------------------------------------------------- numbers

  /** How the machine makes an integer a float: the nearest, ties to even (section 5.4.1
      of IEEE 754-2019). */
  ghost predicate CastOk(cast: i64 -> u64) {
    forall i: i64 :: IsSignedRounded(i * Pow2(INT_SHIFT), 1, cast(i))
  }

  /** There is one float for every integer. */
  lemma CastExists(i: i64) returns (bits: u64)
    ensures IsSignedRounded(i * Pow2(INT_SHIFT), 1, bits)
  {
    hide Pow2;
    var x := i * Pow2(INT_SHIFT);
    var b := RoundingExists(Abs(x));
    bits := if x < 0 && b != 0 then TWO63 + b else b;
    assert Unsigned(bits) == b;
  }

  lemma RoundingExists(num: nat) returns (bits: int)
    ensures IsRounded(num, 1, bits)
  {
    hide Units, IsRounded;
    if num >= Units(INFINITY) {
      PastTheTop(num, 1);
      bits := INFINITY;
    } else {
      NoUnits();
      var below := FloatBelow(num, INFINITY);
      var (down, up) := (num - Units(below), Units(below + 1) - num);
      bits := if down < up || (down == up && below % 2 == 0) then below else below + 1;
      NearestOfTwo(num, 1, below, bits);
    }
  }

  lemma {:induction false} FloatBelow(num: nat, top: int) returns (below: int)
    requires 0 < top <= INFINITY && num < Units(top) && Units(0) == 0
    ensures 0 <= below < top && Units(below) <= num < Units(below + 1)
    decreases top
  {
    hide Units;
    if Units(top - 1) <= num { below := top - 1; } else { below := FloatBelow(num, top - 1); }
  }

  predicate IsNaN(bits: u64) {
    Unsigned(bits) > INFINITY
  }

  /** A float's bits, in order: the sign bit turned for those above zero, every bit for
      those below it; -0.0 as 0.0. */
  function Sortable(bits: u64): (n: nat)
    requires !IsNaN(bits)
    ensures n < 2 * TWO63
  {
    var f := if Unsigned(bits) == 0 then 0 else bits;
    if NegativeBit(f) then 2 * TWO63 - 1 - f else f + TWO63
  }

  /** And back. */
  function Unsorted(n: u64): (bits: u64) {
    if n >= TWO63 then n - TWO63 else 2 * TWO63 - 1 - n
  }

  lemma SortableBack(bits: u64)
    requires !IsNaN(bits)
    ensures Unsorted(Sortable(bits)) == if Unsigned(bits) == 0 then 0 else bits
  {
  }

  /** A float's place among all floats, counted from zero. */
  function Rank(bits: u64): (r: int) {
    var u: int := Unsigned(bits);
    if NegativeBit(bits) then -u else u
  }

  lemma SortableByRank(a: u64, b: u64)
    requires !IsNaN(a) && !IsNaN(b)
    ensures Sign(Sortable(a), Sortable(b)) == Sign(Rank(a), Rank(b))
  {
    UnsignedIs(a);
    UnsignedIs(b);
    hide Unsigned;
  }

  lemma UnsignedIs(bits: u64)
    ensures 0 <= Unsigned(bits) < TWO63 && bits == Unsigned(bits) + if NegativeBit(bits) then TWO63 else 0
  {
  }

  /** `r` is the place of the float nearest to `x` units. */
  ghost predicate Nearest(x: int, r: int) {
    IsRounded(Abs(x), 1, Abs(r)) && (r < 0 ==> x < 0) && (r > 0 ==> x > 0)
  }

  lemma RoundedInOrder(x: nat, y: nat, a: int, b: int)
    requires x <= y && IsRounded(x, 1, a) && IsRounded(y, 1, b)
    ensures a <= b
  {
    if b < a {
      UnitsAreOrdered(b, a);
      hide Units;
      assert Distance(x, 1, a) <= Distance(x, 1, b) && Distance(y, 1, b) <= Distance(y, 1, a);
      assert x == y;
      hide IsRounded, Distance;
      RoundingIsUnique(x, 1, a, b);
    }
  }

  lemma NearestInOrder(x: int, y: int, r: int, s: int)
    requires x <= y && Nearest(x, r) && Nearest(y, s)
    ensures r <= s
  {
    hide IsRounded;
    if 0 <= x {
      RoundedInOrder(x, y, r, s);
    } else if y < 0 {
      RoundedInOrder(-y, -x, -s, -r);
    }
  }

  /** A number's float. */
  function BitsOf(cast: i64 -> u64, d: Document): (bits: u64)
    requires d.Int? || d.Float?
  {
    if d.Int? then cast(d.number) else d.bits
  }

  lemma BitsAreNearest(cast: i64 -> u64, d: Document)
    requires CastOk(cast) && (d.Int? || d.Float?)
    ensures ExactOf(d).NaN? <==> IsNaN(BitsOf(cast, d))
    ensures ExactOf(d).Finite? ==> Nearest(ExactOf(d).units, Rank(BitsOf(cast, d)))
    ensures ExactOf(d).Infinite? ==> Rank(BitsOf(cast, d)) == if ExactOf(d).negative then -INFINITY else INFINITY
  {
    if d.Int? {
      IntExact(d.number);
      hide ExactOf, Pow2, IsSignedRounded, Nearest;
      assert IsSignedRounded(d.number * Pow2(INT_SHIFT), 1, cast(d.number));
      SignedIsNearest(d.number * Pow2(INT_SHIFT), cast(d.number));
    } else {
      Special(d.bits);
      if ExactOf(d).Finite? { FloatIsNearest(d.bits); }
      hide ExactOf, Nearest, Unsigned;
    }
  }

  lemma SignedIsNearest(x: int, bits: u64)
    requires IsSignedRounded(x, 1, bits)
    ensures Nearest(x, Rank(bits)) && !IsNaN(bits)
  {
    UnsignedIs(bits);
    hide Unsigned, Units;
    if x == 0 {
      NoUnits();
      ExactIsRounded(0, 0);
      hide IsRounded;
      RoundingIsUnique(0, 1, 0, Unsigned(bits));
    }
  }

  lemma FloatIsNearest(bits: u64)
    requires ExactOf(Float(bits)).Finite?
    ensures Nearest(ExactOf(Float(bits)).units, Rank(bits))
  {
    FloatUnits(bits);
    UnsignedIs(bits);
    hide ExactOf, IsRounded, Units, Unsigned;
    var u := Unsigned(bits);
    ExactIsRounded(Units(u), u);
    if u == 0 { NoUnits(); } else { SomeUnits(u); }
  }

  lemma SomeUnits(u: int)
    requires 0 < u <= INFINITY
    ensures Units(u) > 0
  {
    UnitsAreOrdered(0, u);
  }

  lemma Special(bits: u64)
    ensures ExactOf(Float(bits)).NaN? <==> IsNaN(bits)
    ensures ExactOf(Float(bits)).Infinite? <==> Unsigned(bits) == INFINITY
    ensures ExactOf(Float(bits)).Infinite? ==> ExactOf(Float(bits)).negative == NegativeBit(bits)
  {
    BitsOfSpecials(bits);
    FloatUnits(bits);
    UnsignedIs(bits);
    hide Units, ExactOf, Unsigned;
  }

  lemma RankIsBounded(cast: i64 -> u64, d: Document)
    requires CastOk(cast) && (d.Int? || d.Float?) && !ExactOf(d).NaN?
    ensures -INFINITY <= Rank(BitsOf(cast, d)) <= INFINITY
  {
    BitsAreNearest(cast, d);
    hide CastOk, ExactOf, IsRounded;
    UnsignedIs(BitsOf(cast, d));
    hide Unsigned;
  }

  /** The lesser of two numbers has the lesser bits, or the same. */
  lemma NumbersInOrder(cast: i64 -> u64, a: Document, b: Document)
    requires CastOk(cast) && (a.Int? || a.Float?) && (b.Int? || b.Float?)
    requires !ExactOf(a).NaN? && !ExactOf(b).NaN? && CompareExact(ExactOf(a), ExactOf(b)) <= 0
    ensures !IsNaN(BitsOf(cast, a)) && !IsNaN(BitsOf(cast, b))
    ensures Sortable(BitsOf(cast, a)) <= Sortable(BitsOf(cast, b))
  {
    BitsAreNearest(cast, a);
    BitsAreNearest(cast, b);
    RankIsBounded(cast, a);
    RankIsBounded(cast, b);
    SortableByRank(BitsOf(cast, a), BitsOf(cast, b));
    hide CastOk, ExactOf, Nearest, Rank, Sortable, BitsOf, IsNaN;
    if ExactOf(a).Finite? && ExactOf(b).Finite? {
      NearestInOrder(ExactOf(a).units, ExactOf(b).units, Rank(BitsOf(cast, a)), Rank(BitsOf(cast, b)));
    }
  }

  // ------------------------------------------------------- numbers told by their bytes

  /** The bits of 2^53. */
  const BITS_OF_TWO53: u64 := 0x4340_0000_0000_0000

  /** Below 2^53 a number is what its float is. */
  lemma SmallIsExact(cast: i64 -> u64, d: Document)
    requires CastOk(cast) && (d.Int? || d.Float?)
    requires !IsNaN(BitsOf(cast, d)) && Unsigned(BitsOf(cast, d)) < BITS_OF_TWO53
    ensures ExactOf(d) == ExactOf(Float(BitsOf(cast, d)))
  {
    if d.Int? {
      var i := d.number;
      BitsAreNearest(cast, d);
      IntExact(i);
      if Abs(i) < TWO53 {
        var bits := EveryIntHasAFloat(i);
        FloatIsNearest(bits);
        hide ExactOf, Pow2, Unsigned, CastOk;
        OneNearest(i * Pow2(INT_SHIFT), Rank(bits), Rank(cast(i)));
        SameRank(bits, cast(i));
      } else {
        hide ExactOf, Pow2, CastOk;
        LargeIsLarge(i, cast(i));
      }
    }
  }

  lemma OneNearest(x: int, r: int, s: int)
    requires Nearest(x, r) && Nearest(x, s)
    ensures r == s
  {
    hide IsRounded;
    RoundingIsUnique(Abs(x), 1, Abs(r), Abs(s));
  }

  lemma SameRank(a: u64, b: u64)
    requires Rank(a) == Rank(b)
    ensures ExactOf(Float(a)) == ExactOf(Float(b))
  {
    UnsignedIs(a);
    UnsignedIs(b);
    FloatUnits(a);
    FloatUnits(b);
    Special(a);
    Special(b);
    NoUnits();
    hide Unsigned, ExactOf, Units;
  }

  lemma LargeIsLarge(i: i64, bits: u64)
    requires Abs(i) >= TWO53 && Nearest(i * Pow2(INT_SHIFT), Rank(bits))
    ensures Unsigned(bits) >= BITS_OF_TWO53
  {
    TwoTo53IsAFloat(false);
    IntExact(TWO53);
    BitsOfTwo53();
    FloatUnits(BITS_OF_TWO53);
    UnsignedIs(bits);
    hide Unsigned, ExactOf, Units, Pow2;
    TimesMore(i, Pow2(INT_SHIFT));
    hide IsRounded;
    AtLeastAFloat(Abs(i * Pow2(INT_SHIFT)), 1, Unsigned(bits), BITS_OF_TWO53);
  }

  lemma BitsOfTwo53()
    ensures FloatOf(false, 1023 + 53, 0) == BITS_OF_TWO53 && Unsigned(BITS_OF_TWO53) == BITS_OF_TWO53
    ensures !NegativeBit(BITS_OF_TWO53)
  {
  }

  lemma TimesMore(i: int, one: int)
    requires one >= 1 && Abs(i) >= TWO53
    ensures TWO53 * one <= Abs(i * one)
  {
    Apart(TWO53, Abs(i), one);
    Negates(i, one);
  }

  /** So where they share their bytes, and are below 2^53, they are the same number. */
  lemma NumbersExact(cast: i64 -> u64, a: Document, b: Document)
    requires CastOk(cast) && (a.Int? || a.Float?) && (b.Int? || b.Float?)
    requires !IsNaN(BitsOf(cast, a)) && !IsNaN(BitsOf(cast, b))
    requires Sortable(BitsOf(cast, a)) == Sortable(BitsOf(cast, b))
    requires Unsigned(Unsorted(Sortable(BitsOf(cast, a)))) < BITS_OF_TWO53
    ensures ExactOf(a) == ExactOf(b)
  {
    var (x, y) := (BitsOf(cast, a), BitsOf(cast, b));
    SortableBack(x);
    SortableByRank(x, y);
    UnsignedIs(x);
    UnsignedIs(y);
    assert Unsigned(x) < BITS_OF_TWO53 && Unsigned(y) < BITS_OF_TWO53;
    hide CastOk, ExactOf, Unsigned, Sortable;
    SmallIsExact(cast, a);
    SmallIsExact(cast, b);
    SameRank(x, y);
  }

  // ---------------------------------------------------------------------- values

  const TAG_NULL: byte := 0
  const TAG_BOOL: byte := 1
  const TAG_NUMBER: byte := 2
  const TAG_STRING: byte := 3
  const TAG_ID: byte := 4
  const TAG_DATETIME: byte := 5
  const TAG_BINARY: byte := 6
  const TAG_OTHER: byte := 0xFF

  /** An id has its bytes, and a time less than a second of nanoseconds. */
  predicate IsWhole(d: Document) {
    (d.Id? ==> |d.id| == 16) && (d.DateTime? ==> d.nanos < 1_000_000_000)
  }

  /** What follows a value's tag. */
  function Body(cast: i64 -> u64, d: Document, fields: Fields): (bytes: seq<byte>)
    requires !IsUnordered(d)
  {
    match d
    case Null => []
    case Bool(b) => [if b then 1 else 0]
    case Int(_) => if IsNaN(BitsOf(cast, d)) then [] else ToBig(Sortable(BitsOf(cast, d)), 8)
    case Float(_) => if IsNaN(BitsOf(cast, d)) then [] else ToBig(Sortable(BitsOf(cast, d)), 8)
    case Str(s) => Escaped(s, StringBudget(fields))
    case Id(id) => id
    case DateTime(secs, nanos) => ToBig(secs + TWO63, 8) + ToBig(nanos, 4)
    case Binary(s) => Escaped(s, StringBudget(fields))
  }

  function TagOf(d: Document): (tag: byte) {
    match d
    case Null => TAG_NULL
    case Bool(_) => TAG_BOOL
    case Int(_) => TAG_NUMBER
    case Float(_) => TAG_NUMBER
    case Str(_) => TAG_STRING
    case Id(_) => TAG_ID
    case DateTime(_, _) => TAG_DATETIME
    case Binary(_) => TAG_BINARY
    case _ => TAG_OTHER
  }

  /** `encode_value_in`; nothing for what has no order. */
  function EncodeValue(cast: i64 -> u64, d: Document, fields: Fields): (bytes: Option<seq<byte>>) {
    if IsUnordered(d) then None else Some([TagOf(d)] + Body(cast, d, fields))
  }

  /** A value in a key: what has no order has a tag of its own, the last. */
  function PartOf(cast: i64 -> u64, d: Document, fields: Fields): (part: seq<byte>) {
    var bytes := EncodeValue(cast, d, fields);
    if bytes.None? then [TAG_OTHER] else bytes.value
  }

  lemma TagIsRank(d: Document)
    ensures !IsUnordered(d) ==> TagOf(d) == SortRank(d) < UNORDERED
    ensures SortRank(d) <= UNORDERED
  {
    hide ExactOf;
  }

  /** Some parts, to the byte. */
  lemma KnownParts(cast: i64 -> u64, fields: Fields)
    ensures PartOf(cast, Null, fields) == [0] && PartOf(cast, Bool(true), fields) == [1, 1]
    ensures PartOf(cast, Str([97, 0]), fields) == [3, 97, 0, 255, 0, 0] // "a" and a zero
    ensures PartOf(cast, Array([]), fields) == [255]
  {
    KnownText(StringBudget(fields));
    hide Escaped, ExactOf;
  }

  /** 1.0, and a nanosecond past the beginning of 1970. */
  lemma KnownNumbers(cast: i64 -> u64, fields: Fields)
    ensures PartOf(cast, Float(ONE), fields) == [TAG_NUMBER] + [0xBF, 0xF0, 0, 0, 0, 0, 0, 0]
    ensures PartOf(cast, DateTime(0, 1), fields) == [TAG_DATETIME] + ([0x80, 0, 0, 0, 0, 0, 0, 0] + [0, 0, 0, 1])
  {
    hide ExactOf, Sortable, ToBig, IsNaN;
    OneUnits();
    OneSortable();
    OneBig();
    HalfBig();
  }

  lemma KnownText(budget: nat)
    requires budget >= 3
    ensures Escaped([97, 0], budget) == [97, 0, 255, 0, 0]
  {
    assert [97, 0][1..] == [0] && [0][1..] == [];
    assert Escaped([0], budget - 1) == [0, 255, 0, 0];
  }

  lemma OneSortable()
    ensures !IsNaN(ONE) && Sortable(ONE) == 0xBFF0_0000_0000_0000
  {
  }

  lemma OneBig()
    ensures ToBig(0xBFF0_0000_0000_0000, 8) == [0xBF, 0xF0, 0, 0, 0, 0, 0, 0]
  {
    assert ToBig(0xBFF0, 2) == ToBig(0xBF, 1) + [0xF0] && ToBig(0xBF, 1) == [] + [0xBF];
    hide ToBig;
    MoreZeros(0xBFF0, 2, 6);
    SixBytes();
    hide Power256;
  }

  lemma HalfBig()
    ensures ToBig(TWO63, 8) == [0x80, 0, 0, 0, 0, 0, 0, 0] && ToBig(1, 4) == [0, 0, 0, 1]
  {
    assert ToBig(0x80, 1) == [] + [0x80];
    assert ToBig(0, 3) == ToBig(0, 2) + [0] && ToBig(0, 2) == ToBig(0, 1) + [0] && ToBig(1, 4) == ToBig(0, 3) + [1];
    hide ToBig;
    MoreZeros(0x80, 1, 7);
    SixBytes();
    hide Power256;
  }

  lemma SixBytes()
    ensures Power256(6) == 0x1_0000_0000_0000 && Power256(7) == 0x100_0000_0000_0000
  {
    Codec.Powers();
    assert Power256(6) == 256 * (256 * Power256(4)) && Power256(7) == 256 * Power256(6);
  }

  /** So many bytes more, all zero. */
  lemma {:induction false} MoreZeros(x: nat, n: nat, k: nat)
    ensures ToBig(x * Power256(k), n + k) == ToBig(x, n) + seq(k, _ => 0)
  {
    if k == 0 {
      assert x * Power256(0) == x && ToBig(x, n) + [] == ToBig(x, n);
    } else {
      var y := x * Power256(k - 1);
      assert x * Power256(k) == 256 * y;
      assert (256 * y) / 256 == y && (256 * y) % 256 == 0;
      MoreZeros(x, n, k - 1);
    }
  }

  /** The lesser of two values of one kind has the lesser bytes, or the same. */
  lemma BodiesInOrder(cast: i64 -> u64, a: Document, b: Document, fields: Fields)
    requires CastOk(cast) && IsWhole(a) && IsWhole(b)
    requires SortRank(a) == SortRank(b) != UNORDERED && CompareSameKind(a, b) <= 0
    ensures CompareBytes(Body(cast, a, fields), Body(cast, b, fields)) <= 0
  {
    hide CastOk, Escaped, ExactOf, Sortable;
    match a
    case Int(_) => NumberBodies(cast, a, b, fields);
    case Float(_) => NumberBodies(cast, a, b, fields);
    case Str(s) => EscapedOrder(s, b.text, StringBudget(fields));
    case Binary(s) => EscapedOrder(s, b.data, StringBudget(fields));
    case DateTime(s, n) => TimeBodies(s, n, b.secs, b.nanos);
    case _ =>
  }

  lemma NumberBodies(cast: i64 -> u64, a: Document, b: Document, fields: Fields)
    requires CastOk(cast) && !IsUnordered(a) && !IsUnordered(b) && (a.Int? || a.Float?) && (b.Int? || b.Float?)
    requires CompareSameKind(a, b) <= 0
    ensures CompareBytes(Body(cast, a, fields), Body(cast, b, fields)) <= 0
  {
    assert (a.Int? ==> ExactOf(a).Finite?) && (b.Int? ==> ExactOf(b).Finite?);
    Codec.Powers();
    hide CastOk, ExactOf, Sortable, Power256, IsNaN, BitsOf;
    NumbersInOrder(cast, a, b);
    BigEndian(Sortable(BitsOf(cast, a)), Sortable(BitsOf(cast, b)), 8);
  }

  lemma TimeBodies(s: i64, n: nat, s': i64, n': nat)
    requires n < 1_000_000_000 && n' < 1_000_000_000
    ensures CompareBytes(ToBig(s + TWO63, 8) + ToBig(n, 4), ToBig(s' + TWO63, 8) + ToBig(n', 4))
         == if s != s' then Sign(s, s') else Sign(n, n')
  {
    Codec.Powers();
    hide Power256, CompareBytes, ToBig, ApartOrSame;
    var (x, y) := (ToBig(s + TWO63, 8), ToBig(s' + TWO63, 8));
    BigEndian(s + TWO63, s' + TWO63, 8);
    BigEndian(n, n', 4);
    SameLength(x, y);
    JoinedOrder(x, y, ToBig(n, 4), ToBig(n', 4));
    BytesAreTotal(x, y);
  }

  /** Keys stand in the order of the sort: of two values that are sorted one way the
      bytes never stand the other way. */
  lemma PartsInOrder(cast: i64 -> u64, a: Document, b: Document, fields: Fields)
    requires CastOk(cast) && IsWhole(a) && IsWhole(b) && Sorting(a, b, Asc) <= 0
    ensures CompareBytes(PartOf(cast, a, fields), PartOf(cast, b, fields)) <= 0
  {
    TagIsRank(a);
    TagIsRank(b);
    hide CastOk, TagOf, SortRank;
    if !IsUnordered(a) && !IsUnordered(b) && SortRank(a) == SortRank(b) {
      BodiesInOrder(cast, a, b, fields);
      hide Body;
      JoinedOrder([TagOf(a)], [TagOf(b)], Body(cast, a, fields), Body(cast, b, fields));
    } else if IsUnordered(a) && IsUnordered(b) {
      BytesAreTotal([TAG_OTHER], [TAG_OTHER]);
    } else {
      assert PartOf(cast, a, fields)[0] < PartOf(cast, b, fields)[0];
    }
  }

  /** Values that tie have the same bytes. */
  lemma SameParts(cast: i64 -> u64, a: Document, b: Document, fields: Fields)
    requires CastOk(cast) && IsWhole(a) && IsWhole(b) && Sorting(a, b, Asc) == 0
    ensures PartOf(cast, a, fields) == PartOf(cast, b, fields)
  {
    SortingIsAntisymmetric(a, b, Asc);
    hide CastOk, PartOf, Sorting;
    PartsInOrder(cast, a, b, fields);
    PartsInOrder(cast, b, a, fields);
    BytesAreTotal(PartOf(cast, a, fields), PartOf(cast, b, fields));
  }

  /** No part begins with another. */
  lemma PartsApart(cast: i64 -> u64, a: Document, b: Document, fields: Fields)
    requires CastOk(cast) && IsWhole(a) && IsWhole(b)
    ensures ApartOrSame(PartOf(cast, a, fields), PartOf(cast, b, fields))
  {
    TagIsRank(a);
    TagIsRank(b);
    hide CastOk;
    var (x, y) := (PartOf(cast, a, fields), PartOf(cast, b, fields));
    if !IsUnordered(a) && !IsUnordered(b) && TagOf(a) == TagOf(b) {
      BodiesApart(cast, a, b, fields);
      hide Body, ApartOrSame;
      SameLength([TagOf(a)], [TagOf(b)]);
      JoinedApart([TagOf(a)], [TagOf(b)], Body(cast, a, fields), Body(cast, b, fields));
    } else {
      hide SortRank;
      assert x == y || x[0] != y[0];
    }
  }

  lemma BodiesApart(cast: i64 -> u64, a: Document, b: Document, fields: Fields)
    requires CastOk(cast) && IsWhole(a) && IsWhole(b)
    requires !IsUnordered(a) && !IsUnordered(b) && TagOf(a) == TagOf(b)
    ensures ApartOrSame(Body(cast, a, fields), Body(cast, b, fields))
  {
    if a.Int? || a.Float? {
      NotNaN(cast, a);
      NotNaN(cast, b);
    }
    hide CastOk, IsNaN, BitsOf, ExactOf, Escaped, ApartOrSame;
    if a.Str? {
      EscapedApart(a.text, b.text, StringBudget(fields));
    } else if a.Binary? {
      EscapedApart(a.data, b.data, StringBudget(fields));
    } else {
      SameLength(Body(cast, a, fields), Body(cast, b, fields));
    }
  }

  lemma NotNaN(cast: i64 -> u64, d: Document)
    requires CastOk(cast) && !IsUnordered(d) && (d.Int? || d.Float?)
    ensures !IsNaN(BitsOf(cast, d))
  {
    assert d.Int? ==> ExactOf(d).Finite?;
    hide CastOk, ExactOf;
    BitsAreNearest(cast, d);
  }

  // ------------------------------------------------------- what the bytes tell

  function FromBig(bytes: seq<byte>): (x: nat)
    ensures x < Power256(|bytes|)
  {
    if bytes == [] then 0 else 256 * FromBig(bytes[..|bytes| - 1]) + bytes[|bytes| - 1]
  }

  lemma {:induction false} BigBack(x: nat, n: nat)
    requires x < Power256(n)
    ensures FromBig(ToBig(x, n)) == x
    decreases n
  {
    if n > 0 { BigBack(x / 256, n - 1); }
  }

  /** `part_is_exact`: whether the bytes stand for one value alone. */
  predicate PartIsExact(part: seq<byte>, fields: Fields) {
    if part == [] then false
    else if part[0] == TAG_NUMBER then
      if |part| < 9 then false
      else
        Codec.Powers();
        Unsigned(Unsorted(FromBig(part[1..9]))) < BITS_OF_TWO53
    else if part[0] == TAG_STRING || part[0] == TAG_BINARY then |part| >= 3 && |part| - 3 < StringBudget(fields) - 1
    else part[0] != TAG_OTHER
  }

  /** `compare`: how a filter compares two values, if it does. */
  function Compare(a: Document, b: Document): (r: Option<int>) {
    if SortRank(a) == SortRank(b) != UNORDERED then Some(CompareSameKind(a, b)) else None
  }

  /** Bytes that stand for one value stand for that value. */
  lemma ExactParts(cast: i64 -> u64, a: Document, b: Document, fields: Fields)
    requires CastOk(cast) && IsWhole(a) && IsWhole(b)
    requires PartOf(cast, a, fields) == PartOf(cast, b, fields) && PartIsExact(PartOf(cast, a, fields), fields)
    ensures Compare(a, b) == Some(0)
  {
    TagIsRank(a);
    TagIsRank(b);
    hide CastOk, SortRank, CompareSameKind, PartIsExact;
    var (x, y) := (PartOf(cast, a, fields), PartOf(cast, b, fields));
    assert x[0] == y[0];
    if x[0] == TAG_OTHER {
      OtherIsNotExact(x, fields);
    } else {
      assert x[1..] == Body(cast, a, fields) && y[1..] == Body(cast, b, fields);
      ExactBodies(cast, a, b, fields);
    }
  }

  lemma OtherIsNotExact(part: seq<byte>, fields: Fields)
    requires part != [] && part[0] == TAG_OTHER
    ensures !PartIsExact(part, fields)
  {
  }

  lemma ExactBodies(cast: i64 -> u64, a: Document, b: Document, fields: Fields)
    requires CastOk(cast) && IsWhole(a) && IsWhole(b) && SortRank(a) == SortRank(b) != UNORDERED
    requires Body(cast, a, fields) == Body(cast, b, fields) && PartIsExact([TagOf(a)] + Body(cast, a, fields), fields)
    ensures CompareSameKind(a, b) == 0
  {
    hide CastOk, ExactOf, Escaped, FromBig, Sortable;
    if a.Int? || a.Float? {
      ExactNumbers(cast, a, b, fields);
    } else if a.Str? {
      EscapedExact(a.text, b.text, StringBudget(fields));
      BytesAreTotal(a.text, b.text);
    } else if a.Binary? {
      EscapedExact(a.data, b.data, StringBudget(fields));
      BytesAreTotal(a.data, b.data);
    } else if a.DateTime? {
      TimeBodies(a.secs, a.nanos, b.secs, b.nanos);
      BytesAreTotal(Body(cast, a, fields), Body(cast, b, fields));
    } else if a.Id? {
      BytesAreTotal(a.id, b.id);
    }
  }

  lemma ExactNumbers(cast: i64 -> u64, a: Document, b: Document, fields: Fields)
    requires CastOk(cast) && !IsUnordered(a) && !IsUnordered(b) && (a.Int? || a.Float?) && (b.Int? || b.Float?)
    requires Body(cast, a, fields) == Body(cast, b, fields) && PartIsExact([TagOf(a)] + Body(cast, a, fields), fields)
    ensures CompareSameKind(a, b) == 0
  {
    NotNaN(cast, a);
    NotNaN(cast, b);
    assert (a.Int? ==> ExactOf(a).Finite?) && (b.Int? ==> ExactOf(b).Finite?);
    Codec.Powers();
    hide CastOk, ExactOf, Sortable, Power256, IsNaN, BitsOf, ToBig, FromBig, Unsigned, Unsorted;
    var (m, n) := (Sortable(BitsOf(cast, a)), Sortable(BitsOf(cast, b)));
    BigBack(m, 8);
    BigBack(n, 8);
    NumberPart(ToBig(m, 8), fields);
    hide PartIsExact, CompareExact;
    NumbersExact(cast, a, b);
  }

  lemma NumberPart(body: seq<byte>, fields: Fields)
    requires |body| == 8 && PartIsExact([TAG_NUMBER] + body, fields)
    ensures FromBig(body) < 2 * TWO63 && Unsigned(Unsorted(FromBig(body))) < BITS_OF_TWO53
  {
    Codec.Powers();
    assert ([TAG_NUMBER] + body)[1..9] == body;
  }

  /** `compare_part`: a part against an encoded value; nothing where the bytes cannot
      tell. */
  function ComparePart(part: seq<byte>, encoded: Option<seq<byte>>, fields: Fields): (r: Option<Option<int>>) {
    if part == [] then None
    else if encoded.None? then Some(None)
    else if part[0] == TAG_OTHER || encoded.value == [] || encoded.value[0] != part[0] then Some(None)
    else
      var c := CompareBytes(part, encoded.value);
      if c != 0 then Some(Some(c)) else if PartIsExact(part, fields) then Some(Some(0)) else None
  }

  /** What it says is how the filter compares the values; and it says nothing just if
      the bytes are the same and stand for more than one value. */
  lemma ComparePartIs(cast: i64 -> u64, a: Document, b: Document, fields: Fields)
    requires CastOk(cast) && IsWhole(a) && IsWhole(b)
    ensures var (part, r) := (PartOf(cast, a, fields), ComparePart(PartOf(cast, a, fields), EncodeValue(cast, b, fields), fields));
            if r.Some? then r.value == Compare(a, b)
            else EncodeValue(cast, b, fields) == Some(part) && !PartIsExact(part, fields)
  {
    TagIsRank(a);
    TagIsRank(b);
    var (x, y) := (PartOf(cast, a, fields), PartOf(cast, b, fields));
    hide CastOk, SortRank, CompareSameKind, PartIsExact, CompareBytes;
    BytesAreTotal(x, y);
    if x[0] == y[0] && x[0] != TAG_OTHER {
      BytesTell(cast, a, b, fields);
      if x == y && PartIsExact(x, fields) { ExactParts(cast, a, b, fields); }
    }
  }

  /** Where the bytes of two values of one kind differ they differ as the values do. */
  lemma BytesTell(cast: i64 -> u64, a: Document, b: Document, fields: Fields)
    requires CastOk(cast) && IsWhole(a) && IsWhole(b) && SortRank(a) == SortRank(b) != UNORDERED
    ensures var (x, y) := (PartOf(cast, a, fields), PartOf(cast, b, fields));
            x != y ==> CompareBytes(x, y) == CompareSameKind(a, b)
  {
    var (x, y) := (PartOf(cast, a, fields), PartOf(cast, b, fields));
    SortingIsAntisymmetric(a, b, Asc);
    assert Sorting(a, b, Asc) == CompareSameKind(a, b);
    hide CastOk, PartOf, Sorting, CompareSameKind;
    KindsAreOneApart(a, b);
    BytesAreOneApart(x, y);
    BytesAreTotal(x, y);
    if Sorting(a, b, Asc) <= 0 { PartsInOrder(cast, a, b, fields); }
    if Sorting(a, b, Asc) >= 0 { PartsInOrder(cast, b, a, fields); }
  }

  lemma KindsAreOneApart(a: Document, b: Document)
    requires SortRank(a) == SortRank(b) != UNORDERED
    ensures -1 <= CompareSameKind(a, b) <= 1
  {
    assert (a.Int? ==> ExactOf(a).Finite?) && (b.Int? ==> ExactOf(b).Finite?);
    hide ExactOf, CompareBytes;
    if a.Str? { BytesAreOneApart(a.text, b.text); }
    if a.Id? { BytesAreOneApart(a.id, b.id); }
    if a.Binary? { BytesAreOneApart(a.data, b.data); }
  }

  lemma {:induction false} BytesAreOneApart(a: seq<byte>, b: seq<byte>)
    ensures -1 <= CompareBytes(a, b) <= 1
  {
    if a != [] && b != [] { BytesAreOneApart(a[1..], b[1..]); }
  }

  // ------------------------------------------------------------------- whole keys

  predicate AreWhole(values: seq<Document>) {
    forall i :: 0 <= i < |values| ==> IsWhole(values[i])
  }

  /** The parts of a key of `fields` values. */
  function PartsOf(cast: i64 -> u64, values: seq<Document>, fields: Fields): (bytes: seq<byte>) {
    if values == [] then [] else PartOf(cast, values[0], fields) + PartsOf(cast, values[1..], fields)
  }

  /** `compound`: the values' parts, then the id. */
  function CompoundKey(cast: i64 -> u64, values: seq<Document>, id: DocId): (key: seq<byte>)
    requires 1 <= |values| <= MAX_COMPOUND_FIELDS
  {
    PartsOf(cast, values, |values|) + id
  }

  /** The first place where two keys' parts differ. */
  function Differ(cast: i64 -> u64, a: seq<Document>, b: seq<Document>, fields: Fields): (at: Option<nat>)
    requires |a| == |b|
    ensures at.Some? ==> at.value < |a| && PartOf(cast, a[at.value], fields) != PartOf(cast, b[at.value], fields)
    ensures forall i :: 0 <= i < (if at.Some? then at.value else |a|) ==>
              PartOf(cast, a[i], fields) == PartOf(cast, b[i], fields)
  {
    if a == [] then None
    else if PartOf(cast, a[0], fields) != PartOf(cast, b[0], fields) then Some(0)
    else
      var rest := Differ(cast, a[1..], b[1..], fields);
      if rest.Some? then Some(1 + rest.value) else None
  }

  /** Keys stand in the order of the sort of their values at the first place where their
      parts differ; where none do, in that of their ids. */
  lemma KeysInOrder(cast: i64 -> u64, a: seq<Document>, b: seq<Document>, x: DocId, y: DocId)
    requires CastOk(cast) && AreWhole(a) && AreWhole(b) && 1 <= |a| == |b| <= MAX_COMPOUND_FIELDS
    ensures var (c, at) := (CompareBytes(CompoundKey(cast, a, x), CompoundKey(cast, b, y)), Differ(cast, a, b, |a|));
            if at.None? then c == CompareBytes(x, y)
            else c != 0 && (c < 0 <==> Sorting(a[at.value], b[at.value], Asc) < 0)
  {
    PartsInTurn(cast, a, b, |a|, x, y);
    var at := Differ(cast, a, b, |a|);
    hide CastOk, CompareBytes, Sorting, PartOf, PartsOf, Differ;
    if at.Some? {
      assert IsWhole(a[at.value]) && IsWhole(b[at.value]);
      OneInOrder(cast, a[at.value], b[at.value], |a|);
    }
  }

  lemma OneInOrder(cast: i64 -> u64, a: Document, b: Document, fields: Fields)
    requires CastOk(cast) && IsWhole(a) && IsWhole(b) && PartOf(cast, a, fields) != PartOf(cast, b, fields)
    ensures var c := CompareBytes(PartOf(cast, a, fields), PartOf(cast, b, fields));
            c != 0 && (c < 0 <==> Sorting(a, b, Asc) < 0)
  {
    hide CastOk, PartOf, Sorting;
    BytesAreTotal(PartOf(cast, a, fields), PartOf(cast, b, fields));
    SortingIsAntisymmetric(a, b, Asc);
    if Sorting(a, b, Asc) <= 0 { PartsInOrder(cast, a, b, fields); }
    if Sorting(a, b, Asc) >= 0 { PartsInOrder(cast, b, a, fields); }
  }

  lemma {:induction false} PartsInTurn(
    cast: i64 -> u64, a: seq<Document>, b: seq<Document>, fields: Fields, x: seq<byte>, y: seq<byte>)
    requires CastOk(cast) && AreWhole(a) && AreWhole(b) && |a| == |b|
    ensures var (c, at) := (CompareBytes(PartsOf(cast, a, fields) + x, PartsOf(cast, b, fields) + y), Differ(cast, a, b, fields));
            c == if at.None? then CompareBytes(x, y)
                 else CompareBytes(PartOf(cast, a[at.value], fields), PartOf(cast, b[at.value], fields))
    decreases |a|
  {
    hide CastOk, CompareBytes, PartOf, IsWhole;
    if a == [] {
      assert PartsOf(cast, a, fields) + x == x && PartsOf(cast, b, fields) + y == y;
    } else {
      var (p, q) := (PartOf(cast, a[0], fields), PartOf(cast, b[0], fields));
      var (r, s) := (PartsOf(cast, a[1..], fields), PartsOf(cast, b[1..], fields));
      PartsApart(cast, a[0], b[0], fields);
      JoinedOrder(p, q, r + x, s + y);
      assert PartsOf(cast, a, fields) + x == p + (r + x) && PartsOf(cast, b, fields) + y == q + (s + y);
      PartsInTurn(cast, a[1..], b[1..], fields, x, y);
    }
  }

  /** Documents whose values tie at every key have the same parts: what a unique index
      counts on. */
  lemma {:induction false} EqualTuples(cast: i64 -> u64, a: seq<Document>, b: seq<Document>, fields: Fields)
    requires CastOk(cast) && AreWhole(a) && AreWhole(b) && |a| == |b|
    requires forall i :: 0 <= i < |a| ==> Sorting(a[i], b[i], Asc) == 0
    ensures PartsOf(cast, a, fields) == PartsOf(cast, b, fields)
    decreases |a|
  {
    hide CastOk, Sorting, PartOf, IsWhole;
    if a != [] {
      SameParts(cast, a[0], b[0], fields);
      EqualTuples(cast, a[1..], b[1..], fields);
    }
  }

  // ------------------------------------------------------------- keys taken apart

  /** Past the two zeros that end a text, an escaped zero being no end. */
  function End(bytes: seq<byte>): (n: Option<nat>)
    ensures n.Some? ==> n.value <= |bytes|
  {
    if |bytes| < 2 then None
    else if bytes[0] == 0 && bytes[1] == 0 then Some(2)
    else
      var k := if bytes[0] == 0 then 2 else 1;
      var rest := End(bytes[k..]);
      if rest.Some? then Some(k + rest.value) else None
  }

  /** `string_len`. */
  method StringLen(encoded: seq<byte>) returns (n: Option<nat>)
    requires encoded != []
    ensures n == var end := End(encoded[1..]); if end.Some? then Some(1 + end.value) else None
  {
    var at := 1;
    while at + 1 < |encoded|
      invariant 1 <= at <= |encoded|
      invariant End(encoded[1..])
             == var end := End(encoded[at..]); if end.Some? then Some(at - 1 + end.value) else None
    {
      var rest := encoded[at..];
      if encoded[at] == 0 && encoded[at + 1] == 0 {
        return Some(at + 2);
      }
      var k := if encoded[at] == 0 then 2 else 1;
      assert rest[k..] == encoded[at + k..];
      at := at + k;
    }
    n := None;
  }

  /** How long the first part is; of a damaged key all there is. */
  function PartLength(key: seq<byte>): (n: nat)
    requires key != []
    ensures 0 < n <= |key|
  {
    var tag := key[0];
    var len :=
      if tag == TAG_NULL || tag == TAG_OTHER then 1
      else if tag == TAG_BOOL then 2
      else if tag == TAG_NUMBER then 9
      else if tag == TAG_ID then 17
      else if tag == TAG_DATETIME then 13
      else
        var end := End(key[1..]);
        if end.Some? then 1 + end.value else |key|;
    if len < |key| then len else |key|
  }

  /** `parts`. */
  function Split(key: seq<byte>): (parts: seq<seq<byte>>)
    decreases |key|
  {
    if key == [] then [] else [key[..PartLength(key)]] + Split(key[PartLength(key)..])
  }

  lemma EndSkips(bytes: seq<byte>, k: nat)
    requires |bytes| >= 2 && (if bytes[0] == 0 then k == 2 && bytes[1] != 0 else k == 1) && End(bytes[k..]).Some?
    ensures End(bytes) == Some(k + End(bytes[k..]).value)
  {
  }

  lemma {:induction false} EndOfEscaped(s: seq<byte>, budget: nat, rest: seq<byte>)
    ensures End(Escaped(s, budget) + rest) == Some(|Escaped(s, budget)|)
  {
    var e := Escaped(s, budget);
    var all := e + rest;
    assert all[0] == e[0] && all[1] == e[1];
    if s != [] && Width(s[0]) <= budget {
      var k := Width(s[0]);
      var left := Escaped(s[1..], budget - k);
      EndOfEscaped(s[1..], budget - k, rest);
      assert e == Piece(s[0]) + left && all[k..] == left + rest;
      EndSkips(all, k);
    }
  }

  lemma TextLength(tag: byte, s: seq<byte>, budget: nat, rest: seq<byte>)
    requires tag == TAG_STRING || tag == TAG_BINARY
    ensures PartLength([tag] + Escaped(s, budget) + rest) == 1 + |Escaped(s, budget)|
  {
    var key := [tag] + Escaped(s, budget) + rest;
    assert key[1..] == Escaped(s, budget) + rest;
    EndOfEscaped(s, budget, rest);
    hide End, Escaped;
  }

  lemma LengthOfPart(cast: i64 -> u64, d: Document, fields: Fields, rest: seq<byte>)
    requires CastOk(cast) && IsWhole(d)
    ensures PartOf(cast, d, fields) != [] && PartLength(PartOf(cast, d, fields) + rest) == |PartOf(cast, d, fields)|
  {
    TagIsRank(d);
    if !IsUnordered(d) && (d.Int? || d.Float?) { NotNaN(cast, d); }
    hide CastOk, ExactOf, IsNaN, Escaped, End, BitsOf, SortRank, IsWhole;
    if d.Str? {
      hide PartLength;
      TextLength(TAG_STRING, d.text, StringBudget(fields), rest);
    } else if d.Binary? {
      hide PartLength;
      TextLength(TAG_BINARY, d.data, StringBudget(fields), rest);
    } else {
      FixedLength(cast, d, fields);
      hide Body;
      var part := PartOf(cast, d, fields);
      assert (part + rest)[0] == part[0];
    }
  }

  lemma FixedLength(cast: i64 -> u64, d: Document, fields: Fields)
    requires IsWhole(d) && !d.Str? && !d.Binary?
    requires !IsUnordered(d) && (d.Int? || d.Float?) ==> !IsNaN(BitsOf(cast, d))
    ensures |PartOf(cast, d, fields)|
         == if IsUnordered(d) || d.Null? then 1 else if d.Bool? then 2 else if d.Id? then 17
            else if d.DateTime? then 13 else 9
  {
    hide ExactOf, IsNaN, BitsOf, ToBig;
  }

  /** A key's parts are found again in it, each whole. */
  lemma {:induction false} SplitBack(cast: i64 -> u64, values: seq<Document>, fields: Fields)
    requires CastOk(cast) && AreWhole(values)
    ensures Split(PartsOf(cast, values, fields))
         == seq(|values|, i requires 0 <= i < |values| => PartOf(cast, values[i], fields))
    decreases |values|
  {
    hide CastOk, PartOf, IsWhole, PartLength;
    if values != [] {
      var (part, rest) := (PartOf(cast, values[0], fields), PartsOf(cast, values[1..], fields));
      LengthOfPart(cast, values[0], fields, rest);
      SplitBack(cast, values[1..], fields);
      assert (part + rest)[..|part|] == part && (part + rest)[|part|..] == rest;
    }
  }
}
