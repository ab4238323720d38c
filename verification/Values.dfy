/** The values a document is made of, and the order a sort puts them in
    (`src/query.rs`). Numbers are compared by their exact value: every finite
    float is a whole number of units of 2^-1074, so no rounding is involved. */
module Values {

  type byte = b: int | 0 <= b < 0x100
  type u64 = x: int | 0 <= x < 0x1_0000_0000_0000_0000
  type i64 = x: int | -0x8000_0000_0000_0000 <= x < 0x8000_0000_0000_0000

  datatype Option<+T> = None | Some(value: T)

  /** An id is its sixteen bytes; the order below is defined on any bytes. */
  type DocId = seq<byte>

  datatype Document =
    | Null
    | Bool(value: bool)
    | Int(number: i64)
    | Float(bits: u64)
    | Str(text: seq<byte>)
    | Binary(data: seq<byte>)
    | Array(items: seq<Document>)
    | Object(fields: seq<(seq<byte>, Document)>)
    | Id(id: DocId)
    | DateTime(secs: i64, nanos: nat)

  /** 2^n. */
  function Pow2(n: nat): (p: nat)
    ensures p >= 1
  {
    if n == 0 then 1 else 2 * Pow2(n - 1)
  }

  /** What a number is, exactly: a whole number of units of 2^-1074, an
      infinity, or not a number at all. */
  datatype Exact = Finite(units: int) | Infinite(negative: bool) | NaN

  const TWO52: int := 0x10_0000_0000_0000
  const TWO63: int := 0x8000_0000_0000_0000

  /** The exponent field of a float's bits, and its fraction field. */
  function ExponentField(bits: u64): (e: nat)
    ensures e < 0x800
  {
    (bits % TWO63) / TWO52
  }

  function FractionField(bits: u64): (f: nat)
    ensures f < TWO52
  {
    bits % TWO52
  }

  predicate NegativeBit(bits: u64) {
    bits >= TWO63
  }

  /** The units a finite float's bits stand for, sign left out. */
  function Units(bits: u64): (u: nat) {
    var e := ExponentField(bits);
    if e == 0 then FractionField(bits) else (TWO52 + FractionField(bits)) * Pow2(e - 1)
  }

  /** Where an integer's units start: 1 is 2^1074 units. */
  const INT_SHIFT := 1074

  function ExactOf(d: Document): (x: Exact)
    requires d.Int? || d.Float?
  {
    match d
    case Int(i) => Finite(i * Pow2(INT_SHIFT))
    case Float(bits) =>
      if ExponentField(bits) == 0x7FF then
        (if FractionField(bits) == 0 then Infinite(NegativeBit(bits)) else NaN)
      else
        var units: int := Units(bits);
        Finite(if NegativeBit(bits) then -units else units)
  }

  // ---------------------------------------------------------------- orders

  /** Comparisons give a negative number, zero or a positive one. */
  function Sign(a: int, b: int): (r: int) {
    if a < b then -1 else if a == b then 0 else 1
  }

  function CompareBytes(a: seq<byte>, b: seq<byte>): (r: int) {
    if a == [] then (if b == [] then 0 else -1)
    else if b == [] then 1
    else if a[0] != b[0] then Sign(a[0], b[0])
    else CompareBytes(a[1..], b[1..])
  }

  /** The byte order is a total order: only equal bytes compare equal. */
  lemma {:induction false} BytesAreTotal(a: seq<byte>, b: seq<byte>)
    ensures CompareBytes(b, a) == -CompareBytes(a, b)
    ensures CompareBytes(a, b) == 0 <==> a == b
  {
    if a != [] && b != [] {
      BytesAreTotal(a[1..], b[1..]);
      assert a == [a[0]] + a[1..] && b == [b[0]] + b[1..];
    }
  }

  lemma {:induction false} BytesAreTransitive(a: seq<byte>, b: seq<byte>, c: seq<byte>)
    requires CompareBytes(a, b) <= 0 && CompareBytes(b, c) <= 0
    ensures CompareBytes(a, c) <= 0
  {
    if a != [] && b != [] && c != [] && a[0] == b[0] == c[0] {
      BytesAreTransitive(a[1..], b[1..], c[1..]);
    }
  }

  const UNORDERED := 7

  function SortRank(d: Document): (r: nat) {
    match d
    case Null => 0
    case Bool(_) => 1
    case Int(_) => 2
    case Float(_) => if ExactOf(d).NaN? then UNORDERED else 2
    case Str(_) => 3
    case Id(_) => 4
    case DateTime(_, _) => 5
    case Binary(_) => 6
    case Array(_) => UNORDERED
    case Object(_) => UNORDERED
  }

  /** Arrays, objects and NaN: no comparison orders them. */
  predicate IsUnordered(d: Document) {
    SortRank(d) == UNORDERED
  }

  function CompareExact(a: Exact, b: Exact): (r: int)
    requires !a.NaN? && !b.NaN?
  {
    match (a, b)
    case (Finite(x), Finite(y)) => Sign(x, y)
    case (Infinite(n), Infinite(m)) => if n == m then 0 else if n then -1 else 1
    case (Infinite(n), _) => if n then -1 else 1
    case (_, Infinite(m)) => if m then 1 else -1
  }

  /** `compare`, on two values of one orderable kind. */
  function CompareSameKind(a: Document, b: Document): (r: int)
    requires SortRank(a) == SortRank(b) != UNORDERED
  {
    match a
    case Null => 0
    case Bool(x) => if x == b.value then 0 else if x then 1 else -1
    case Int(_) => CompareExact(ExactOf(a), ExactOf(b))
    case Float(_) => CompareExact(ExactOf(a), ExactOf(b))
    case Str(x) => CompareBytes(x, b.text)
    case Id(x) => CompareBytes(x, b.id)
    case DateTime(s, n) => if s != b.secs then Sign(s, b.secs) else Sign(n, b.nanos)
    case Binary(x) => CompareBytes(x, b.data)
  }

  datatype SortOrder = Asc | Desc

  /** `sort_order`: kinds in a fixed order, each by value, reversed for
      `Desc`; values nothing orders come last both ways, as equals. */
  function Sorting(a: Document, b: Document, order: SortOrder): (r: int) {
    var (ra, rb) := (SortRank(a), SortRank(b));
    if ra == UNORDERED || rb == UNORDERED then Sign(ra, rb)
    else
      var ord := if ra != rb then Sign(ra, rb) else CompareSameKind(a, b);
      if order == Asc then ord else -ord
  }

  lemma SortingIsAntisymmetric(a: Document, b: Document, order: SortOrder)
    ensures Sorting(b, a, order) == -Sorting(a, b, order)
  {
    if SortRank(a) == SortRank(b) != UNORDERED {
      match a
      case Str(x) => BytesAreTotal(x, b.text);
      case Id(x) => BytesAreTotal(x, b.id);
      case Binary(x) => BytesAreTotal(x, b.data);
      case _ =>
    }
  }

  /** `sort_order` is a total preorder, whichever way it runs. */
  lemma SortingIsTransitive(a: Document, b: Document, c: Document, order: SortOrder)
    requires Sorting(a, b, order) <= 0 && Sorting(b, c, order) <= 0
    ensures Sorting(a, c, order) <= 0
  {
    if SortRank(a) == SortRank(b) == SortRank(c) != UNORDERED {
      if order == Desc {
        SortingIsAntisymmetric(a, b, Asc);
        SortingIsAntisymmetric(b, c, Asc);
        SortingIsAntisymmetric(a, c, Asc);
        SameKindIsTransitive(c, b, a);
      } else {
        SameKindIsTransitive(a, b, c);
      }
    }
  }

  lemma SameKindIsTransitive(a: Document, b: Document, c: Document)
    requires SortRank(a) == SortRank(b) == SortRank(c) != UNORDERED
    requires CompareSameKind(a, b) <= 0 && CompareSameKind(b, c) <= 0
    ensures CompareSameKind(a, c) <= 0
  {
    match a
    case Str(x) => BytesAreTransitive(x, b.text, c.text);
    case Id(x) => BytesAreTransitive(x, b.id, c.id);
    case Binary(x) => BytesAreTransitive(x, b.data, c.data);
    case _ =>
  }

  // ------------------------------------------------------------ which way it runs

  /** Bytes before others: a proper beginning of them, or the smaller byte where they
      first differ. */
  ghost predicate BytesLess(a: seq<byte>, b: seq<byte>) {
    exists k :: DiffersAt(a, b, k)
  }

  predicate DiffersAt(a: seq<byte>, b: seq<byte>, k: int) {
    && 0 <= k <= |a| && k < |b| && a[..k] == b[..k]
    && (k == |a| || a[k] < b[k])
  }

  lemma FirstDiffers(a: seq<byte>, b: seq<byte>, k: int)
    requires DiffersAt(a, b, k) && a != [] && b != []
    ensures k > 0 ==> a[0] == b[0]
  {
    assert k > 0 ==> a[..k][0] == a[0] && b[..k][0] == b[0];
  }

  lemma {:induction false} BytesRun(a: seq<byte>, b: seq<byte>)
    ensures CompareBytes(a, b) < 0 <==> BytesLess(a, b)
  {
    if a != [] && b != [] && a[0] == b[0] {
      var (x, y) := (a[1..], b[1..]);
      BytesRun(x, y);
      assert a == [a[0]] + x && b == [b[0]] + y;
      if k :| DiffersAt(x, y, k) {
        assert a[..k + 1] == [a[0]] + x[..k] && b[..k + 1] == [b[0]] + y[..k];
        assert DiffersAt(a, b, k + 1);
      }
      if k :| DiffersAt(a, b, k) {
        assert a[..k][1..] == x[..k - 1] && b[..k][1..] == y[..k - 1];
        assert DiffersAt(x, y, k - 1);
      }
    } else if a != [] && b != [] {
      forall k | DiffersAt(a, b, k) ensures k == 0 {
        FirstDiffers(a, b, k);
      }
      assert a[0] < b[0] ==> DiffersAt(a, b, 0);
    } else {
      assert b != [] ==> DiffersAt(a, b, 0);
    }
  }

  /** Smaller, of what numbers are exactly. */
  predicate ExactLess(x: Exact, y: Exact) {
    match (x, y)
    case (Finite(a), Finite(b)) => a < b
    case (Infinite(true), _) => y != Infinite(true) && !y.NaN?
    case (_, Infinite(false)) => x != Infinite(false) && !x.NaN?
    case _ => false
  }

  /** Kinds no comparison orders: NaN, arrays and objects. */
  predicate HasNoOrder(d: Document) {
    match d
    case Float(_) => ExactOf(d).NaN?
    case Array(_) => true
    case Object(_) => true
    case _ => false
  }

  predicate OneKind(a: Document, b: Document) {
    match a
    case Null => b.Null?
    case Bool(_) => b.Bool?
    case Int(_) => b.Int? || b.Float?
    case Float(_) => b.Int? || b.Float?
    case Str(_) => b.Str?
    case Id(_) => b.Id?
    case DateTime(_, _) => b.DateTime?
    case Binary(_) => b.Binary?
    case _ => false
  }

  /** Null, bool, number, string, id, date-time, binary: a kind before another. */
  predicate KindLess(a: Document, b: Document) {
    match a
    case Null => !b.Null?
    case Bool(_) => !b.Null? && !b.Bool?
    case Int(_) => b.Str? || b.Id? || b.DateTime? || b.Binary?
    case Float(_) => b.Str? || b.Id? || b.DateTime? || b.Binary?
    case Str(_) => b.Id? || b.DateTime? || b.Binary?
    case Id(_) => b.DateTime? || b.Binary?
    case DateTime(_, _) => b.Binary?
    case _ => false
  }

  /** Smaller, of two values of one kind. */
  ghost predicate ValueLess(a: Document, b: Document)
    requires OneKind(a, b)
  {
    match a
    case Null => false
    case Bool(x) => !x && b.value
    case Int(_) => ExactLess(ExactOf(a), ExactOf(b))
    case Float(_) => ExactLess(ExactOf(a), ExactOf(b))
    case Str(x) => BytesLess(x, b.text)
    case Id(x) => BytesLess(x, b.id)
    case DateTime(s, n) => s < b.secs || (s == b.secs && n < b.nanos)
    case Binary(x) => BytesLess(x, b.data)
  }

  /** Smaller, of two ordered values: of an earlier kind, or of one kind and smaller. */
  ghost predicate Less(a: Document, b: Document) {
    && !HasNoOrder(a) && !HasNoOrder(b)
    && (KindLess(a, b) || (OneKind(a, b) && ValueLess(a, b)))
  }

  /** Ascending the smaller of two ordered values comes first, descending the larger,
      and both ways what has no order last. */
  ghost predicate ComesFirst(a: Document, b: Document, order: SortOrder) {
    (!HasNoOrder(a) && HasNoOrder(b)) || (if order == Asc then Less(a, b) else Less(b, a))
  }

  lemma SameKindRuns(a: Document, b: Document)
    requires OneKind(a, b) && !HasNoOrder(a) && !HasNoOrder(b)
    ensures SortRank(a) == SortRank(b) != UNORDERED
    ensures CompareSameKind(a, b) < 0 <==> ValueLess(a, b)
  {
    assert (a.Int? ==> ExactOf(a).Finite?) && (b.Int? ==> ExactOf(b).Finite?);
    hide ExactOf, CompareBytes;
    match a
    case Str(x) => BytesRun(x, b.text);
    case Id(x) => BytesRun(x, b.id);
    case Binary(x) => BytesRun(x, b.data);
    case _ =>
  }

  lemma KindsRun(a: Document, b: Document)
    requires !HasNoOrder(a) && !HasNoOrder(b)
    ensures SortRank(a) < SortRank(b) <==> KindLess(a, b)
    ensures SortRank(a) == SortRank(b) <==> OneKind(a, b)
  {
    hide ExactOf;
  }

  lemma NoOrderIsLast(d: Document)
    ensures SortRank(d) == UNORDERED <==> HasNoOrder(d)
    ensures SortRank(d) <= UNORDERED
  {
    hide ExactOf;
  }

  /** The order the sort runs in, both ways. */
  lemma SortingRuns(a: Document, b: Document, order: SortOrder)
    ensures Sorting(a, b, order) < 0 <==> ComesFirst(a, b, order)
    ensures Sorting(a, b, order) == 0 <==> !ComesFirst(a, b, order) && !ComesFirst(b, a, order)
  {
    OneWayRuns(a, b, order);
    OneWayRuns(b, a, order);
    SortingIsAntisymmetric(a, b, order);
    hide Sorting, ComesFirst;
  }

  lemma OneWayRuns(a: Document, b: Document, order: SortOrder)
    ensures Sorting(a, b, order) < 0 <==> ComesFirst(a, b, order)
  {
    NoOrderIsLast(a);
    NoOrderIsLast(b);
    hide ExactOf, SortRank, HasNoOrder, KindLess, OneKind, ValueLess, CompareSameKind;
    if !HasNoOrder(a) && !HasNoOrder(b) {
      KindsRun(a, b);
      KindsRun(b, a);
      if OneKind(a, b) {
        SameKindRuns(a, b);
        SameKindRuns(b, a);
        SameKindIsAntisymmetric(a, b);
      }
    }
  }

  lemma SameKindIsAntisymmetric(a: Document, b: Document)
    requires SortRank(a) == SortRank(b) != UNORDERED
    ensures CompareSameKind(b, a) == -CompareSameKind(a, b)
  {
    assert (a.Int? ==> ExactOf(a).Finite?) && (b.Int? ==> ExactOf(b).Finite?);
    hide ExactOf;
    match a
    case Str(x) => BytesAreTotal(x, b.text);
    case Id(x) => BytesAreTotal(x, b.id);
    case Binary(x) => BytesAreTotal(x, b.data);
    case _ =>
  }

  /** Whole numbers by size. */
  lemma WholeNumbersRun(x: i64, y: i64)
    ensures Sorting(Int(x), Int(y), Asc) < 0 <==> x < y
    ensures Sorting(Int(x), Int(y), Desc) < 0 <==> x > y
  {
    SortingRuns(Int(x), Int(y), Asc);
    SortingRuns(Int(x), Int(y), Desc);
    Scaled(x, y, Pow2(INT_SHIFT));
    Scaled(y, x, Pow2(INT_SHIFT));
    hide Sorting, Pow2;
  }

  lemma Scaled(x: int, y: int, d: int)
    requires d >= 1
    ensures x * d < y * d <==> x < y
  {
    ScaledGrows(y - x, d);
    ScaledGrows(x - y, d);
    assert (y - x) * d == y * d - x * d && (x - y) * d == x * d - y * d;
  }

  lemma ScaledGrows(k: int, d: int)
    requires d >= 1
    ensures k >= 1 ==> k * d >= 1
    ensures k == 0 ==> k * d == 0
  {
    if k >= 1 { assert k * d == (k - 1) * d + d && (k - 1) * d >= 0; }
  }
}
