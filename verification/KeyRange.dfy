/** Ranges of index keys (`src/index/key.rs`): for a condition on a value, from where to
    where in an index its matches stand. */
module KeyRanges {
  import opened Values
  import opened WideInteger
  import opened IndexKeys

  // ---------------------------------------------------------------------- ranges

  /** Keys from `start` on, up to `end` if there is one. */
  datatype KeyRange = KeyRange(start: seq<byte>, end: Option<seq<byte>>)

  predicate InRange(range: KeyRange, key: seq<byte>) {
    CompareBytes(range.start, key) <= 0 && (range.end.Some? ==> CompareBytes(key, range.end.value) < 0)
  }

  /** `prefix_end`: the last byte that can be more is one more, and none follow. */
  function PrefixEnd(prefix: seq<byte>): (end: Option<seq<byte>>) {
    if prefix == [] then None
    else
      var n := |prefix| - 1;
      if prefix[n] < 0xFF then Some(prefix[..n] + [prefix[n] + 1]) else PrefixEnd(prefix[..n])
  }

  method PrefixEndOf(prefix: seq<byte>) returns (end: Option<seq<byte>>)
    ensures end == PrefixEnd(prefix)
  {
    var left := prefix;
    while left != []
      invariant PrefixEnd(left) == PrefixEnd(prefix)
      decreases |left|
    {
      var last := left[|left| - 1];
      left := left[..|left| - 1];
      if last < 0xFF {
        return Some(left + [last + 1]);
      }
    }
    end := None;
  }

  function Prefixed(prefix: seq<byte>): (range: KeyRange) {
    KeyRange(prefix, PrefixEnd(prefix))
  }

  /** By the first byte: the end of the rest, if it has one, else the byte itself one
      more. */
  lemma {:induction false} EndFromTheFront(prefix: seq<byte>)
    requires prefix != []
    ensures PrefixEnd(prefix)
         == var rest := PrefixEnd(prefix[1..]);
            if rest.Some? then Some([prefix[0]] + rest.value)
            else if prefix[0] < 0xFF then Some([prefix[0] + 1])
            else None
    decreases |prefix|
  {
    var n := |prefix| - 1;
    var tail := prefix[1..];
    if n == 0 {
      assert tail == [] && prefix[..n] == [];
      assert PrefixEnd(prefix[..n]) == None && prefix[..n] + [prefix[0] as int + 1] == [prefix[0] as int + 1];
    } else {
      assert tail[..n - 1] == prefix[..n][1..] && tail[n - 1] == prefix[n];
      if prefix[n] < 0xFF {
        assert prefix[..n] == [prefix[0]] + tail[..n - 1];
        assert prefix[..n] + [prefix[n] + 1] == [prefix[0]] + (tail[..n - 1] + [prefix[n] + 1]);
      } else {
        EndFromTheFront(prefix[..n]);
      }
    }
  }

  lemma SameFirst(h: byte, a: seq<byte>, b: seq<byte>)
    ensures CompareBytes([h] + a, [h] + b) == CompareBytes(a, b)
  {
    JoinedOrder([h], [h], a, b);
  }

  lemma OtherFirst(a: seq<byte>, b: seq<byte>)
    requires a != [] && b != [] && a[0] != b[0]
    ensures CompareBytes(a, b) == Sign(a[0], b[0])
  {
  }

  /** The keys in a prefix's range are just those that begin with it. */
  lemma {:induction false} PrefixRange(prefix: seq<byte>, key: seq<byte>)
    ensures InRange(Prefixed(prefix), key) <==> prefix <= key
  {
    if prefix != [] && key != [] {
      EndFromTheFront(prefix);
      var (p, k) := (prefix[0], key[0]);
      var (rest, tail) := (prefix[1..], key[1..]);
      assert key == [k] + tail && prefix == [p] + rest;
      var (end, restEnd) := (PrefixEnd(prefix), PrefixEnd(rest));
      hide PrefixEnd, CompareBytes;
      if k == p {
        PrefixRange(rest, tail);
        SameFirst(p, rest, tail);
        if restEnd.Some? {
          SameFirst(p, tail, restEnd.value);
        } else if end.Some? {
          OtherFirst(key, end.value);
        }
      } else {
        OtherFirst(prefix, key);
        if end.Some? && k > p { FirstOfEnd(p, k, end.value, key); }
      }
    }
  }

  lemma FirstOfEnd(p: byte, k: byte, end: seq<byte>, key: seq<byte>)
    requires key != [] && key[0] == k && end != [] && k > p
    requires end[0] == p || end == [p + 1]
    ensures CompareBytes(key, end) >= 0
  {
  }

  /** `intersect`. */
  function Intersect(a: KeyRange, b: KeyRange): (both: KeyRange) {
    KeyRange(
      if CompareBytes(a.start, b.start) < 0 then b.start else a.start,
      if a.end.None? then b.end else if b.end.None? then a.end
      else if CompareBytes(a.end.value, b.end.value) < 0 then a.end else b.end)
  }

  lemma IntersectIs(a: KeyRange, b: KeyRange, key: seq<byte>)
    ensures InRange(Intersect(a, b), key) <==> InRange(a, key) && InRange(b, key)
  {
    hide CompareBytes;
    LeastOfTwo(a.start, b.start, key);
    if a.end.Some? && b.end.Some? { LeastOfTwo(a.end.value, b.end.value, key); }
  }

  lemma LeastOfTwo(a: seq<byte>, b: seq<byte>, key: seq<byte>)
    ensures CompareBytes(a, b) < 0 && CompareBytes(b, key) <= 0 ==> CompareBytes(a, key) <= 0
    ensures CompareBytes(a, b) >= 0 && CompareBytes(a, key) <= 0 ==> CompareBytes(b, key) <= 0
    ensures CompareBytes(a, b) < 0 && CompareBytes(key, a) < 0 ==> CompareBytes(key, b) < 0
    ensures CompareBytes(a, b) >= 0 && CompareBytes(key, b) < 0 ==> CompareBytes(key, a) < 0
  {
    hide CompareBytes;
    BytesAreTotal(a, b);
    BytesAreTotal(a, key);
    BytesAreTotal(b, key);
    if CompareBytes(a, b) <= 0 && CompareBytes(b, key) <= 0 { BytesAreTransitive(a, b, key); }
    if CompareBytes(b, a) <= 0 && CompareBytes(a, key) <= 0 { BytesAreTransitive(b, a, key); }
  }

  /** `under`: a range of what follows a prefix. */
  function Under(range: KeyRange, prefix: seq<byte>): (under: KeyRange) {
    KeyRange(prefix + range.start,
             if range.end.Some? then Some(prefix + range.end.value) else PrefixEnd(prefix))
  }

  lemma UnderIs(range: KeyRange, prefix: seq<byte>, key: seq<byte>)
    ensures InRange(Under(range, prefix), key) <==> prefix <= key && InRange(range, key[|prefix|..])
  {
    PrefixRange(prefix, key);
    hide CompareBytes, PrefixEnd;
    if prefix <= key {
      var rest := key[|prefix|..];
      assert key == prefix + rest;
      JoinedOrder(prefix, prefix, range.start, rest);
      if range.end.Some? { JoinedOrder(prefix, prefix, rest, range.end.value); }
    } else {
      NotUnder(prefix, range.start, key);
      if range.end.Some? { BelowEnd(prefix, range.end.value, key); }
    }
  }

  lemma NotUnder(prefix: seq<byte>, start: seq<byte>, key: seq<byte>)
    ensures CompareBytes(prefix + start, key) <= 0 ==> CompareBytes(prefix, key) <= 0
  {
    assert prefix + [] == prefix;
    JoinedOrder(prefix, prefix, [], start);
    assert CompareBytes([], start) <= 0;
    if CompareBytes(prefix + start, key) <= 0 { BytesAreTransitive(prefix, prefix + start, key); }
  }

  lemma BelowEnd(prefix: seq<byte>, more: seq<byte>, key: seq<byte>)
    ensures var end := PrefixEnd(prefix);
            CompareBytes(key, prefix + more) < 0 && end.Some? ==> CompareBytes(key, end.value) < 0
  {
    PrefixRange(prefix, prefix + more);
    hide CompareBytes, PrefixEnd;
    var end := PrefixEnd(prefix);
    if end.Some? { LeastOfTwo(prefix + more, end.value, key); }
  }

  // -------------------------------------------------------- ranges for conditions

  datatype Op = Eq | Ne | Lt | Lte | Gt | Gte | Contains | StartsWith

  /** Whether a filter's condition holds of a document's value. */
  predicate Holds(op: Op, d: Document, v: Document)
    requires !op.Contains?
  {
    match op
    case Eq => Compare(d, v) == Some(0)
    case Ne => Compare(d, v) != Some(0)
    case Lt => Compare(d, v).Some? && Compare(d, v).value < 0
    case Lte => Compare(d, v).Some? && Compare(d, v).value <= 0
    case Gt => Compare(d, v).Some? && Compare(d, v).value > 0
    case Gte => Compare(d, v).Some? && Compare(d, v).value >= 0
    case StartsWith => (d.Str? && v.Str? && v.text <= d.text) || (d.Binary? && v.Binary? && v.data <= d.data)
  }

  /** `range_for_in`; nothing where no range has the matches. */
  function RangeFor(cast: i64 -> u64, op: Op, v: Document, fields: Fields): (range: Option<KeyRange>) {
    var bytes := EncodeValue(cast, v, fields);
    if bytes.None? then None
    else
      var e := bytes.value;
      match op
      case Eq => Some(Prefixed(e))
      case Gt => Some(KeyRange(e, PrefixEnd(e[..1])))
      case Gte => Some(KeyRange(e, PrefixEnd(e[..1])))
      case Lt => Some(KeyRange(e[..1], PrefixEnd(e)))
      case Lte => Some(KeyRange(e[..1], PrefixEnd(e)))
      case StartsWith => if |e| >= 2 && (v.Str? || v.Binary?) then Some(Prefixed(e[..|e| - 2])) else None
      case _ => None
  }

  /** Of the order of the parts a range looks at. */
  predicate PartHolds(op: Op, c: int) {
    (op.Eq? && c == 0) || ((op.Gt? || op.Gte?) && c >= 0) || ((op.Lt? || op.Lte?) && c <= 0)
  }

  lemma FirstIs(cast: i64 -> u64, d: Document, fields: Fields)
    ensures PartOf(cast, d, fields) != []
    ensures PartOf(cast, d, fields)[0] == if IsUnordered(d) then TAG_OTHER else SortRank(d)
    ensures SortRank(d) <= UNORDERED
  {
    TagIsRank(d);
    hide SortRank, Body;
  }

  /** In a range are just the keys of values of the kind asked for whose parts stand so
      to the value's, whatever follows the part. */
  lemma RangeIs(cast: i64 -> u64, op: Op, d: Document, v: Document, fields: Fields, rest: seq<byte>)
    requires CastOk(cast) && IsWhole(d) && IsWhole(v) && !op.StartsWith? && RangeFor(cast, op, v, fields).Some?
    ensures var (part, e) := (PartOf(cast, d, fields), PartOf(cast, v, fields));
            InRange(RangeFor(cast, op, v, fields).value, part + rest)
            <==> SortRank(d) == SortRank(v) && PartHolds(op, CompareBytes(part, e))
  {
    var (part, e) := (PartOf(cast, d, fields), PartOf(cast, v, fields));
    FirstIs(cast, d, fields);
    FirstIs(cast, v, fields);
    PartsApart(cast, d, v, fields);
    assert !IsUnordered(v) && e[..1] == [e[0]];
    hide CastOk, PartOf, SortRank, CompareBytes, PrefixEnd, IsWhole;
    BytesAreTotal(part, e);
    PrefixOfPart(part, e, rest);
    match op
    case Eq => PrefixRange(e, part + rest);
    case Gt => FromPart(part, e, rest);
    case Gte => FromPart(part, e, rest);
    case Lt => UpToPart(part, e, rest);
    case Lte => UpToPart(part, e, rest);
  }

  lemma PrefixOfPart(part: seq<byte>, e: seq<byte>, rest: seq<byte>)
    requires ApartOrSame(part, e)
    ensures e <= part + rest <==> part == e
  {
    BeginsIn(e, part, [], rest);
    assert e + [] == e;
    if part == e { assert (part + rest)[..|e|] == e; }
  }

  lemma FromPart(part: seq<byte>, e: seq<byte>, rest: seq<byte>)
    requires ApartOrSame(part, e) && part != [] && e != [] && e[0] < 0xFF
    ensures InRange(KeyRange(e, PrefixEnd([e[0]])), part + rest) <==> part[0] == e[0] && CompareBytes(part, e) >= 0
  {
    var key := part + rest;
    var end := [e[0] + 1];
    assert key[0] == part[0] && e + [] == e;
    JoinedOrder(e, part, [], rest);
    assert [] + end == end;
    assert PrefixEnd([e[0]]) == Some(end) by { assert [e[0]][..0] == []; }
    BytesAreTotal(part, e);
    BytesAreTotal(e, part);
    BelowOne(key, e[0]);
    assert CompareBytes([], rest) <= 0;
    if part[0] < e[0] { OtherFirst(part, e); }
  }

  lemma BelowOne(key: seq<byte>, b: byte)
    requires key != [] && b < 0xFF
    ensures CompareBytes(key, [b + 1]) < 0 <==> key[0] <= b
  {
  }

  lemma UpToPart(part: seq<byte>, e: seq<byte>, rest: seq<byte>)
    requires ApartOrSame(part, e) && part != [] && e != []
    ensures InRange(KeyRange([e[0]], PrefixEnd(e)), part + rest) <==> part[0] == e[0] && CompareBytes(part, e) <= 0
  {
    var key := part + rest;
    assert key[0] == part[0] && e + [] == e;
    JoinedOrder(part, e, rest, []);
    PrefixOfPart(part, e, rest);
    PrefixRange(e, key);
    PrefixRange(e, e);
    BytesAreTotal(part, e);
    BytesAreTotal(key, e);
    FromOne(key, e[0]);
    hide PrefixEnd;
    var end := PrefixEnd(e);
    if part[0] > e[0] { OtherFirst(part, e); }
    hide CompareBytes;
    if end.Some? { LeastOfTwo(e, end.value, key); LeastOfTwo(key, e, end.value); }
  }

  lemma FromOne(key: seq<byte>, b: byte)
    requires key != []
    ensures CompareBytes([b], key) <= 0 <==> b <= key[0]
  {
  }

  /** Every match of a condition has its key in the range, whatever follows its part. */
  lemma RangeCovers(cast: i64 -> u64, op: Op, d: Document, v: Document, fields: Fields, rest: seq<byte>)
    requires CastOk(cast) && IsWhole(d) && IsWhole(v) && RangeFor(cast, op, v, fields).Some?
    requires !op.Contains? && Holds(op, d, v)
    ensures InRange(RangeFor(cast, op, v, fields).value, PartOf(cast, d, fields) + rest)
  {
    if op.StartsWith? {
      PrefixCovers(cast, d, v, fields, rest);
    } else {
      RangeIs(cast, op, d, v, fields, rest);
      var (part, e) := (PartOf(cast, d, fields), PartOf(cast, v, fields));
      assert SortRank(d) == SortRank(v) != UNORDERED;
      hide CastOk, PartOf, SortRank, CompareSameKind, CompareBytes, InRange, IsWhole;
      BytesTell(cast, d, v, fields);
      BytesAreTotal(part, e);
    }
  }

  /** And one that is of the kind asked for and no match has the very bytes of the
      value. */
  lemma RangeHasFewMore(cast: i64 -> u64, op: Op, d: Document, v: Document, fields: Fields, rest: seq<byte>)
    requires CastOk(cast) && IsWhole(d) && IsWhole(v) && RangeFor(cast, op, v, fields).Some? && !op.StartsWith?
    requires InRange(RangeFor(cast, op, v, fields).value, PartOf(cast, d, fields) + rest)
    ensures !op.Contains? && Compare(d, v).Some?
    ensures Holds(op, d, v) || PartOf(cast, d, fields) == PartOf(cast, v, fields)
  {
    RangeIs(cast, op, d, v, fields, rest);
    var (part, e) := (PartOf(cast, d, fields), PartOf(cast, v, fields));
    assert SortRank(d) == SortRank(v) != UNORDERED;
    hide CastOk, PartOf, SortRank, CompareSameKind, CompareBytes, InRange, IsWhole;
    BytesTell(cast, d, v, fields);
    BytesAreTotal(part, e);
  }

  // ------------------------------------------------------------------ text's beginning

  lemma {:induction false} EscapedPrefix(p: seq<byte>, s: seq<byte>, budget: nat)
    requires p <= s
    ensures var (x, y) := (Escaped(p, budget), Escaped(s, budget)); x[..|x| - 2] <= y
  {
    if p != [] && Width(p[0]) <= budget {
      var left := budget - Width(p[0]);
      EscapedPrefix(p[1..], s[1..], left);
      var (x, y) := (Escaped(p[1..], left), Escaped(s[1..], left));
      assert (Piece(p[0]) + x)[..Width(p[0]) + |x| - 2] == Piece(p[0]) + x[..|x| - 2];
    }
  }

  lemma PrefixCovers(cast: i64 -> u64, d: Document, v: Document, fields: Fields, rest: seq<byte>)
    requires RangeFor(cast, StartsWith, v, fields).Some? && Holds(StartsWith, d, v)
    ensures InRange(RangeFor(cast, StartsWith, v, fields).value, PartOf(cast, d, fields) + rest)
  {
    var budget := StringBudget(fields);
    var (p, s) := if d.Str? then (v.text, d.text) else (v.data, d.data);
    hide Escaped, InRange, PrefixEnd, ExactOf, ToBig;
    var (x, y) := (Escaped(p, budget), Escaped(s, budget));
    EscapedPrefix(p, s, budget);
    var (e, key) := (PartOf(cast, v, fields), PartOf(cast, d, fields) + rest);
    assert e == [e[0]] + x && key == [e[0]] + y + rest;
    assert e[..|e| - 2] == [e[0]] + x[..|x| - 2];
    assert e[..|e| - 2] <= key;
    PrefixRange(e[..|e| - 2], key);
  }

  /** Byte after byte of a prefix, escaped, at the beginning of a part's body. */
  predicate Begins(body: seq<byte>, prefix: seq<byte>) {
    || prefix == []
    || (var k := Width(prefix[0]);
        |body| >= k && body[..k] == Piece(prefix[0]) && Begins(body[k..], prefix[1..]))
  }

  /** `part_starts_with`: nothing where the part was cut too early to tell. */
  function PartStartsWith(part: seq<byte>, prefix: Document, fields: Fields): (r: Option<bool>) {
    if !prefix.Str? && !prefix.Binary? then Some(false)
    else if part == [] || part[0] != (if prefix.Str? then TAG_STRING else TAG_BINARY) then Some(false)
    else if Begins(part[1..], if prefix.Str? then prefix.text else prefix.data) then Some(true)
    else if PartIsExact(part, fields) then Some(false)
    else None
  }

  /** The escaped bytes begin with the prefix only if the text does; if it does and they
      do not, the text was cut. */
  lemma {:induction false} BeginsIs(s: seq<byte>, prefix: seq<byte>, budget: nat)
    ensures Begins(Escaped(s, budget), prefix) ==> prefix <= s
    ensures prefix <= s && !Begins(Escaped(s, budget), prefix) ==> |Escaped(s, budget)| > budget
  {
    var e := Escaped(s, budget);
    if prefix != [] && s != [] && Width(s[0]) <= budget {
      var k := Width(s[0]);
      var left := Escaped(s[1..], budget - k);
      BeginsIs(s[1..], prefix[1..], budget - k);
      assert e[..k] == Piece(s[0]) && e[k..] == left && e[0] == s[0];
      assert s == [s[0]] + s[1..] && prefix == [prefix[0]] + prefix[1..];
    } else if prefix != [] {
      var k := Width(prefix[0]);
      assert e[..k][k - 1] == 0 && Piece(prefix[0])[k - 1] != 0;
    }
  }

  /** What it says is whether the text, or the binary, begins so. */
  lemma PartStartsWithIs(cast: i64 -> u64, d: Document, prefix: Document, fields: Fields)
    ensures var r := PartStartsWith(PartOf(cast, d, fields), prefix, fields);
            if r.Some? then r.value == Holds(StartsWith, d, prefix)
            else (d.Str? || d.Binary?) && !PartIsExact(PartOf(cast, d, fields), fields)
  {
    var part := PartOf(cast, d, fields);
    FirstIs(cast, d, fields);
    TagIsRank(d);
    var budget := StringBudget(fields);
    if d.Str? {
      assert part[1..] == Escaped(d.text, budget);
      if prefix.Str? { BeginsIs(d.text, prefix.text, budget); }
    } else if d.Binary? {
      assert part[1..] == Escaped(d.data, budget);
      if prefix.Binary? { BeginsIs(d.data, prefix.data, budget); }
    }
    hide Escaped, Begins, Body, ExactOf, FromBig, Unsorted, Unsigned;
  }
}
