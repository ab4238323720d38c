/** Values a filter finds equal (`equal_values`), and the one form they have for
    grouping (`canonical`, both `src/query.rs`): alike exactly if equal. */
module Canonicals {
  import opened Values
  import opened Powers
  import opened Rounding
  import opened WideInteger
  import opened ExactSums
  import opened Codec

  // -------------------------------------------------------------------- equal values

  /** `equal`: single values of one kind, numbers by their exact value. */
  predicate Equal(a: Document, b: Document) {
    SortRank(a) == SortRank(b) != UNORDERED && CompareSameKind(a, b) == 0
  }

  /** `equal_values`: arrays element by element, objects field by field in any
      order, NaN equal to nothing. */
  predicate EqualValues(a: Document, b: Document)
    decreases a, 0
  {
    if a.Array? && b.Array? then
      |a.items| == |b.items| && forall i :: 0 <= i < |a.items| ==> EqualValues(a.items[i], b.items[i])
    else if a.Object? && b.Object? then
      && |a.fields| == |b.fields|
      && forall i :: 0 <= i < |a.fields| ==> EqualsField(a.fields[i], b.fields)
    else Equal(a, b)
  }

  /** The field of that name has an equal value. */
  predicate EqualsField(field: Entry, fields: seq<Entry>)
    decreases field.1, 1
  {
    exists j :: 0 <= j < |fields| && fields[j].0 == field.0 && EqualValues(field.1, fields[j].1)
  }

  predicate HasNaN(d: Document) {
    match d
    case Float(_) => ExactOf(d).NaN?
    case Array(items) => exists i :: 0 <= i < |items| && HasNaN(items[i])
    case Object(fields) => exists i :: 0 <= i < |fields| && HasNaN(fields[i].1)
    case _ => false
  }

  // ------------------------------------------------------------------------- one form

  /** A whole number an `i64` holds, as that. */
  function WholeOf(x: Exact): (n: Option<i64>) {
    if x.Finite? && x.units % Pow2(INT_SHIFT) == 0 && -TWO63 <= x.units / Pow2(INT_SHIFT) < TWO63
    then Some(x.units / Pow2(INT_SHIFT)) else None
  }

  function CanonicalNumber(d: Document): (c: Document)
    requires IsNumber(d)
  {
    if d.Float? && WholeOf(ExactOf(d)).Some? then Int(WholeOf(ExactOf(d)).value) else d
  }

  function PutByName(field: Entry, sorted: seq<Entry>): (more: seq<Entry>) {
    if sorted == [] || CompareBytes(field.0, sorted[0].0) < 0 then [field] + sorted
    else [sorted[0]] + PutByName(field, sorted[1..])
  }

  function SortByName(fields: seq<Entry>): (sorted: seq<Entry>) {
    if fields == [] then [] else PutByName(fields[0], SortByName(fields[1..]))
  }

  /** `canonical`: whole floats as integers, an object's fields by name, at every
      depth; NaN as it is. */
  function Canonical(d: Document): (c: Document) {
    match d
    case Float(_) => CanonicalNumber(d)
    case Array(items) => Array(seq(|items|, i requires 0 <= i < |items| => Canonical(items[i])))
    case Object(fields) =>
      Object(SortByName(seq(|fields|, i requires 0 <= i < |fields| => (fields[i].0, Canonical(fields[i].1)))))
    case _ => d
  }

  function CanonicalFields(fields: seq<Entry>): (each: seq<Entry>)
    ensures |each| == |fields|
  {
    seq(|fields|, i requires 0 <= i < |fields| => (fields[i].0, Canonical(fields[i].1)))
  }

  // -------------------------------------------------------------------------- numbers

  lemma WholeIs(n: int)
    ensures (n * Pow2(INT_SHIFT)) % Pow2(INT_SHIFT) == 0 && (n * Pow2(INT_SHIFT)) / Pow2(INT_SHIFT) == n
  {
    hide Pow2;
    QuotientIs(n * Pow2(INT_SHIFT), Pow2(INT_SHIFT), n, 0);
  }

  /** The form of a number has its value. */
  lemma NumberKeepsValue(d: Document)
    requires IsNumber(d)
    ensures IsNumber(CanonicalNumber(d)) && ExactOf(CanonicalNumber(d)) == ExactOf(d)
    ensures WholeOf(ExactOf(d)).Some? <==> CanonicalNumber(d).Int?
    ensures CanonicalNumber(d).Int? ==> Some(CanonicalNumber(d).number) == WholeOf(ExactOf(d))
  {
    hide Pow2, Units, ExactOf;
    if d.Int? {
      IntIsWhole(d.number);
    } else if WholeOf(ExactOf(d)).Some? {
      IntIsWhole(WholeOf(ExactOf(d)).value);
    }
  }

  lemma IntIsWhole(n: i64)
    ensures ExactOf(Int(n)) == Finite(n * Pow2(INT_SHIFT)) && WholeOf(ExactOf(Int(n))) == Some(n)
  {
    hide Pow2;
    WholeIs(n);
  }

  /** A float that is not NaN is known by its value, but for the sign of a zero. */
  lemma FloatIsItsValue(a: u64, b: u64)
    requires ExactOf(Float(a)) == ExactOf(Float(b)) && !ExactOf(Float(a)).NaN? && ExactOf(Float(a)) != Finite(0)
    ensures a == b
  {
    var (x, y) := (ExactOf(Float(a)), ExactOf(Float(b)));
    if x.Finite? {
      FloatUnits(a);
      FloatUnits(b);
      SameUnits(Unsigned(a), Unsigned(b));
    } else {
      InfiniteBits(a);
      InfiniteBits(b);
    }
  }

  lemma SameUnits(a: int, b: int)
    requires 0 <= a < INFINITY && 0 <= b < INFINITY
    ensures Units(a) == Units(b) ==> a == b
  {
    hide Units;
    if a < b { UnitsAreOrdered(a, b); }
    if b < a { UnitsAreOrdered(b, a); }
  }

  /** Numbers of one value have one form. */
  lemma NumbersHaveOneForm(a: Document, b: Document)
    requires IsNumber(a) && IsNumber(b) && !ExactOf(a).NaN?
    ensures ExactOf(a) == ExactOf(b) <==> CanonicalNumber(a) == CanonicalNumber(b)
  {
    NumberKeepsValue(a);
    NumberKeepsValue(b);
    if ExactOf(a) == ExactOf(b) && WholeOf(ExactOf(a)).None? {
      assert ExactOf(a) != Finite(0) by { WholeIs(0); }
      hide ExactOf;
      FloatIsItsValue(a.bits, b.bits);
    }
  }

  lemma NumbersMean(a: Document, b: Document)
    requires IsNumber(a) && IsNumber(b)
    ensures Equal(a, b) <==> CanonicalNumber(a) == CanonicalNumber(b) && !ExactOf(a).NaN?
  {
    assert (a.Int? ==> !ExactOf(a).NaN?) && (b.Int? ==> !ExactOf(b).NaN?);
    hide ExactOf, CanonicalNumber;
    if !ExactOf(a).NaN? {
      NumbersHaveOneForm(a, b);
    }
  }

  lemma NumberOrNot(a: Document, b: Document)
    requires IsNumber(a) && !IsNumber(b)
    ensures !Equal(a, b) && CanonicalNumber(a) != Canonical(b)
  {
    hide ExactOf;
    if b.Array? || b.Object? { return; }
    assert Canonical(b) == b;
    hide Canonical;
  }

  lemma OthersMean(a: Document, b: Document)
    requires !IsNumber(a) && !IsNumber(b)
    requires !(a.Array? && b.Array?) && !(a.Object? && b.Object?)
    ensures Equal(a, b) <==> Canonical(a) == Canonical(b)
  {
    assert !a.Array? && !a.Object? ==> Canonical(a) == a;
    assert !b.Array? && !b.Object? ==> Canonical(b) == b;
    assert (a.Array? ==> Canonical(a).Array?) && (a.Object? ==> Canonical(a).Object?);
    assert (b.Array? ==> Canonical(b).Array?) && (b.Object? ==> Canonical(b).Object?);
    hide Canonical;
    match a
    case Str(x) => if b.Str? { BytesAreTotal(x, b.text); }
    case Id(x) => if b.Id? { BytesAreTotal(x, b.id); }
    case Binary(x) => if b.Binary? { BytesAreTotal(x, b.data); }
    case _ =>
  }

  lemma EqualIsMutual(a: Document, b: Document)
    ensures Equal(a, b) <==> Equal(b, a)
  {
    SortingIsAntisymmetric(a, b, Asc);
    hide CompareSameKind;
  }

  /** Single values: equal exactly if alike, unless NaN. */
  lemma SingleMeans(a: Document, b: Document)
    requires !(a.Array? && b.Array?) && !(a.Object? && b.Object?)
    ensures Equal(a, b) ==> !HasNaN(a)
    ensures Equal(a, b) <==> Canonical(a) == Canonical(b) && !HasNaN(a)
  {
    assert IsNumber(a) ==> Canonical(a) == CanonicalNumber(a) && (HasNaN(a) <==> ExactOf(a).NaN?);
    assert IsNumber(b) ==> Canonical(b) == CanonicalNumber(b);
    hide ExactOf, Canonical, CanonicalNumber;
    if IsNumber(a) && IsNumber(b) {
      NumbersMean(a, b);
    } else if IsNumber(a) {
      NumberOrNot(a, b);
    } else if IsNumber(b) {
      NumberOrNot(b, a);
      EqualIsMutual(a, b);
    } else {
      OthersMean(a, b);
    }
  }

  // -------------------------------------------------------------------- fields by name

  predicate ByName(fields: seq<Entry>) {
    forall i, j :: 0 <= i < j < |fields| ==> CompareBytes(fields[i].0, fields[j].0) < 0
  }

  lemma {:induction false} PutKeepsOrder(field: Entry, sorted: seq<Entry>)
    requires ByName(sorted) && forall e <- sorted :: e.0 != field.0
    ensures ByName(PutByName(field, sorted))
    ensures multiset(PutByName(field, sorted)) == multiset(sorted) + multiset{field}
  {
    if sorted == [] || CompareBytes(field.0, sorted[0].0) < 0 {
      if sorted != [] {
        forall e | e in sorted ensures CompareBytes(field.0, e.0) < 0 {
          FirstIsLeast(sorted, e);
          if e != sorted[0] { Chains(field.0, sorted[0].0, e.0); }
        }
      }
      OneInFront(field, sorted);
    } else {
      var (first, rest) := (sorted[0], sorted[1..]);
      assert sorted == [first] + rest;
      PutKeepsOrder(field, rest);
      BytesAreTotal(field.0, first.0);
      var more := PutByName(field, rest);
      hide PutByName, CompareBytes;
      forall e | e in more ensures CompareBytes(first.0, e.0) < 0 {
        assert e in multiset(more);
        assert e == field || e in rest;
      }
      OneInFront(first, more);
    }
  }

  lemma OneInFront(first: Entry, rest: seq<Entry>)
    requires ByName(rest) && forall e <- rest :: CompareBytes(first.0, e.0) < 0
    ensures ByName([first] + rest)
  {
    hide CompareBytes;
  }

  lemma Chains(a: seq<byte>, b: seq<byte>, c: seq<byte>)
    requires CompareBytes(a, b) < 0 && CompareBytes(b, c) < 0
    ensures CompareBytes(a, c) < 0
  {
    BytesAreTransitive(a, b, c);
    BytesAreTotal(a, c);
    BytesAreTotal(a, b);
    if CompareBytes(a, c) == 0 { BytesAreTotal(c, b); }
  }

  lemma {:induction false} SortedByName(fields: seq<Entry>)
    requires IsMap(fields)
    ensures ByName(SortByName(fields)) && multiset(SortByName(fields)) == multiset(fields)
  {
    if fields != [] {
      var rest := fields[1..];
      assert fields == [fields[0]] + rest;
      SortedByName(rest);
      forall e | e in SortByName(rest) ensures e.0 != fields[0].0 {
        assert e in multiset(rest);
      }
      PutKeepsOrder(fields[0], SortByName(rest));
    }
  }

  lemma {:induction false} ByNameIsUnique(a: seq<Entry>, b: seq<Entry>)
    requires ByName(a) && ByName(b) && forall e :: e in a <==> e in b
    ensures a == b
  {
    if a == [] {
      forall e ensures e !in multiset(b) {
        assert e !in a;
      }
      assert multiset(b) == multiset{} && |multiset(b)| == |b|;
    } else {
      assert a[0] in b && b[0] in a;
      BytesAreTotal(a[0].0, b[0].0);
      FirstIsLeast(a, b[0]);
      FirstIsLeast(b, a[0]);
      forall e ensures e in a[1..] <==> e in b[1..] {
        InRest(a, e);
        InRest(b, e);
      }
      ByNameIsUnique(a[1..], b[1..]);
      assert a == [a[0]] + a[1..] && b == [b[0]] + b[1..];
    }
  }

  lemma FirstIsLeast(a: seq<Entry>, e: Entry)
    requires ByName(a) && e in a
    ensures e == a[0] || CompareBytes(a[0].0, e.0) < 0
  {
  }

  lemma InRest(a: seq<Entry>, e: Entry)
    requires ByName(a) && a != []
    ensures e in a[1..] <==> e in a && e != a[0]
  {
    BytesAreTotal(a[0].0, a[0].0);
    assert a == [a[0]] + a[1..];
  }

  /** Fields in any order have one order by name. */
  lemma SortedAlike(a: seq<Entry>, b: seq<Entry>)
    requires IsMap(a) && IsMap(b)
    ensures SortByName(a) == SortByName(b) <==> |a| == |b| && forall e <- a :: e in b
  {
    SortedByName(a);
    SortedByName(b);
    assert forall e :: e in a <==> e in multiset(a);
    assert forall e :: e in b <==> e in multiset(b);
    assert forall e :: e in SortByName(a) <==> e in multiset(SortByName(a));
    assert forall e :: e in SortByName(b) <==> e in multiset(SortByName(b));
    assert |multiset(a)| == |a| && |multiset(b)| == |b|;
    hide SortByName, ByName;
    if |a| == |b| && forall e <- a :: e in b {
      AllOfThem(a, b);
      ByNameIsUnique(SortByName(a), SortByName(b));
    }
  }

  /** As many different ones, all of them there, are all there are. */
  lemma {:induction false} AllOfThem(a: seq<Entry>, b: seq<Entry>)
    requires IsMap(a) && |a| == |b| && forall e <- a :: e in b
    ensures forall e <- b :: e in a
  {
    if a != [] {
      var n := |a| - 1;
      var last := a[n];
      assert last in a;
      var i :| 0 <= i < |b| && b[i] == last;
      var rest := b[..i] + b[i + 1..];
      assert b == b[..i] + [last] + b[i + 1..];
      forall e | e in a[..n] ensures e in rest {
        assert e in a && e != last;
      }
      AllOfThem(a[..n], rest);
      assert a == a[..n] + [last];
    }
  }

  // ------------------------------------------------------------------------ the theorem

  /** Values are equal for a filter if and only if their forms are the same, at
      every depth and whatever the order of an object's fields; but a value with a
      NaN in it is equal to nothing. */
  lemma {:induction false} CanonicalMeans(a: Document, b: Document)
    requires Maps(a) && Maps(b)
    ensures EqualValues(a, b) <==> Canonical(a) == Canonical(b) && !HasNaN(a)
    decreases a
  {
    if a.Array? && b.Array? {
      ArraysMean(a.items, b.items);
    } else if a.Object? && b.Object? {
      ObjectsMean(a.fields, b.fields);
    } else {
      SingleMeans(a, b);
    }
  }

  lemma ArraysMean(a: seq<Document>, b: seq<Document>)
    requires (forall i :: 0 <= i < |a| ==> Maps(a[i])) && (forall i :: 0 <= i < |b| ==> Maps(b[i]))
    ensures EqualValues(Array(a), Array(b))
       <==> Canonical(Array(a)) == Canonical(Array(b)) && !HasNaN(Array(a))
    decreases a
  {
    if |a| == |b| {
      forall i | 0 <= i < |a|
        ensures EqualValues(a[i], b[i]) <==> Canonical(a[i]) == Canonical(b[i]) && !HasNaN(a[i])
      {
        CanonicalMeans(a[i], b[i]);
      }
      var (x, y) := (Canonical(Array(a)).items, Canonical(Array(b)).items);
      assert forall i :: 0 <= i < |a| ==> x[i] == Canonical(a[i]) && y[i] == Canonical(b[i]);
    } else {
      assert |Canonical(Array(a)).items| == |a| && |Canonical(Array(b)).items| == |b|;
    }
  }

  lemma ObjectsMean(a: seq<Entry>, b: seq<Entry>)
    requires Maps(Object(a)) && Maps(Object(b))
    ensures EqualValues(Object(a), Object(b))
       <==> Canonical(Object(a)) == Canonical(Object(b)) && !HasNaN(Object(a))
    decreases a
  {
    var (x, y) := (CanonicalFields(a), CanonicalFields(b));
    FormOfObject(a);
    FormOfObject(b);
    SortedAlike(x, y);
    hide SortByName;
    forall i, j | 0 <= i < |a| && 0 <= j < |b|
      ensures EqualValues(a[i].1, b[j].1) <==> x[i].1 == y[j].1 && !HasNaN(a[i].1)
    {
      CanonicalMeans(a[i].1, b[j].1);
    }
    FieldsMean(a, b);
  }

  lemma FormOfObject(a: seq<Entry>)
    requires IsMap(a)
    ensures Canonical(Object(a)) == Object(SortByName(CanonicalFields(a))) && IsMap(CanonicalFields(a))
  {
  }

  lemma FieldsMean(a: seq<Entry>, b: seq<Entry>)
    requires IsMap(a) && IsMap(b)
    requires forall i, j :: 0 <= i < |a| && 0 <= j < |b| ==>
               (EqualValues(a[i].1, b[j].1) <==> CanonicalFields(a)[i].1 == CanonicalFields(b)[j].1 && !HasNaN(a[i].1))
    ensures EqualValues(Object(a), Object(b))
       <==> |a| == |b| && (forall e <- CanonicalFields(a) :: e in CanonicalFields(b)) && !HasNaN(Object(a))
  {
    FieldsUnfold(a, b);
    hide Canonical, EqualValues, EqualsField, HasNaN;
    if EqualValues(Object(a), Object(b)) { EqualAlike(a, b, CanonicalFields(a), CanonicalFields(b)); }
    if |a| == |b| && (forall e <- CanonicalFields(a) :: e in CanonicalFields(b)) && !HasNaN(Object(a)) {
      AlikeEqual(a, b, CanonicalFields(a), CanonicalFields(b));
    }
  }

  /** Fields and their forms, name by name. */
  ghost predicate Formed(a: seq<Entry>, x: seq<Entry>) {
    |x| == |a| && forall i :: 0 <= i < |a| ==> x[i].0 == a[i].0
  }

  lemma EqualAlike(a: seq<Entry>, b: seq<Entry>, x: seq<Entry>, y: seq<Entry>)
    requires Formed(a, x) && Formed(b, y)
    requires forall i, j :: 0 <= i < |a| && 0 <= j < |b| && EqualValues(a[i].1, b[j].1) ==>
               x[i].1 == y[j].1 && !HasNaN(a[i].1)
    requires forall i :: 0 <= i < |a| ==> EqualsField(a[i], b)
    ensures (forall e <- x :: e in y) && forall i :: 0 <= i < |a| ==> !HasNaN(a[i].1)
  {
    hide HasNaN;
    forall i | 0 <= i < |a| ensures x[i] in y && !HasNaN(a[i].1) {
      var j := EqualAt(a[i], b);
      assert y[j] == x[i];
    }
  }

  lemma EqualAt(field: Entry, fields: seq<Entry>) returns (j: nat)
    requires EqualsField(field, fields)
    ensures j < |fields| && fields[j].0 == field.0 && EqualValues(field.1, fields[j].1)
  {
    j :| 0 <= j < |fields| && fields[j].0 == field.0 && EqualValues(field.1, fields[j].1);
  }

  lemma EqualThere(field: Entry, fields: seq<Entry>, j: nat)
    requires j < |fields| && fields[j].0 == field.0 && EqualValues(field.1, fields[j].1)
    ensures EqualsField(field, fields)
  {
  }

  lemma AlikeEqual(a: seq<Entry>, b: seq<Entry>, x: seq<Entry>, y: seq<Entry>)
    requires Formed(a, x) && Formed(b, y) && |a| == |b| && forall i :: 0 <= i < |a| ==> !HasNaN(a[i].1)
    requires forall i, j :: 0 <= i < |a| && 0 <= j < |b| ==>
               (x[i].1 == y[j].1 && !HasNaN(a[i].1) ==> EqualValues(a[i].1, b[j].1))
    requires forall e <- x :: e in y
    ensures forall i :: 0 <= i < |a| ==> EqualsField(a[i], b)
  {
    hide HasNaN, EqualValues, EqualsField;
    forall i | 0 <= i < |a| ensures EqualsField(a[i], b) {
      assert x[i] in x;
      var j :| 0 <= j < |y| && y[j] == x[i];
      EqualThere(a[i], b, j);
    }
  }

  lemma FieldsUnfold(a: seq<Entry>, b: seq<Entry>)
    ensures EqualValues(Object(a), Object(b)) <==> |a| == |b| && forall i :: 0 <= i < |a| ==> EqualsField(a[i], b)
    ensures HasNaN(Object(a)) <==> exists i :: 0 <= i < |a| && HasNaN(a[i].1)
  {
    hide EqualsField;
  }

  // ------------------------------------------------------------------- written as bytes

  /** The form of what can be written can be written, and nests no deeper. */
  lemma {:induction false} FormIsWritable(d: Document, levels: nat)
    requires Writable(d) && Nests(d, levels)
    ensures Writable(Canonical(d)) && Nests(Canonical(d), levels)
    decreases d
  {
    hide ExactOf, IsUtf8;
    match d
    case Array(items) =>
      forall i | 0 <= i < |items|
        ensures Writable(Canonical(items[i])) && Nests(Canonical(items[i]), levels - 1)
      {
        FormIsWritable(items[i], levels - 1);
      }
    case Object(fields) =>
      forall i | 0 <= i < |fields|
        ensures Writable(Canonical(fields[i].1)) && Nests(Canonical(fields[i].1), levels - 1)
      {
        FormIsWritable(fields[i].1, levels - 1);
      }
      FormOfObject(fields);
      SortedIsWritable(fields, levels);
    case _ =>
  }

  lemma SortedIsWritable(fields: seq<Entry>, levels: nat)
    requires Writable(Object(fields)) && levels >= 1 && IsMap(CanonicalFields(fields))
    requires forall i :: 0 <= i < |fields| ==>
               Writable(Canonical(fields[i].1)) && Nests(Canonical(fields[i].1), levels - 1)
    ensures Writable(Object(SortByName(CanonicalFields(fields)))) && Nests(Object(SortByName(CanonicalFields(fields))), levels)
  {
    var each := CanonicalFields(fields);
    SortedByName(each);
    var sorted := SortByName(each);
    assert |multiset(sorted)| == |sorted| && |multiset(each)| == |each|;
    assert IsMap(sorted) by { OrderIsMap(sorted); }
    forall i | 0 <= i < |sorted|
      ensures IsUtf8(sorted[i].0) && |sorted[i].0| <= U32_MAX && Writable(sorted[i].1) && Nests(sorted[i].1, levels - 1)
    {
      assert sorted[i] in multiset(sorted);
      assert sorted[i] in each;
      var k :| 0 <= k < |each| && each[k] == sorted[i];
      assert each[k] == (fields[k].0, Canonical(fields[k].1));
    }
  }

  lemma OrderIsMap(fields: seq<Entry>)
    requires ByName(fields)
    ensures IsMap(fields)
  {
    forall i, j | 0 <= i < j < |fields| ensures fields[i].0 != fields[j].0 {
      BytesAreTotal(fields[i].0, fields[i].0);
    }
  }

  /** What groups and columns compare: the form's encoding. */
  const ByCanonical: Document -> seq<byte> := d => Encode(Canonical(d))

  /** The encoding tells the forms apart. */
  lemma EncodedAlike(a: Document, b: Document, levels: nat)
    requires Writable(a) && Nests(a, levels) && Writable(b) && Nests(b, levels)
    ensures ByCanonical(a) == ByCanonical(b) <==> Canonical(a) == Canonical(b)
  {
    hide Writable, Nests, Canonical, Encode, Decode;
    FormIsWritable(a, levels);
    FormIsWritable(b, levels);
    RoundTrip(Canonical(a), [], levels);
    RoundTrip(Canonical(b), [], levels);
  }
}
