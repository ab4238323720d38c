/** The groups of an aggregate as matches come in (`src/aggregate.rs`), from their
    documents or from index entries that know numbers only by value. */
module Groups {
  import opened Values
  import opened WideInteger
  import opened ExactSums
  import opened Codec
  import opened Canonicals

  datatype Kind = Count | Sum | Avg | Min | Max | CountDistinct | First | Last

  /** Where a match comes in "first by id": a place in a total order. */
  type Order = int

  /** Where a document is, to read it again. */
  type Loc = nat

  /** A match: its group's values, and for each column its value, what orders
      `first` and `last`, and whether it meets the column's condition. */
  datatype Match = Match(
    order: Order, loc: Loc, group: seq<Document>, values: seq<Option<Document>>, by_: seq<Document>, takes: seq<bool>)

  /** A value as a filter's `=` sees it. `Odd` is the encoding of the canonical
      form of an array, an object or NaN. */
  datatype Norm = Number(exact: Exact) | Plain(doc: Document) | Odd(encoding: seq<byte>)

  type Canon = Document -> seq<byte>

  function NormOf(canon: Canon, d: Document): (n: Norm) {
    if IsUnordered(d) then Odd(canon(d)) else if IsNumber(d) then Number(ExactOf(d)) else Plain(d)
  }

  /** A group is what its values' norms are. */
  type Key = seq<Norm>

  function KeyOf(canon: Canon, group: seq<Document>): (key: Key) {
    seq(|group|, i requires 0 <= i < |group| => NormOf(canon, group[i]))
  }

  /** Of ordered values those are one group that the sort finds equal. */
  lemma NormIsOrder(canon: Canon, a: Document, b: Document)
    requires !IsUnordered(a) && !IsUnordered(b)
    ensures Sorting(a, b, Asc) == 0 <==> NormOf(canon, a) == NormOf(canon, b)
  {
    if SortRank(a) == SortRank(b) {
      match a
      case Str(x) => BytesAreTotal(x, b.text);
      case Id(x) => BytesAreTotal(x, b.id);
      case Binary(x) => BytesAreTotal(x, b.data);
      case _ =>
    }
  }

  /** A canonical form is the same for numbers of one value, NaN aside. */
  ghost predicate CanonOk(canon: Canon) {
    forall a, b :: IsNumber(a) && IsNumber(b) && ExactOf(a) == ExactOf(b) && !ExactOf(a).NaN? ==> canon(a) == canon(b)
  }

  /** The form used has that. */
  lemma CanonicalIsOk()
    ensures CanonOk(ByCanonical)
  {
    hide Encode, ExactOf, Canonical;
    forall a, b | IsNumber(a) && IsNumber(b) && ExactOf(a) == ExactOf(b) && !ExactOf(a).NaN?
      ensures ByCanonical(a) == ByCanonical(b)
    {
      FormOfNumber(a);
      FormOfNumber(b);
      NumbersHaveOneForm(a, b);
    }
  }

  lemma FormOfNumber(a: Document)
    requires IsNumber(a)
    ensures Canonical(a) == CanonicalNumber(a)
  {
    hide ExactOf;
  }

  /** Two values are one group if and only if a filter finds them equal; or if both
      have the same NaN in the same place, equal to nothing. */
  lemma GroupedAsEqual(a: Document, b: Document, levels: nat)
    requires Writable(a) && Nests(a, levels) && Writable(b) && Nests(b, levels) && Maps(a) && Maps(b)
    ensures NormOf(ByCanonical, a) == NormOf(ByCanonical, b)
       <==> EqualValues(a, b) || (HasNaN(a) && Canonical(a) == Canonical(b))
  {
    CanonicalMeans(a, b);
    EncodedAlike(a, b, levels);
    UnorderedForm(a, b);
    if !IsUnordered(a) && !IsUnordered(b) {
      NormIsOrder(ByCanonical, a, b);
      OrderedEqual(a, b);
    }
    hide Encode, ExactOf, Canonical, EqualValues, HasNaN, Sorting;
  }

  lemma OrderedEqual(a: Document, b: Document)
    requires !IsUnordered(a) && !IsUnordered(b)
    ensures Sorting(a, b, Asc) == 0 <==> EqualValues(a, b)
    ensures !HasNaN(a)
  {
    hide ExactOf, CompareSameKind;
  }

  /** Of values one of which alone is ordered the forms differ. */
  lemma UnorderedForm(a: Document, b: Document)
    ensures IsUnordered(a) != IsUnordered(b) ==> Canonical(a) != Canonical(b)
  {
    if IsNumber(a) { NumberKeepsValue(a); FormOfNumber(a); }
    if IsNumber(b) { NumberKeepsValue(b); FormOfNumber(b); }
    hide ExactOf;
  }

  // ------------------------------------------------------------- what rows are

  predicate InGroup(canon: Canon, m: Match, key: Key) {
    KeyOf(canon, m.group) == key
  }

  /** A match that gives a column a value to compare. */
  predicate Candidate(canon: Canon, m: Match, key: Key, c: nat) {
    && InGroup(canon, m, key) && c < |m.takes| && c < |m.values| && m.takes[c]
    && m.values[c].Some? && m.values[c].value != Null
  }

  predicate Taken(canon: Canon, m: Match, key: Key, c: nat) {
    InGroup(canon, m, key) && c < |m.takes| && m.takes[c]
  }

  /** `extreme_order`: ordered values by the sort's order, reversed for `max`, and
      before every value nothing orders, which are all equal. */
  function ExtremeOrder(a: Document, b: Document, kind: Kind): (r: int) {
    if !IsUnordered(a) && !IsUnordered(b) then
      if kind == Max then Sorting(b, a, Asc) else Sorting(a, b, Asc)
    else if IsUnordered(a) == IsUnordered(b) then 0
    else if IsUnordered(a) then 1 else -1
  }

  /** A value comes before another, the earlier match first of equal ones. */
  predicate Better(a: Document, i: Order, b: Document, j: Order, kind: Kind) {
    var ord := ExtremeOrder(a, b, kind);
    ord < 0 || (ord == 0 && i < j)
  }

  lemma SortingIsStrict(a: Document, b: Document, c: Document)
    requires Sorting(a, b, Asc) <= 0 && Sorting(b, c, Asc) <= 0
    ensures Sorting(a, c, Asc) <= 0
    ensures Sorting(a, c, Asc) == 0 ==> Sorting(a, b, Asc) == 0 && Sorting(b, c, Asc) == 0
  {
    SortingIsAntisymmetric(a, b, Asc);
    SortingIsAntisymmetric(b, c, Asc);
    SortingIsAntisymmetric(a, c, Asc);
    hide Sorting;
    SortingIsTransitive(a, b, c, Asc);
    if Sorting(a, c, Asc) == 0 {
      SortingIsTransitive(b, c, a, Asc);
      SortingIsTransitive(c, a, b, Asc);
    }
  }

  lemma ExtremeIsStrict(a: Document, b: Document, c: Document, kind: Kind)
    requires ExtremeOrder(a, b, kind) <= 0 && ExtremeOrder(b, c, kind) <= 0
    ensures ExtremeOrder(a, c, kind) <= 0
    ensures ExtremeOrder(a, c, kind) == 0 ==> ExtremeOrder(a, b, kind) == 0 && ExtremeOrder(b, c, kind) == 0
  {
    hide Sorting, IsUnordered;
    if !IsUnordered(c) {
      assert !IsUnordered(b) && !IsUnordered(a);
      if kind == Max { SortingIsStrict(c, b, a); } else { SortingIsStrict(a, b, c); }
    }
  }

  lemma BetterIsTransitive(a: Document, i: Order, b: Document, j: Order, c: Document, k: Order, kind: Kind)
    requires Better(a, i, b, j, kind) && Better(b, j, c, k, kind)
    ensures Better(a, i, c, k, kind)
  {
    hide ExtremeOrder;
    ExtremeIsStrict(a, b, c, kind);
  }

  lemma BetterIsTotal(a: Document, i: Order, b: Document, j: Order, kind: Kind)
    requires i != j
    ensures Better(a, i, b, j, kind) <==> !Better(b, j, a, i, kind)
  {
    SortingIsAntisymmetric(a, b, Asc);
    hide Sorting;
  }

  /** The best of the candidates: the extreme, of equal ones the earliest match. */
  ghost predicate IsBest(canon: Canon, ms: seq<Match>, key: Key, c: nat, kind: Kind, best: Match) {
    && best in ms && Candidate(canon, best, key, c)
    && forall m <- ms :: Candidate(canon, m, key, c) && m.order != best.order ==>
         Better(ValueOf(best, c), best.order, ValueOf(m, c), m.order, kind)
  }

  /** Where a document comes for `first` and `last`: by what orders it, then by its
      place. */
  predicate Precedes(a: Document, i: Order, b: Document, j: Order) {
    var ord := Sorting(a, b, Asc);
    ord < 0 || (ord == 0 && i < j)
  }

  predicate EdgeBeats(kind: Kind, a: Document, i: Order, b: Document, j: Order) {
    if kind == First then Precedes(a, i, b, j) else Precedes(b, j, a, i)
  }

  function ByOf(m: Match, c: nat): (d: Document) {
    if c < |m.by_| then m.by_[c] else Null
  }

  ghost predicate IsEdge(canon: Canon, ms: seq<Match>, key: Key, c: nat, kind: Kind, edge: Match) {
    && edge in ms && Taken(canon, edge, key, c)
    && forall m <- ms :: Taken(canon, m, key, c) && m.order != edge.order ==>
         EdgeBeats(kind, ByOf(edge, c), edge.order, ByOf(m, c), m.order)
  }

  /** The match a group's own values are from: its first. */
  ghost predicate IsFirst(canon: Canon, ms: seq<Match>, key: Key, first: Match) {
    && first in ms && InGroup(canon, first, key)
    && forall m <- ms :: InGroup(canon, m, key) ==> first.order <= m.order
  }

  function NumberOf(canon: Canon, m: Match, key: Key, c: nat): (number: Option<Document>) {
    if Candidate(canon, m, key, c) && IsNumber(m.values[c].value) then m.values[c] else None
  }

  /** What a column adds up: how many matches it takes, the numbers among their
      values, and what those are, exactly. */
  datatype Tally = Tally(count: nat, numbers: multiset<Document>, exacts: multiset<Exact>)

  function Plus(a: Tally, b: Tally): (sum: Tally) {
    Tally(a.count + b.count, a.numbers + b.numbers, a.exacts + b.exacts)
  }

  function TallyOne(canon: Canon, m: Match, key: Key, c: nat): (one: Tally) {
    var number := NumberOf(canon, m, key, c);
    Tally(if Taken(canon, m, key, c) then 1 else 0,
          if number.Some? then multiset{number.value} else multiset{},
          if number.Some? then multiset{ExactOf(number.value)} else multiset{})
  }

  function TallyOf(canon: Canon, ms: seq<Match>, key: Key, c: nat): (tally: Tally) {
    if ms == [] then Tally(0, multiset{}, multiset{})
    else
      var n := |ms| - 1;
      Plus(TallyOf(canon, ms[..n], key, c), TallyOne(canon, ms[n], key, c))
  }

  /** The different values of a column, by canonical form. */
  ghost function DistinctOf(canon: Canon, ms: seq<Match>, key: Key, c: nat): (values: set<seq<byte>>) {
    set m <- ms | Candidate(canon, m, key, c) :: canon(m.values[c].value)
  }

  /** A column of a row. A sum and a mean are given by the numbers they are of. */
  datatype Cell =
    | Whole(n: nat)
    | SumOfAll(numbers: multiset<Document>)
    | MeanOfAll(exacts: multiset<Exact>)
    | Value(doc: Document)

  ghost predicate CellIs(canon: Canon, ms: seq<Match>, key: Key, c: nat, kind: Kind, cell: Cell) {
    match kind
    case Count => cell == Whole(TallyOf(canon, ms, key, c).count)
    case Sum => cell == SumOfAll(TallyOf(canon, ms, key, c).numbers)
    case Avg => cell == MeanOfAll(TallyOf(canon, ms, key, c).exacts)
    case CountDistinct => cell == Whole(|DistinctOf(canon, ms, key, c)|)
    case Min => BestIs(canon, ms, key, c, kind, cell)
    case Max => BestIs(canon, ms, key, c, kind, cell)
    case First => EdgeIs(canon, ms, key, c, kind, cell)
    case Last => EdgeIs(canon, ms, key, c, kind, cell)
  }

  ghost predicate BestIs(canon: Canon, ms: seq<Match>, key: Key, c: nat, kind: Kind, cell: Cell) {
    if forall m <- ms :: !Candidate(canon, m, key, c) then cell == Value(Null)
    else exists m <- ms :: IsBest(canon, ms, key, c, kind, m) && cell == Value(ValueOf(m, c))
  }

  function ValueOf(m: Match, c: nat): (d: Document) {
    if c < |m.values| && m.values[c].Some? then m.values[c].value else Null
  }

  ghost predicate EdgeIs(canon: Canon, ms: seq<Match>, key: Key, c: nat, kind: Kind, cell: Cell) {
    if forall m <- ms :: !Taken(canon, m, key, c) then cell == Value(Null)
    else exists m <- ms :: IsEdge(canon, ms, key, c, kind, m) && cell == Value(ValueOf(m, c))
  }

  datatype Row = Row(group: seq<Document>, cells: seq<Cell>)

  /** The row of a group: the values of its first match, and each column. */
  ghost predicate IsRow(canon: Canon, ms: seq<Match>, kinds: seq<Kind>, key: Key, row: Row) {
    && (if key == [] then row.group == []
        else exists m <- ms :: IsFirst(canon, ms, key, m) && row.group == m.group)
    && |row.cells| == |kinds|
    && forall c :: 0 <= c < |kinds| ==> CellIs(canon, ms, key, c, kinds[c], row.cells[c])
  }

  /** A row for every group, and without a group field one at least. */
  ghost predicate AreRows(canon: Canon, ms: seq<Match>, kinds: seq<Kind>, grouped: bool, rows: map<Key, Row>) {
    && (forall key :: key in rows <==> (exists m <- ms :: InGroup(canon, m, key)) || (!grouped && key == []))
    && (forall key <- rows :: IsRow(canon, ms, kinds, key, rows[key]))
  }

  ghost predicate Apart(ms: seq<Match>) {
    forall i, j :: 0 <= i < j < |ms| ==> ms[i].order != ms[j].order
  }

  // -------------------------------------------------------- whatever the order

  lemma PlusSwaps(a: Tally, b: Tally, c: Tally)
    ensures Plus(Plus(a, b), c) == Plus(Plus(a, c), b)
  {
  }

  lemma {:induction false} TallyWithout(canon: Canon, ms: seq<Match>, key: Key, c: nat, i: nat)
    requires i < |ms|
    ensures TallyOf(canon, ms, key, c) == Plus(TallyOf(canon, ms[..i] + ms[i + 1..], key, c), TallyOne(canon, ms[i], key, c))
  {
    hide TallyOne, Plus;
    var n := |ms| - 1;
    var rest := ms[..i] + ms[i + 1..];
    if i == n {
      assert rest == ms[..n];
    } else {
      var front := ms[..n];
      TallyWithout(canon, front, key, c, i);
      assert rest[..n - 1] == front[..i] + front[i + 1..] && rest[n - 1] == ms[n];
      PlusSwaps(TallyOf(canon, rest[..n - 1], key, c), TallyOne(canon, ms[i], key, c), TallyOne(canon, ms[n], key, c));
    }
  }

  lemma {:induction false} TallyPermuted(canon: Canon, a: seq<Match>, b: seq<Match>, key: Key, c: nat)
    requires multiset(a) == multiset(b)
    ensures TallyOf(canon, a, key, c) == TallyOf(canon, b, key, c)
    decreases |a|
  {
    hide TallyOne, Plus;
    if a == [] {
      assert |multiset(b)| == 0;
    } else {
      var n := |a| - 1;
      assert a[n] in multiset(b);
      var i :| 0 <= i < |b| && b[i] == a[n];
      TakenFrom(a, n);
      TakenFrom(b, i);
      TallyWithout(canon, a, key, c, n);
      TallyWithout(canon, b, key, c, i);
      hide TallyOf;
      TallyPermuted(canon, a[..n] + a[n + 1..], b[..i] + b[i + 1..], key, c);
    }
  }

  ghost predicate SameMatches(a: seq<Match>, b: seq<Match>) {
    (forall m :: m in a <==> m in b) && Unmixed(a)
  }

  /** Matches of one place are one match. */
  ghost predicate Unmixed(ms: seq<Match>) {
    forall m <- ms, n <- ms :: m.order == n.order ==> m == n
  }

  lemma ApartUnmixed(a: seq<Match>, b: seq<Match>)
    requires Apart(a) && multiset(a) == multiset(b)
    ensures SameMatches(a, b)
  {
    forall m ensures m in a <==> m in b {
      assert m in a <==> m in multiset(a);
      assert m in b <==> m in multiset(b);
    }
    forall m, n | m in a && n in a && m.order == n.order ensures m == n {
      var i :| 0 <= i < |a| && a[i] == m;
      var j :| 0 <= j < |a| && a[j] == n;
    }
  }

  lemma BestIsUnique(canon: Canon, a: seq<Match>, b: seq<Match>, key: Key, c: nat, kind: Kind, x: Cell, y: Cell)
    requires SameMatches(a, b) && BestIs(canon, a, key, c, kind, x) && BestIs(canon, b, key, c, kind, y)
    ensures x == y
  {
    hide Candidate, Better;
    if !forall m <- a :: !Candidate(canon, m, key, c) {
      var m :| m in a && IsBest(canon, a, key, c, kind, m) && x == Value(ValueOf(m, c));
      var n :| n in b && IsBest(canon, b, key, c, kind, n) && y == Value(ValueOf(n, c));
      assert n in a && m in b;
      BestsAgree(canon, a, b, key, c, kind, m, n);
    }
  }

  lemma BestsAgree(canon: Canon, a: seq<Match>, b: seq<Match>, key: Key, c: nat, kind: Kind, m: Match, n: Match)
    requires Unmixed(a) && m in a && n in a && m in b && n in b
    requires IsBest(canon, a, key, c, kind, m) && IsBest(canon, b, key, c, kind, n)
    ensures m == n
  {
    hide Better;
    if m.order != n.order {
      BetterIsTotal(ValueOf(m, c), m.order, ValueOf(n, c), n.order, kind);
    }
  }

  lemma PrecedesIsTotal(a: Document, i: Order, b: Document, j: Order)
    requires i != j
    ensures Precedes(a, i, b, j) <==> !Precedes(b, j, a, i)
  {
    SortingIsAntisymmetric(a, b, Asc);
    hide Sorting;
  }

  lemma EdgeIsUnique(canon: Canon, a: seq<Match>, b: seq<Match>, key: Key, c: nat, kind: Kind, x: Cell, y: Cell)
    requires SameMatches(a, b) && EdgeIs(canon, a, key, c, kind, x) && EdgeIs(canon, b, key, c, kind, y)
    ensures x == y
  {
    hide Taken, EdgeBeats;
    if !forall m <- a :: !Taken(canon, m, key, c) {
      var m :| m in a && IsEdge(canon, a, key, c, kind, m) && x == Value(ValueOf(m, c));
      var n :| n in b && IsEdge(canon, b, key, c, kind, n) && y == Value(ValueOf(n, c));
      assert n in a && m in b;
      EdgesAgree(canon, a, b, key, c, kind, m, n);
    }
  }

  lemma EdgesAgree(canon: Canon, a: seq<Match>, b: seq<Match>, key: Key, c: nat, kind: Kind, m: Match, n: Match)
    requires Unmixed(a) && m in a && n in a && m in b && n in b
    requires IsEdge(canon, a, key, c, kind, m) && IsEdge(canon, b, key, c, kind, n)
    ensures m == n
  {
    hide Precedes;
    if m.order != n.order {
      PrecedesIsTotal(ByOf(m, c), m.order, ByOf(n, c), n.order);
    }
  }

  lemma CellIsUnique(canon: Canon, a: seq<Match>, b: seq<Match>, key: Key, c: nat, kind: Kind, x: Cell, y: Cell)
    requires SameMatches(a, b) && multiset(a) == multiset(b)
    requires CellIs(canon, a, key, c, kind, x) && CellIs(canon, b, key, c, kind, y)
    ensures x == y
  {
    hide Candidate, TallyOf, BestIs, EdgeIs;
    match kind
    case Min => BestIsUnique(canon, a, b, key, c, kind, x, y);
    case Max => BestIsUnique(canon, a, b, key, c, kind, x, y);
    case First => EdgeIsUnique(canon, a, b, key, c, kind, x, y);
    case Last => EdgeIsUnique(canon, a, b, key, c, kind, x, y);
    case CountDistinct => assert DistinctOf(canon, a, key, c) == DistinctOf(canon, b, key, c);
    case _ => TallyPermuted(canon, a, b, key, c);
  }

  /** The rows are the same whatever order the matches came in. */
  lemma RowsIgnoreOrder(
    canon: Canon, a: seq<Match>, b: seq<Match>, kinds: seq<Kind>, grouped: bool, x: map<Key, Row>, y: map<Key, Row>)
    requires Apart(a) && multiset(a) == multiset(b)
    requires AreRows(canon, a, kinds, grouped, x) && AreRows(canon, b, kinds, grouped, y)
    ensures x == y
  {
    ApartUnmixed(a, b);
    SameKeys(canon, a, b, kinds, grouped, x, y);
    forall key | key in x ensures x[key] == y[key] {
      RowIsUnique(canon, a, b, kinds, key, x[key], y[key]);
    }
  }

  lemma SameKeys(
    canon: Canon, a: seq<Match>, b: seq<Match>, kinds: seq<Kind>, grouped: bool, x: map<Key, Row>, y: map<Key, Row>)
    requires SameMatches(a, b)
    requires AreRows(canon, a, kinds, grouped, x) && AreRows(canon, b, kinds, grouped, y)
    ensures x.Keys == y.Keys
  {
    hide InGroup, IsRow;
  }

  lemma RowIsUnique(canon: Canon, a: seq<Match>, b: seq<Match>, kinds: seq<Kind>, key: Key, x: Row, y: Row)
    requires SameMatches(a, b) && multiset(a) == multiset(b)
    requires IsRow(canon, a, kinds, key, x) && IsRow(canon, b, kinds, key, y)
    ensures x == y
  {
    hide CellIs, InGroup;
    if key != [] {
      var m :| m in a && IsFirst(canon, a, key, m) && x.group == m.group;
      var n :| n in b && IsFirst(canon, b, key, n) && y.group == n.group;
      assert n in a && m in b;
    }
    forall c | 0 <= c < |kinds| ensures x.cells[c] == y.cells[c] {
      CellIsUnique(canon, a, b, key, c, kinds[c], x.cells[c], y.cells[c]);
    }
  }

  // ------------------------------------------------------------------ what is kept

  /** A value as a match gave it: `stored` if it is as the document has it, else a
      number known by its value only; and where the document is. */
  datatype Seen = Seen(value: Document, order: Order, stored: bool, at: Option<Loc>)

  datatype Edge = Edge(by_: Document, order: Order, value: Option<Document>)

  datatype State =
    | Counted(n: nat)
    | Summed(numbers: multiset<Document>)
    | Averaged(exacts: multiset<Exact>)
    | BestSeen(seen: Option<Seen>)
    | Differing(values: set<seq<byte>>)
    | EdgeSeen(edge: Option<Edge>)

  datatype Group = Group(first: seq<Seen>, columns: seq<State>)

  predicate IsFaithful(value: Document, stored: bool, doc: Document) {
    if stored then value == doc else IsNumber(value) && IsNumber(doc) && ExactOf(value) == ExactOf(doc) && !ExactOf(doc).NaN?
  }

  predicate SeenFor(seen: Seen, m: Match, doc: Document) {
    seen.order == m.order && IsFaithful(seen.value, seen.stored, doc) && (!seen.stored ==> seen.at == Some(m.loc))
  }

  /** A column's value as an entry or a document gave it. Of a missing field the
      entry may say null. */
  predicate GivenFor(given: Option<(Document, bool)>, value: Option<Document>) {
    var none := value.None? || value.value == Null;
    if none then given.None? || given.value.0 == Null
    else given.Some? && given.value.0 != Null && IsFaithful(given.value.0, given.value.1, value.value)
  }

  /** Order and canonical form see a number by its value only. */
  lemma FaithfulIsSame(canon: Canon, value: Document, stored: bool, doc: Document, other: Document, kind: Kind)
    requires IsFaithful(value, stored, doc) && CanonOk(canon)
    ensures ExtremeOrder(value, other, kind) == ExtremeOrder(doc, other, kind)
    ensures ExtremeOrder(other, value, kind) == ExtremeOrder(other, doc, kind)
    ensures canon(value) == canon(doc) && IsNumber(value) == IsNumber(doc)
    ensures IsNumber(doc) ==> ExactOf(value) == ExactOf(doc)
    ensures NormOf(canon, value) == NormOf(canon, doc)
  {
    hide ExactOf, Sorting;
    if !stored {
      NumbersSortAlike(value, doc, other);
    }
  }

  lemma NumbersSortAlike(a: Document, b: Document, other: Document)
    requires IsNumber(a) && IsNumber(b) && ExactOf(a) == ExactOf(b) && !ExactOf(b).NaN?
    ensures !IsUnordered(a) && !IsUnordered(b)
    ensures Sorting(a, other, Asc) == Sorting(b, other, Asc)
    ensures Sorting(other, a, Asc) == Sorting(other, b, Asc)
  {
    hide ExactOf, CompareBytes;
  }

  ghost predicate BestKept(canon: Canon, ms: seq<Match>, key: Key, c: nat, kind: Kind, seen: Option<Seen>) {
    if seen.None? then forall m <- ms :: !Candidate(canon, m, key, c)
    else exists m <- ms :: IsBest(canon, ms, key, c, kind, m) && SeenFor(seen.value, m, ValueOf(m, c))
  }

  function EdgeOf(m: Match, c: nat): (edge: Edge) {
    Edge(ByOf(m, c), m.order, if c < |m.values| then m.values[c] else None)
  }

  ghost predicate EdgeKept(canon: Canon, ms: seq<Match>, key: Key, c: nat, kind: Kind, edge: Option<Edge>) {
    if edge.None? then forall m <- ms :: !Taken(canon, m, key, c)
    else exists m <- ms :: IsEdge(canon, ms, key, c, kind, m) && edge.value == EdgeOf(m, c)
  }

  /** A column's state is that of the matches of its group so far. */
  ghost predicate StateIs(canon: Canon, ms: seq<Match>, key: Key, c: nat, kind: Kind, state: State) {
    match kind
    case Count => state == Counted(TallyOf(canon, ms, key, c).count)
    case Sum => state == Summed(TallyOf(canon, ms, key, c).numbers)
    case Avg => state == Averaged(TallyOf(canon, ms, key, c).exacts)
    case CountDistinct => state == Differing(DistinctOf(canon, ms, key, c))
    case Min => state.BestSeen? && BestKept(canon, ms, key, c, kind, state.seen)
    case Max => state.BestSeen? && BestKept(canon, ms, key, c, kind, state.seen)
    case First => state.EdgeSeen? && EdgeKept(canon, ms, key, c, kind, state.edge)
    case Last => state.EdgeSeen? && EdgeKept(canon, ms, key, c, kind, state.edge)
  }

  function Initial(kind: Kind): (state: State) {
    match kind
    case Count => Counted(0)
    case Sum => Summed(multiset{})
    case Avg => Averaged(multiset{})
    case CountDistinct => Differing({})
    case Min => BestSeen(None)
    case Max => BestSeen(None)
    case First => EdgeSeen(None)
    case Last => EdgeSeen(None)
  }

  /** `update`: one match's value into a column. */
  function Update(canon: Canon, state: State, kind: Kind, seen: Option<Seen>): (after: State) {
    match state
    case Counted(n) => Counted(n + 1)
    case Summed(numbers) =>
      if seen.Some? && IsNumber(seen.value.value) then Summed(numbers + multiset{seen.value.value}) else state
    case Averaged(exacts) =>
      if seen.Some? && IsNumber(seen.value.value) then Averaged(exacts + multiset{ExactOf(seen.value.value)}) else state
    case Differing(values) =>
      if seen.Some? && seen.value.value != Null then Differing(values + {canon(seen.value.value)}) else state
    case EdgeSeen(_) => state
    case BestSeen(best) =>
      if seen.None? || seen.value.value == Null then state
      else if best.None? || Better(seen.value.value, seen.value.order, best.value.value, best.value.order, kind)
      then BestSeen(seen) else state
  }

  /** One more match in the group: what the column adds up and tells apart. */
  lemma TallyMore(canon: Canon, ms: seq<Match>, m: Match, key: Key, c: nat)
    ensures TallyOf(canon, ms + [m], key, c) == Plus(TallyOf(canon, ms, key, c), TallyOne(canon, m, key, c))
  {
    assert (ms + [m])[..|ms|] == ms;
  }

  lemma DistinctMore(canon: Canon, ms: seq<Match>, m: Match, key: Key, c: nat)
    ensures DistinctOf(canon, ms + [m], key, c)
         == DistinctOf(canon, ms, key, c) + if Candidate(canon, m, key, c) then {canon(m.values[c].value)} else {}
  {
    hide Candidate;
    var more := DistinctOf(canon, ms + [m], key, c);
    if Candidate(canon, m, key, c) {
      assert m in ms + [m];
    }
  }

  ghost predicate NewOrder(ms: seq<Match>, m: Match) {
    forall x <- ms :: x.order != m.order
  }

  /** A value seen compares as the document's own. */
  lemma BetterAsSeen(canon: Canon, s: Seen, m: Match, t: Seen, x: Match, c: nat, kind: Kind)
    requires SeenFor(s, m, ValueOf(m, c)) && SeenFor(t, x, ValueOf(x, c)) && CanonOk(canon)
    ensures Better(s.value, s.order, t.value, t.order, kind)
       <==> Better(ValueOf(m, c), m.order, ValueOf(x, c), x.order, kind)
  {
    FaithfulIsSame(canon, s.value, s.stored, ValueOf(m, c), t.value, kind);
    FaithfulIsSame(canon, t.value, t.stored, ValueOf(x, c), ValueOf(m, c), kind);
    hide ExtremeOrder, IsFaithful;
  }

  lemma BestGoes(canon: Canon, ms: seq<Match>, m: Match, key: Key, c: nat, kind: Kind, x: Match)
    requires NewOrder(ms, m) && Unmixed(ms) && Candidate(canon, m, key, c) && IsBest(canon, ms, key, c, kind, x)
    requires Better(ValueOf(m, c), m.order, ValueOf(x, c), x.order, kind)
    ensures IsBest(canon, ms + [m], key, c, kind, m)
  {
    hide Better, Candidate;
    forall y | y in ms + [m] && Candidate(canon, y, key, c) && y.order != m.order
      ensures Better(ValueOf(m, c), m.order, ValueOf(y, c), y.order, kind)
    {
      if y.order != x.order {
        BetterIsTransitive(ValueOf(m, c), m.order, ValueOf(x, c), x.order, ValueOf(y, c), y.order, kind);
      } else {
        SameOrderSame(canon, ms, key, c, kind, x, y, m);
      }
    }
  }

  lemma SameOrderSame(canon: Canon, ms: seq<Match>, key: Key, c: nat, kind: Kind, x: Match, y: Match, m: Match)
    requires IsBest(canon, ms, key, c, kind, x) && y.order == x.order && y in ms + [m] && y.order != m.order
    requires Unmixed(ms)
    ensures y == x
  {
  }

  lemma BestStays(canon: Canon, ms: seq<Match>, m: Match, key: Key, c: nat, kind: Kind, x: Match)
    requires IsBest(canon, ms, key, c, kind, x)
    requires Candidate(canon, m, key, c) ==> Better(ValueOf(x, c), x.order, ValueOf(m, c), m.order, kind)
    ensures IsBest(canon, ms + [m], key, c, kind, x)
  {
    hide Better, Candidate;
  }

  lemma BestMore(
    canon: Canon, ms: seq<Match>, m: Match, key: Key, c: nat, kind: Kind, best: Option<Seen>, seen: Option<Seen>)
    requires NewOrder(ms, m) && Unmixed(ms) && CanonOk(canon) && BestKept(canon, ms, key, c, kind, best)
    requires Candidate(canon, m, key, c) <==> seen.Some? && seen.value.value != Null
    requires Candidate(canon, m, key, c) ==> SeenFor(seen.value, m, ValueOf(m, c))
    ensures var after := Update(canon, BestSeen(best), kind, seen);
            after.BestSeen? && BestKept(canon, ms + [m], key, c, kind, after.seen)
  {
    hide Candidate, Better, SeenFor, IsBest;
    if best.None? {
      if Candidate(canon, m, key, c) {
        OnlyBest(canon, ms, m, key, c, kind);
        assert m in ms + [m];
      }
    } else {
      var x :| x in ms && IsBest(canon, ms, key, c, kind, x) && SeenFor(best.value, x, ValueOf(x, c));
      assert x in ms + [m];
      if Candidate(canon, m, key, c) {
        BetterAsSeen(canon, seen.value, m, best.value, x, c, kind);
        BetterIsTotal(ValueOf(m, c), m.order, ValueOf(x, c), x.order, kind);
        if Better(ValueOf(m, c), m.order, ValueOf(x, c), x.order, kind) {
          BestGoes(canon, ms, m, key, c, kind, x);
          assert m in ms + [m];
        } else {
          BestStays(canon, ms, m, key, c, kind, x);
        }
      } else {
        BestStays(canon, ms, m, key, c, kind, x);
      }
    }
  }

  lemma OnlyBest(canon: Canon, ms: seq<Match>, m: Match, key: Key, c: nat, kind: Kind)
    requires Candidate(canon, m, key, c) && forall x <- ms :: !Candidate(canon, x, key, c)
    ensures IsBest(canon, ms + [m], key, c, kind, m)
  {
    hide Candidate, Better;
  }

  // ----------------------------------------------------------------- first and last

  /** `add_edges`, for one column: kept where it comes before the one held, or
      after it. */
  function EdgeUpdate(held: Option<Edge>, kind: Kind, edge: Edge): (after: Option<Edge>) {
    if held.None? || EdgeBeats(kind, edge.by_, edge.order, held.value.by_, held.value.order) then Some(edge) else held
  }

  lemma EdgeBeatsIsTransitive(kind: Kind, a: Document, i: Order, b: Document, j: Order, c: Document, k: Order)
    requires EdgeBeats(kind, a, i, b, j) && EdgeBeats(kind, b, j, c, k)
    ensures EdgeBeats(kind, a, i, c, k)
  {
    hide Sorting;
    if kind == First { SortingIsStrict(a, b, c); } else { SortingIsStrict(c, b, a); }
  }

  lemma EdgeMore(canon: Canon, ms: seq<Match>, m: Match, key: Key, c: nat, kind: Kind, held: Option<Edge>)
    requires NewOrder(ms, m) && Unmixed(ms) && EdgeKept(canon, ms, key, c, kind, held)
    ensures EdgeKept(canon, ms + [m], key, c, kind,
                     if Taken(canon, m, key, c) then EdgeUpdate(held, kind, EdgeOf(m, c)) else held)
  {
    hide Taken, EdgeBeats;
    assert m in ms + [m];
    if held.None? {
      if Taken(canon, m, key, c) { assert IsEdge(canon, ms + [m], key, c, kind, m); }
    } else {
      var x :| x in ms && IsEdge(canon, ms, key, c, kind, x) && held.value == EdgeOf(x, c);
      assert x in ms + [m];
      EdgeCompared(ByOf(m, c), m.order, ByOf(x, c), x.order, kind);
      if Taken(canon, m, key, c) && EdgeBeats(kind, ByOf(m, c), m.order, ByOf(x, c), x.order) {
        EdgeGoes(canon, ms, m, key, c, kind, x);
      } else {
        assert IsEdge(canon, ms + [m], key, c, kind, x);
      }
    }
  }

  lemma EdgeCompared(a: Document, i: Order, b: Document, j: Order, kind: Kind)
    requires i != j
    ensures EdgeBeats(kind, a, i, b, j) <==> !EdgeBeats(kind, b, j, a, i)
  {
    PrecedesIsTotal(a, i, b, j);
    hide Precedes;
  }

  lemma EdgeGoes(canon: Canon, ms: seq<Match>, m: Match, key: Key, c: nat, kind: Kind, x: Match)
    requires NewOrder(ms, m) && Unmixed(ms) && Taken(canon, m, key, c) && IsEdge(canon, ms, key, c, kind, x)
    requires EdgeBeats(kind, ByOf(m, c), m.order, ByOf(x, c), x.order)
    ensures IsEdge(canon, ms + [m], key, c, kind, m)
  {
    hide EdgeBeats, Taken;
    forall y | y in ms + [m] && Taken(canon, y, key, c) && y.order != m.order
      ensures EdgeBeats(kind, ByOf(m, c), m.order, ByOf(y, c), y.order)
    {
      if y.order != x.order {
        EdgeBeatsIsTransitive(kind, ByOf(m, c), m.order, ByOf(x, c), x.order, ByOf(y, c), y.order);
      } else {
        assert y == x;
      }
    }
  }

  // -------------------------------------------------------------------- a column

  function SeenOf(given: Option<(Document, bool)>, order: Order, at: Option<Loc>): (seen: Option<Seen>) {
    if given.None? then None else Some(Seen(given.value.0, order, given.value.1, at))
  }

  /** What an entry may be asked for: nothing that needs the documents themselves. */
  predicate FromEntry(kind: Kind) {
    kind != Sum && kind != First && kind != Last
  }

  lemma ColumnMore(
    canon: Canon, ms: seq<Match>, m: Match, key: Key, c: nat, kind: Kind, state: State,
    given: Option<(Document, bool)>, at: Option<Loc>)
    requires StateIs(canon, ms, key, c, kind, state) && NewOrder(ms, m) && Unmixed(ms) && CanonOk(canon)
    requires InGroup(canon, m, key) && c < |m.values| == |m.takes| && m.takes[c]
    requires GivenFor(given, m.values[c]) && kind != First && kind != Last
    requires given.Some? && (kind == Sum || at != Some(m.loc)) ==> given.value.1
    ensures StateIs(canon, ms + [m], key, c, kind, Update(canon, state, kind, SeenOf(given, m.order, at)))
  {
    hide TallyOf, TallyOne, Better, DistinctOf, InGroup, ExactOf, BestKept, CanonOk, Candidate, GivenFor, SeenFor;
    TallyMore(canon, ms, m, key, c);
    DistinctMore(canon, ms, m, key, c);
    GivenAdds(canon, m, key, c, given, at, kind);
    var seen := SeenOf(given, m.order, at);
    match kind
    case Min => BestMore(canon, ms, m, key, c, kind, state.seen, seen);
    case Max => BestMore(canon, ms, m, key, c, kind, state.seen, seen);
    case _ =>
  }

  /** What a value given adds to a column is what the document's own would. */
  lemma GivenAdds(canon: Canon, m: Match, key: Key, c: nat, given: Option<(Document, bool)>, at: Option<Loc>, kind: Kind)
    requires CanonOk(canon) && InGroup(canon, m, key) && c < |m.values| == |m.takes| && m.takes[c]
    requires GivenFor(given, m.values[c])
    requires given.Some? && (kind == Sum || at != Some(m.loc)) ==> given.value.1
    ensures var seen := SeenOf(given, m.order, at);
            var one := TallyOne(canon, m, key, c);
            && (Candidate(canon, m, key, c) <==> seen.Some? && seen.value.value != Null)
            && (Candidate(canon, m, key, c) ==>
                  && SeenFor(seen.value, m, ValueOf(m, c))
                  && canon(seen.value.value) == canon(m.values[c].value))
            && one.count == 1
            && one.exacts == (if seen.Some? && IsNumber(seen.value.value) then multiset{ExactOf(seen.value.value)} else multiset{})
            && (kind == Sum ==>
                  one.numbers == if seen.Some? && IsNumber(seen.value.value) then multiset{seen.value.value} else multiset{})
  {
    hide ExactOf, InGroup;
    if Candidate(canon, m, key, c) {
      FaithfulIsSame(canon, given.value.0, given.value.1, m.values[c].value, Null, kind);
    }
    hide CanonOk;
  }

  lemma ColumnOther(canon: Canon, ms: seq<Match>, m: Match, key: Key, c: nat, kind: Kind, state: State)
    requires StateIs(canon, ms, key, c, kind, state)
    requires NewOrder(ms, m) && Unmixed(ms) && !Taken(canon, m, key, c)
    ensures StateIs(canon, ms + [m], key, c, kind, state)
  {
    hide TallyOf, DistinctOf, Taken, Candidate, BestKept, EdgeKept, Unmixed, NewOrder, TallyOne, Plus;
    NothingMore(canon, ms, m, key, c);
    NotCandidate(canon, m, key, c);
    match kind
    case Min => BestOther(canon, ms, m, key, c, kind, state.seen);
    case Max => BestOther(canon, ms, m, key, c, kind, state.seen);
    case First => EdgeMore(canon, ms, m, key, c, kind, state.edge);
    case Last => EdgeMore(canon, ms, m, key, c, kind, state.edge);
    case _ =>
  }

  lemma NothingMore(canon: Canon, ms: seq<Match>, m: Match, key: Key, c: nat)
    requires !Taken(canon, m, key, c)
    ensures TallyOf(canon, ms + [m], key, c) == TallyOf(canon, ms, key, c)
    ensures DistinctOf(canon, ms + [m], key, c) == DistinctOf(canon, ms, key, c)
  {
    hide TallyOf, DistinctOf, Taken, Candidate, TallyOne;
    TallyMore(canon, ms, m, key, c);
    DistinctMore(canon, ms, m, key, c);
    NotCandidate(canon, m, key, c);
  }

  lemma NotCandidate(canon: Canon, m: Match, key: Key, c: nat)
    requires !Taken(canon, m, key, c)
    ensures !Candidate(canon, m, key, c) && TallyOne(canon, m, key, c) == Tally(0, multiset{}, multiset{})
  {
    hide InGroup;
  }

  lemma BestOther(canon: Canon, ms: seq<Match>, m: Match, key: Key, c: nat, kind: Kind, seen: Option<Seen>)
    requires BestKept(canon, ms, key, c, kind, seen) && !Candidate(canon, m, key, c)
    ensures BestKept(canon, ms + [m], key, c, kind, seen)
  {
    hide Candidate, IsBest, SeenFor;
    if seen.Some? {
      var x :| x in ms && IsBest(canon, ms, key, c, kind, x) && SeenFor(seen.value, x, ValueOf(x, c));
      assert x in ms + [m];
      BestStays(canon, ms, m, key, c, kind, x);
    }
  }

  lemma {:induction false} ColumnNew(canon: Canon, ms: seq<Match>, key: Key, c: nat, kind: Kind)
    requires forall m <- ms :: !InGroup(canon, m, key)
    ensures StateIs(canon, ms, key, c, kind, Initial(kind))
  {
    hide InGroup;
    TallyNone(canon, ms, key, c);
    hide TallyOf;
    assert forall m <- ms :: !Candidate(canon, m, key, c);
    hide Candidate;
    assert DistinctOf(canon, ms, key, c) == {};
  }

  lemma {:induction false} TallyNone(canon: Canon, ms: seq<Match>, key: Key, c: nat)
    requires forall m <- ms :: !InGroup(canon, m, key)
    ensures TallyOf(canon, ms, key, c) == Tally(0, multiset{}, multiset{})
  {
    hide InGroup;
    if ms != [] {
      var n := |ms| - 1;
      assert forall m <- ms[..n] :: m in ms;
      TallyNone(canon, ms[..n], key, c);
      assert ms[n] in ms;
    }
  }

  /** The group's own values are those of its first match. */
  ghost predicate FirstKept(canon: Canon, ms: seq<Match>, key: Key, first: seq<Seen>) {
    if key == [] then first == []
    else exists m <- ms :: IsFirst(canon, ms, key, m) && FirstFor(first, m)
  }

  predicate FirstFor(first: seq<Seen>, m: Match) {
    |first| == |m.group| && forall i :: 0 <= i < |first| ==> SeenFor(first[i], m, m.group[i])
  }

  ghost predicate GroupIs(canon: Canon, ms: seq<Match>, kinds: seq<Kind>, key: Key, g: Group) {
    && FirstKept(canon, ms, key, g.first) && |g.columns| == |kinds|
    && forall c :: 0 <= c < |kinds| ==> StateIs(canon, ms, key, c, kinds[c], g.columns[c])
  }

  lemma FirstMore(canon: Canon, ms: seq<Match>, m: Match, key: Key, held: seq<Seen>, first: seq<Seen>)
    requires FirstKept(canon, ms, key, held) && InGroup(canon, m, key) && FirstFor(first, m) && NewOrder(ms, m)
    ensures FirstKept(canon, ms + [m], key,
                      if held == [] || (first != [] && !(held[0].order <= first[0].order)) then first else held)
  {
    hide SeenFor, InGroup;
    assert m in ms + [m];
    if key != [] {
      var x :| x in ms && IsFirst(canon, ms, key, x) && FirstFor(held, x);
      assert x in ms + [m];
      KeyLengths(canon, x, key);
      KeyLengths(canon, m, key);
      SeenOrder(held[0], x, x.group[0]);
      SeenOrder(first[0], m, m.group[0]);
    } else {
      KeyLengths(canon, m, key);
    }
  }

  lemma KeyLengths(canon: Canon, m: Match, key: Key)
    requires InGroup(canon, m, key)
    ensures |m.group| == |key|
  {
  }

  lemma SeenOrder(seen: Seen, m: Match, doc: Document)
    requires SeenFor(seen, m, doc)
    ensures seen.order == m.order
  {
  }

  lemma FirstOther(canon: Canon, ms: seq<Match>, m: Match, key: Key, held: seq<Seen>)
    requires FirstKept(canon, ms, key, held) && !InGroup(canon, m, key)
    ensures FirstKept(canon, ms + [m], key, held)
  {
    hide InGroup, FirstFor;
    if key != [] {
      var x :| x in ms && IsFirst(canon, ms, key, x) && FirstFor(held, x);
      assert x in ms + [m];
    }
  }

  // --------------------------------------------------------------- one more match

  function ValuesOf(first: seq<Seen>): (group: seq<Document>) {
    seq(|first|, i requires 0 <= i < |first| => first[i].value)
  }

  lemma SeenKey(canon: Canon, first: seq<Seen>, m: Match)
    requires FirstFor(first, m) && CanonOk(canon)
    ensures KeyOf(canon, ValuesOf(first)) == KeyOf(canon, m.group)
  {
    hide NormOf;
    forall i | 0 <= i < |first| ensures NormOf(canon, first[i].value) == NormOf(canon, m.group[i]) {
      FaithfulIsSame(canon, first[i].value, first[i].stored, m.group[i], Null, Min);
    }
  }

  /** A group whose values are all there are compared by the sort. */
  predicate AllOrdered(group: seq<Document>) {
    forall i :: 0 <= i < |group| ==> !IsUnordered(group[i])
  }

  /** `add_entry_to_last`: an earlier match's values in place of those held, equal
      to them, and the same but for a number. */
  function TakeOver(first: seq<Seen>, order: Order, at: Loc): (after: seq<Seen>) {
    seq(|first|, i requires 0 <= i < |first| =>
      Seen(first[i].value, order, first[i].stored && !IsNumber(first[i].value), Some(at)))
  }

  lemma TakenOver(canon: Canon, first: seq<Seen>, x: Match, m: Match)
    requires FirstFor(first, x) && KeyOf(canon, x.group) == KeyOf(canon, m.group)
    requires AllOrdered(m.group)
    ensures FirstFor(TakeOver(first, m.order, m.loc), m)
  {
    assert |x.group| == |KeyOf(canon, x.group)| == |m.group|;
    forall i | 0 <= i < |first| ensures SeenFor(TakeOver(first, m.order, m.loc)[i], m, m.group[i]) {
      assert KeyOf(canon, x.group)[i] == KeyOf(canon, m.group)[i];
      assert SeenFor(first[i], x, x.group[i]);
      SameNorm(canon, first[i], x.group[i], m.group[i]);
    }
  }

  lemma SameNorm(canon: Canon, seen: Seen, x: Document, m: Document)
    requires IsFaithful(seen.value, seen.stored, x) && NormOf(canon, x) == NormOf(canon, m) && !IsUnordered(m)
    ensures IsFaithful(seen.value, seen.stored && !IsNumber(seen.value), m)
  {
    hide ExactOf;
    if IsNumber(m) { OrderedIsNotNaN(m); }
  }

  lemma OrderedIsNotNaN(d: Document)
    requires IsNumber(d) && !IsUnordered(d)
    ensures !ExactOf(d).NaN?
  {
  }

  lemma GroupOther(canon: Canon, ms: seq<Match>, m: Match, kinds: seq<Kind>, key: Key, g: Group)
    requires GroupIs(canon, ms, kinds, key, g) && Unmixed(ms) && NewOrder(ms, m) && !InGroup(canon, m, key)
    ensures GroupIs(canon, ms + [m], kinds, key, g)
  {
    hide StateIs, FirstKept, InGroup, NewOrder, Unmixed;
    FirstOther(canon, ms, m, key, g.first);
    forall c | 0 <= c < |kinds| ensures StateIs(canon, ms + [m], key, c, kinds[c], g.columns[c]) {
      ColumnOther(canon, ms, m, key, c, kinds[c], g.columns[c]);
    }
  }

  /** A group no match is in yet. */
  function NewGroup(kinds: seq<Kind>): (g: Group) {
    Group([], seq(|kinds|, c requires 0 <= c < |kinds| => Initial(kinds[c])))
  }

  lemma UnmixedMore(ms: seq<Match>, m: Match)
    requires Unmixed(ms) && NewOrder(ms, m)
    ensures Unmixed(ms + [m])
  {
  }

  /** What a column has after a match it takes, `edges` if from its document. */
  function ColumnAfter(
    canon: Canon, state: State, kind: Kind, given: Option<(Document, bool)>, take: bool, order: Order, at: Option<Loc>,
    edge: Option<Edge>)
    : (after: State)
  {
    if !take then state
    else if state.EdgeSeen? && edge.Some? then EdgeSeen(EdgeUpdate(state.edge, kind, edge.value))
    else Update(canon, state, kind, SeenOf(given, order, at))
  }

  lemma ColumnGoesOn(
    canon: Canon, ms: seq<Match>, m: Match, key: Key, c: nat, kind: Kind, state: State,
    given: Option<(Document, bool)>, at: Option<Loc>, edge: Option<Edge>)
    requires StateIs(canon, ms, key, c, kind, state) && NewOrder(ms, m) && Unmixed(ms) && CanonOk(canon)
    requires InGroup(canon, m, key) && c < |m.values| == |m.takes| && GivenFor(given, m.values[c])
    requires given.Some? && (kind == Sum || at != Some(m.loc)) ==> given.value.1
    requires if edge.Some? then edge.value == EdgeOf(m, c) else FromEntry(kind)
    ensures StateIs(canon, ms + [m], key, c, kind, ColumnAfter(canon, state, kind, given, m.takes[c], m.order, at, edge))
  {
    hide TallyOf, DistinctOf, Better, EdgeBeats, InGroup, NewOrder, Unmixed, CanonOk, GivenFor, BestKept, EdgeKept;
    if !m.takes[c] {
      NotTaken(canon, m, key, c);
      ColumnOther(canon, ms, m, key, c, kind, state);
    } else if kind == First || kind == Last {
      assert Taken(canon, m, key, c);
      EdgeMore(canon, ms, m, key, c, kind, state.edge);
    } else {
      ColumnMore(canon, ms, m, key, c, kind, state, given, at);
    }
  }

  lemma NotTaken(canon: Canon, m: Match, key: Key, c: nat)
    requires c < |m.takes| && !m.takes[c]
    ensures !Taken(canon, m, key, c)
  {
  }

  // ------------------------------------------------------------------- the table

  /** A group for every key some match has, each right. */
  ghost predicate TableIs(canon: Canon, ms: seq<Match>, kinds: seq<Kind>, groups: map<Key, Group>) {
    && (forall key :: key in groups <==> exists m <- ms :: InGroup(canon, m, key))
    && (forall key <- groups :: GroupIs(canon, ms, kinds, key, groups[key]))
  }

  class Groups {
    const canon: Canon
    const kinds: seq<Kind>
    /** How many fields it is grouped by. */
    const width: nat
    var groups: map<Key, Group>
    /** The group the last match went to. */
    var last: Option<Key>
    ghost var ms: seq<Match>

    predicate Shaped(m: Match)
      reads this
    {
      |m.group| == width && |m.values| == |m.takes| == |kinds|
    }

    ghost predicate Valid()
      reads this
    {
      && CanonOk(canon) && Unmixed(ms) && (forall m <- ms :: Shaped(m))
      && TableIs(canon, ms, kinds, groups)
      && (last.Some? ==> last.value in groups)
    }

    constructor (canonical: Canon, columns: seq<Kind>, fields: nat)
      requires CanonOk(canonical)
      ensures Valid() && ms == [] && canon == canonical && kinds == columns && width == fields
    {
      canon, kinds, width, groups, last, ms := canonical, columns, fields, map[], None, [];
      new;
      hide CanonOk;
    }

    /** The columns of a group with one more match in it. */
    method AddValues(
      columns: seq<State>, given: seq<Option<(Document, bool)>>, takes: seq<bool>, order: Order, at: Option<Loc>,
      edges: Option<seq<Edge>>)
      returns (after: seq<State>)
      requires |columns| == |kinds| == |given| == |takes| && (edges.Some? ==> |edges.value| == |kinds|)
      ensures |after| == |kinds|
      ensures forall c :: 0 <= c < |kinds| ==>
                after[c] == ColumnAfter(canon, columns[c], kinds[c], given[c], takes[c], order, at,
                                        if edges.Some? then Some(edges.value[c]) else None)
    {
      after := [];
      for c := 0 to |kinds|
        invariant |after| == c
        invariant forall i :: 0 <= i < c ==>
                    after[i] == ColumnAfter(canon, columns[i], kinds[i], given[i], takes[i], order, at,
                                            if edges.Some? then Some(edges.value[i]) else None)
      {
        hide Update, EdgeUpdate, EdgeBeats;
        var state := columns[c];
        if takes[c] {
          state := Update(canon, state, kinds[c], SeenOf(given[c], order, at));
          if state.EdgeSeen? && edges.Some? {
            state := EdgeSeen(EdgeUpdate(state.edge, kinds[c], edges.value[c]));
          }
        }
        UpdateKeepsEdges(canon, columns[c], kinds[c], SeenOf(given[c], order, at));
        after := after + [state];
      }
    }

    /** A match into its group: `first` are the group's values as it gave them. */
    method AddTo(
      key: Key, first: seq<Seen>, given: seq<Option<(Document, bool)>>, takes: seq<bool>, order: Order, at: Option<Loc>,
      edges: Option<seq<Edge>>, ghost m: Match)
      requires Valid() && NewOrder(ms, m) && Shaped(m) && InGroup(canon, m, key)
      requires order == m.order && takes == m.takes && |given| == |kinds|
      requires forall c :: 0 <= c < |kinds| ==>
                 && GivenFor(given[c], m.values[c])
                 && (given[c].Some? && (kinds[c] == Sum || at != Some(m.loc)) ==> given[c].value.1)
      requires if edges.Some? then |edges.value| == |kinds| && forall c :: 0 <= c < |kinds| ==> edges.value[c] == EdgeOf(m, c)
               else forall c :: 0 <= c < |kinds| ==> FromEntry(kinds[c])
      requires FirstKept(canon, ms + [m], key, first)
      modifies this
      ensures Valid() && ms == old(ms) + [m] && last == Some(key)
    {
      hide CanonOk, Unmixed, NewOrder, InGroup, StateIs, FirstKept, ColumnAfter, GivenFor, TableIs;
      var g := if key in groups then groups[key] else NewGroup(kinds);
      GroupStarts(canon, ms, kinds, key, groups);
      var columns := AddValues(g.columns, given, takes, order, at, edges);
      forall c | 0 <= c < |kinds| ensures StateIs(canon, ms + [m], key, c, kinds[c], columns[c]) {
        ColumnGoesOn(canon, ms, m, key, c, kinds[c], g.columns[c], given[c], at,
                     if edges.Some? then Some(edges.value[c]) else None);
      }
      TableMore(canon, ms, m, kinds, groups, key, Group(first, columns));
      UnmixedMore(ms, m);
      groups := groups[key := Group(first, columns)];
      last, ms := Some(key), ms + [m];
    }

    /** `add_one`: a match from its document, every value as stored. */
    method AddDocument(m: Match, at: Option<Loc>)
      requires Valid() && NewOrder(ms, m) && Shaped(m)
      modifies this
      ensures Valid() && ms == old(ms) + [m] && last == Some(KeyOf(canon, m.group))
    {
      hide CanonOk, Unmixed, NewOrder, TableIs, FirstKept;
      var first := seq(|m.group|, i requires 0 <= i < |m.group| => Seen(m.group[i], m.order, true, at));
      var given := seq(|kinds|, c requires 0 <= c < |kinds| => if m.values[c].None? then None else Some((m.values[c].value, true)));
      var edges := seq(|kinds|, c requires 0 <= c < |kinds| => EdgeOf(m, c));
      AddEntryOf(first, given, m.takes, m.order, at, Some(edges), m);
    }

    /** `group_index`, then the columns: the group made if new, its first match by
        id kept. */
    method AddEntryOf(
      first: seq<Seen>, given: seq<Option<(Document, bool)>>, takes: seq<bool>, order: Order, at: Option<Loc>,
      edges: Option<seq<Edge>>, ghost m: Match)
      requires Valid() && NewOrder(ms, m) && Shaped(m) && FirstFor(first, m)
      requires order == m.order && takes == m.takes && |given| == |kinds|
      requires forall c :: 0 <= c < |kinds| ==>
                 && GivenFor(given[c], m.values[c])
                 && (given[c].Some? && (kinds[c] == Sum || at != Some(m.loc)) ==> given[c].value.1)
      requires if edges.Some? then |edges.value| == |kinds| && forall c :: 0 <= c < |kinds| ==> edges.value[c] == EdgeOf(m, c)
               else forall c :: 0 <= c < |kinds| ==> FromEntry(kinds[c])
      modifies this
      ensures Valid() && ms == old(ms) + [m] && last == Some(KeyOf(canon, m.group))
    {
      hide CanonOk, Unmixed, NewOrder, TableIs, FirstKept, FirstFor, GivenFor, EdgeOf;
      SeenKey(canon, first, m);
      var key := KeyOf(canon, ValuesOf(first));
      var held := if key in groups then groups[key].first else [];
      FirstOfGroup(canon, ms, kinds, groups, key, m, first);
      var earlier := held != [] && first != [] && held[0].order <= first[0].order;
      AddTo(key, if held == [] || (first != [] && !earlier) then first else held, given, takes, order, at, edges, m);
    }

    /** `add_entry`: a match from its index entry, each value with whether it is as
        stored. */
    method AddEntry(
      group: seq<(Document, bool)>, given: seq<Option<(Document, bool)>>, takes: seq<bool>, order: Order, at: Loc,
      ghost m: Match)
      requires Valid() && NewOrder(ms, m) && Shaped(m) && EntryFor(group, given, kinds, m)
      requires order == m.order && takes == m.takes && at == m.loc
      modifies this
      ensures Valid() && ms == old(ms) + [m] && last == Some(KeyOf(canon, m.group))
    {
      hide CanonOk, Unmixed, NewOrder, TableIs, FirstKept;
      var first := seq(|group|, i requires 0 <= i < |group| => Seen(group[i].0, order, group[i].1, Some(at)));
      AddEntryOf(first, given, takes, order, Some(at), None, m);
    }

    /** `add_entry_to_last`: a match from its index entry in the group the last one
        went to, its group's values not decoded again. */
    method AddEntryToLast(given: seq<Option<(Document, bool)>>, takes: seq<bool>, order: Order, at: Loc, ghost m: Match)
      requires Valid() && NewOrder(ms, m) && Shaped(m) && AllOrdered(m.group)
      requires last.Some? && InGroup(canon, m, last.value)
      requires exists group :: EntryFor(group, given, kinds, m)
      requires order == m.order && takes == m.takes && at == m.loc
      modifies this
      ensures Valid() && ms == old(ms) + [m] && last == old(last)
    {
      hide CanonOk, Unmixed, NewOrder, TableIs, FirstKept, AllOrdered, InGroup;
      var key := last.value;
      var first := groups[key].first;
      LastOfGroup(canon, ms, kinds, groups, key, m);
      AddTo(key, if first != [] && order < first[0].order then TakeOver(first, order, at) else first,
            given, takes, order, Some(at), None, m);
    }

    /** `finish`: the rows, by group. A value not as stored is read from its
        document. */
    method Finish(docs: map<Loc, Match>) returns (rows: map<Key, Row>)
      requires Valid() && Reads(docs, ms)
      ensures AreRows(canon, ms, kinds, width > 0, rows)
    {
      hide CanonOk, Unmixed, TableIs, Reads, GroupIs;
      var all := if groups == map[] && width == 0 then map[[] := NewGroup(kinds)] else groups;
      RowKeys(canon, ms, kinds, groups, width);
      rows := map[];
      var todo := all.Keys;
      while todo != {}
        invariant todo <= all.Keys && rows.Keys == all.Keys - todo
        invariant forall key <- rows :: IsRow(canon, ms, kinds, key, rows[key])
        decreases todo
      {
        hide IsRow;
        var key :| key in todo;
        var row := FinishRow(key, all[key], docs);
        rows := rows[key := row];
        todo := todo - {key};
      }
    }

    method FinishRow(key: Key, g: Group, docs: map<Loc, Match>) returns (row: Row)
      requires Reads(docs, ms) && GroupIs(canon, ms, kinds, key, g)
      ensures IsRow(canon, ms, kinds, key, row)
    {
      hide CellIs, StateIs, Reads, FirstKept;
      FirstRead(canon, ms, key, g.first, docs);
      var group := seq(|g.first|, i requires 0 <= i < |g.first| => ReadGroup(g.first[i], i, docs));
      var cells := seq(|kinds|, c requires 0 <= c < |kinds| => CellOf(g.columns[c], c, docs));
      forall c | 0 <= c < |kinds| ensures CellIs(canon, ms, key, c, kinds[c], cells[c]) {
        StateRead(canon, ms, key, c, kinds[c], g.columns[c], docs);
      }
      row := Row(group, cells);
    }
  }

  lemma UpdateKeepsEdges(canon: Canon, state: State, kind: Kind, seen: Option<Seen>)
    ensures Update(canon, state, kind, seen).EdgeSeen? <==> state.EdgeSeen?
    ensures state.EdgeSeen? ==> Update(canon, state, kind, seen) == state
  {
    hide Better;
  }

  lemma GroupStarts(canon: Canon, ms: seq<Match>, kinds: seq<Kind>, key: Key, groups: map<Key, Group>)
    requires TableIs(canon, ms, kinds, groups)
    ensures var g := if key in groups then groups[key] else NewGroup(kinds);
            |g.columns| == |kinds| && forall c :: 0 <= c < |kinds| ==> StateIs(canon, ms, key, c, kinds[c], g.columns[c])
  {
    hide StateIs, InGroup, FirstKept;
    if key !in groups {
      forall c | 0 <= c < |kinds| ensures StateIs(canon, ms, key, c, kinds[c], Initial(kinds[c])) {
        ColumnNew(canon, ms, key, c, kinds[c]);
      }
    }
  }

  lemma TableMore(
    canon: Canon, ms: seq<Match>, m: Match, kinds: seq<Kind>, groups: map<Key, Group>, key: Key, g: Group)
    requires Unmixed(ms) && NewOrder(ms, m) && InGroup(canon, m, key)
    requires TableIs(canon, ms, kinds, groups)
    requires FirstKept(canon, ms + [m], key, g.first) && |g.columns| == |kinds|
    requires forall c :: 0 <= c < |kinds| ==> StateIs(canon, ms + [m], key, c, kinds[c], g.columns[c])
    ensures TableIs(canon, ms + [m], kinds, groups[key := g])
  {
    OneGroup(canon, m, key);
    hide InGroup, NewOrder, Unmixed, StateIs, FirstKept;
    assert GroupIs(canon, ms + [m], kinds, key, g);
    forall k | k in groups && k != key ensures GroupIs(canon, ms + [m], kinds, k, groups[k]) {
      GroupOther(canon, ms, m, kinds, k, groups[k]);
    }
    hide GroupIs;
    var after := groups[key := g];
    forall k ensures k in after <==> exists x <- ms + [m] :: InGroup(canon, x, k) {
      if k in groups {
        var x :| x in ms && InGroup(canon, x, k);
        assert x in ms + [m];
      }
      assert m in ms + [m];
    }
  }

  lemma OneGroup(canon: Canon, m: Match, key: Key)
    requires InGroup(canon, m, key)
    ensures forall k :: InGroup(canon, m, k) <==> k == key
  {
  }

  lemma FirstOfGroup(canon: Canon, ms: seq<Match>, kinds: seq<Kind>, groups: map<Key, Group>, key: Key, m: Match, first: seq<Seen>)
    requires TableIs(canon, ms, kinds, groups) && InGroup(canon, m, key) && FirstFor(first, m) && NewOrder(ms, m)
    ensures var held := if key in groups then groups[key].first else [];
            FirstKept(canon, ms + [m], key,
                      if held == [] || (first != [] && !(held[0].order <= first[0].order)) then first else held)
  {
    hide StateIs;
    if key in groups {
      assert GroupIs(canon, ms, kinds, key, groups[key]);
      FirstMore(canon, ms, m, key, groups[key].first, first);
    } else {
      KeyLengths(canon, m, key);
      hide InGroup, FirstFor;
      assert m in ms + [m];
      assert forall x <- ms :: !InGroup(canon, x, key);
      assert IsFirst(canon, ms + [m], key, m);
      if key == [] { EmptyFirst(first, m); }
    }
  }

  lemma EmptyFirst(first: seq<Seen>, m: Match)
    requires FirstFor(first, m) && m.group == []
    ensures first == []
  {
  }

  /** What an entry says of a match, of columns it may be asked for. */
  ghost predicate EntryFor(group: seq<(Document, bool)>, given: seq<Option<(Document, bool)>>, kinds: seq<Kind>, m: Match) {
    && |group| == |m.group| && |given| == |kinds| && |m.values| == |kinds|
    && (forall i :: 0 <= i < |group| ==> IsFaithful(group[i].0, group[i].1, m.group[i]))
    && (forall c :: 0 <= c < |kinds| ==> GivenFor(given[c], m.values[c]) && FromEntry(kinds[c]))
  }

  lemma LastOfGroup(canon: Canon, ms: seq<Match>, kinds: seq<Kind>, groups: map<Key, Group>, key: Key, m: Match)
    requires TableIs(canon, ms, kinds, groups) && key in groups && InGroup(canon, m, key) && NewOrder(ms, m)
    requires AllOrdered(m.group)
    ensures var first := groups[key].first;
            FirstKept(canon, ms + [m], key,
                      if first != [] && m.order < first[0].order then TakeOver(first, m.order, m.loc) else first)
  {
    var first := groups[key].first;
    assert GroupIs(canon, ms, kinds, key, groups[key]);
    KeyLengths(canon, m, key);
    assert m in ms + [m];
    if key != [] {
      var x :| x in ms && IsFirst(canon, ms, key, x) && FirstFor(first, x);
      assert x in ms + [m];
      KeyLengths(canon, x, key);
      assert first[0].order == x.order;
      TakenOver(canon, first, x, m);
      hide StateIs, InGroup, FirstFor, TableIs;
      if m.order < x.order {
        assert IsFirst(canon, ms + [m], key, m);
      } else {
        assert IsFirst(canon, ms + [m], key, x);
      }
    }
  }

  // --------------------------------------------------------------------- the rows

  /** The documents as they are read again: each match's own. */
  ghost predicate Reads(docs: map<Loc, Match>, ms: seq<Match>) {
    forall m <- ms :: m.loc in docs && docs[m.loc].group == m.group && docs[m.loc].values == m.values
  }

  function ReadGroup(seen: Seen, i: nat, docs: map<Loc, Match>): (doc: Document) {
    if seen.stored || seen.at.None? || seen.at.value !in docs || i >= |docs[seen.at.value].group| then seen.value
    else docs[seen.at.value].group[i]
  }

  function CellOf(state: State, c: nat, docs: map<Loc, Match>): (cell: Cell) {
    match state
    case Counted(n) => Whole(n)
    case Summed(numbers) => SumOfAll(numbers)
    case Averaged(exacts) => MeanOfAll(exacts)
    case Differing(values) => Whole(|values|)
    case BestSeen(seen) =>
      if seen.None? then Value(Null)
      else if seen.value.stored || seen.value.at.None? || seen.value.at.value !in docs then Value(seen.value.value)
      else Value(ValueOf(docs[seen.value.at.value], c))
    case EdgeSeen(edge) =>
      if edge.None? || edge.value.value.None? then Value(Null) else Value(edge.value.value.value)
  }

  lemma FirstRead(canon: Canon, ms: seq<Match>, key: Key, first: seq<Seen>, docs: map<Loc, Match>)
    requires FirstKept(canon, ms, key, first) && Reads(docs, ms)
    ensures var group := seq(|first|, i requires 0 <= i < |first| => ReadGroup(first[i], i, docs));
            if key == [] then group == [] else exists m <- ms :: IsFirst(canon, ms, key, m) && group == m.group
  {
    if key != [] {
      var m :| m in ms && IsFirst(canon, ms, key, m) && FirstFor(first, m);
      var group := seq(|first|, i requires 0 <= i < |first| => ReadGroup(first[i], i, docs));
      forall i | 0 <= i < |first| ensures group[i] == m.group[i] {
        assert SeenFor(first[i], m, m.group[i]);
      }
      assert group == m.group;
    }
  }

  lemma StateRead(canon: Canon, ms: seq<Match>, key: Key, c: nat, kind: Kind, state: State, docs: map<Loc, Match>)
    requires StateIs(canon, ms, key, c, kind, state) && Reads(docs, ms)
    ensures CellIs(canon, ms, key, c, kind, CellOf(state, c, docs))
  {
    hide TallyOf, DistinctOf, BestKept, EdgeKept, BestIs, EdgeIs, Reads;
    match kind
    case Min => BestRead(canon, ms, key, c, kind, state.seen, docs);
    case Max => BestRead(canon, ms, key, c, kind, state.seen, docs);
    case First => EdgeRead(canon, ms, key, c, kind, state.edge, docs);
    case Last => EdgeRead(canon, ms, key, c, kind, state.edge, docs);
    case _ =>
  }

  lemma BestRead(canon: Canon, ms: seq<Match>, key: Key, c: nat, kind: Kind, seen: Option<Seen>, docs: map<Loc, Match>)
    requires BestKept(canon, ms, key, c, kind, seen) && Reads(docs, ms)
    ensures BestIs(canon, ms, key, c, kind, CellOf(BestSeen(seen), c, docs))
  {
    hide Candidate, Better;
    if seen.Some? {
      var m :| m in ms && IsBest(canon, ms, key, c, kind, m) && SeenFor(seen.value, m, ValueOf(m, c));
      assert Candidate(canon, m, key, c);
    }
  }

  lemma EdgeRead(canon: Canon, ms: seq<Match>, key: Key, c: nat, kind: Kind, edge: Option<Edge>, docs: map<Loc, Match>)
    requires EdgeKept(canon, ms, key, c, kind, edge)
    ensures EdgeIs(canon, ms, key, c, kind, CellOf(EdgeSeen(edge), c, docs))
  {
    hide Taken, EdgeBeats;
    if edge.Some? {
      var m :| m in ms && IsEdge(canon, ms, key, c, kind, m) && edge.value == EdgeOf(m, c);
      assert Taken(canon, m, key, c);
    }
  }

  lemma RowKeys(canon: Canon, ms: seq<Match>, kinds: seq<Kind>, groups: map<Key, Group>, width: nat)
    requires TableIs(canon, ms, kinds, groups) && forall m <- ms :: |m.group| == width
    ensures var all := if groups == map[] && width == 0 then map[[] := NewGroup(kinds)] else groups;
            && (forall key <- all :: GroupIs(canon, ms, kinds, key, all[key]))
            && (forall key :: key in all <==> (exists m <- ms :: InGroup(canon, m, key)) || (width == 0 && key == []))
  {
    hide GroupIs;
    if ms != [] { SomeGroup(canon, ms, groups); }
    if groups == map[] {
      if width == 0 { EmptyGroup(canon, kinds); }
    } else if width == 0 {
      var key :| key in groups;
      var m :| m in ms && InGroup(canon, m, key);
      KeyLengths(canon, m, key);
      assert key == [];
    }
  }

  lemma SomeGroup(canon: Canon, ms: seq<Match>, groups: map<Key, Group>)
    requires ms != [] && forall key :: key in groups <==> exists m <- ms :: InGroup(canon, m, key)
    ensures groups != map[]
  {
    var m := ms[0];
    assert m in ms && InGroup(canon, m, KeyOf(canon, m.group));
    assert KeyOf(canon, m.group) in groups;
  }

  lemma EmptyGroup(canon: Canon, kinds: seq<Kind>)
    ensures GroupIs(canon, [], kinds, [], NewGroup(kinds))
  {
    hide StateIs;
    forall c | 0 <= c < |kinds| ensures StateIs(canon, [], [], c, kinds[c], Initial(kinds[c])) {
      ColumnNew(canon, [], [], c, kinds[c]);
    }
  }

  // -------------------------------------------------------------------- every feed

  /** How a match is fed: from its document, from its index entry, or from an entry
      whose group is the last match's. */
  datatype Fed =
    | FromDocument(m: Match)
    | FromIndex(m: Match, group: seq<(Document, bool)>, given: seq<Option<(Document, bool)>>)
    | FromIndexToLast(m: Match, given: seq<Option<(Document, bool)>>)

  function Matches(fed: seq<Fed>): (ms: seq<Match>) {
    seq(|fed|, i requires 0 <= i < |fed| => fed[i].m)
  }

  ghost predicate FedOk(canon: Canon, kinds: seq<Kind>, width: nat, fed: seq<Fed>, i: nat)
    requires i < |fed|
  {
    var m := fed[i].m;
    && |m.group| == width && |m.values| == |m.takes| == |kinds|
    && match fed[i] {
         case FromDocument(_) => true
         case FromIndex(_, group, given) => EntryFor(group, given, kinds, m)
         case FromIndexToLast(_, given) =>
           && i > 0 && InGroup(canon, m, KeyOf(canon, fed[i - 1].m.group)) && AllOrdered(m.group)
           && exists group :: EntryFor(group, given, kinds, m)
       }
  }

  method AllRows(canon: Canon, kinds: seq<Kind>, width: nat, fed: seq<Fed>, docs: map<Loc, Match>)
    returns (rows: map<Key, Row>)
    requires CanonOk(canon) && Apart(Matches(fed)) && Reads(docs, Matches(fed))
    requires forall i :: 0 <= i < |fed| ==> FedOk(canon, kinds, width, fed, i)
    ensures AreRows(canon, Matches(fed), kinds, width > 0, rows)
  {
    hide CanonOk, Groups.Valid, Reads, FedOk, AreRows;
    var groups := new Groups(canon, kinds, width);
    for i := 0 to |fed|
      invariant groups.Valid() && fresh(groups) && groups.canon == canon && groups.kinds == kinds && groups.width == width
      invariant groups.ms == Matches(fed)[..i]
      invariant i > 0 ==> groups.last == Some(KeyOf(canon, fed[i - 1].m.group))
    {
      IsNew(fed, i);
      FeedOne(groups, fed, i);
      assert Matches(fed)[..i + 1] == Matches(fed)[..i] + [fed[i].m];
    }
    assert Matches(fed)[..|fed|] == Matches(fed);
    rows := groups.Finish(docs);
  }

  lemma IsNew(fed: seq<Fed>, i: nat)
    requires i < |fed| && Apart(Matches(fed))
    ensures NewOrder(Matches(fed)[..i], fed[i].m)
  {
    var ms := Matches(fed);
    forall x | x in ms[..i] ensures x.order != ms[i].order {
      var j :| 0 <= j < i && ms[j] == x;
    }
  }

  method FeedOne(groups: Groups, fed: seq<Fed>, i: nat)
    requires i < |fed| && groups.Valid() && FedOk(groups.canon, groups.kinds, groups.width, fed, i)
    requires NewOrder(groups.ms, fed[i].m)
    requires i > 0 ==> groups.last == Some(KeyOf(groups.canon, fed[i - 1].m.group))
    modifies groups
    ensures groups.Valid() && groups.ms == old(groups.ms) + [fed[i].m]
    ensures groups.last == Some(KeyOf(groups.canon, fed[i].m.group))
  {
    hide Groups.Valid, NewOrder, EntryFor, AllOrdered;
    match fed[i] {
      case FromDocument(m) => groups.AddDocument(m, Some(m.loc));
      case FromIndex(m, group, given) => groups.AddEntry(group, given, m.takes, m.order, m.loc, m);
      case FromIndexToLast(m, given) => groups.AddEntryToLast(given, m.takes, m.order, m.loc, m);
    }
  }

  // --------------------------------------------------------- what columns hand out

  /** The numbers a column adds up, as the matches have them. */
  function ColumnNumbers(canon: Canon, ms: seq<Match>, key: Key, c: nat): (numbers: seq<Document>)
    ensures AllNumbers(numbers) && |numbers| <= |ms|
  {
    if ms == [] then []
    else
      var n := |ms| - 1;
      var rest := ColumnNumbers(canon, ms[..n], key, c);
      var number := NumberOf(canon, ms[n], key, c);
      if number.Some? then rest + [number.value] else rest
  }

  lemma {:induction false} ColumnTally(canon: Canon, ms: seq<Match>, key: Key, c: nat)
    ensures multiset(ColumnNumbers(canon, ms, key, c)) == TallyOf(canon, ms, key, c).numbers
    ensures multiset(ExactsOf(ColumnNumbers(canon, ms, key, c))) == TallyOf(canon, ms, key, c).exacts
    ensures TallyOf(canon, ms, key, c).count <= |ms|
  {
    hide TallyOne, Plus, ExactOf, ExactsOf, NumberOf;
    if ms != [] {
      var n := |ms| - 1;
      ColumnTally(canon, ms[..n], key, c);
      OneNumberMore(canon, ms[n], key, c, ColumnNumbers(canon, ms[..n], key, c), TallyOf(canon, ms[..n], key, c));
    } else {
      assert ExactsOf([]) == [] by { NoExacts(); }
    }
  }

  lemma NoExacts()
    ensures ExactsOf([]) == []
  {
  }

  lemma OneNumberMore(canon: Canon, m: Match, key: Key, c: nat, rest: seq<Document>, tally: Tally)
    requires AllNumbers(rest) && multiset(rest) == tally.numbers && multiset(ExactsOf(rest)) == tally.exacts
    ensures var number := NumberOf(canon, m, key, c);
            var more := if number.Some? then rest + [number.value] else rest;
            var after := Plus(tally, TallyOne(canon, m, key, c));
            && AllNumbers(more) && multiset(more) == after.numbers && multiset(ExactsOf(more)) == after.exacts
            && after.count <= tally.count + 1
  {
    hide Candidate, Taken;
    var number := NumberOf(canon, m, key, c);
    if number.Some? {
      hide ExactOf;
      assert ExactsOf(rest + [number.value]) == ExactsOf(rest) + [ExactOf(number.value)];
    }
  }

  /** A count as an `i64` has it. */
  function CountAs(n: nat): (d: Document)
    requires n < B
  {
    Int(if n < TWO63 then n else n - B)
  }

  /** The value of a column: a sum and a mean of any numbers that are those. */
  ghost predicate HandedOut(cell: Cell, doc: Document) {
    match cell
    case Whole(n) => n < B && doc == CountAs(n)
    case SumOfAll(numbers) => exists s :: AllNumbers(s) && multiset(s) == numbers && SumIs(s, doc)
    case MeanOfAll(exacts) => exists s :: AllNumbers(s) && multiset(ExactsOf(s)) == exacts && MeanIs(s, doc)
    case Value(d) => doc == d
  }

  ghost predicate HasExact(numbers: multiset<Document>, x: Exact) {
    exists d :: d in numbers && IsNumber(d) && ExactOf(d) == x
  }

  /** A sum or a mean that is NaN: of numbers one of which is, or with both infinities
      among them. */
  ghost predicate CellGivesNaN(cell: Cell) {
    match cell
    case SumOfAll(numbers) =>
      HasExact(numbers, NaN) || (HasExact(numbers, Infinite(true)) && HasExact(numbers, Infinite(false)))
    case MeanOfAll(exacts) => GivesNaN(exacts)
    case _ => false
  }

  lemma ExactsHave(numbers: seq<Document>, x: Exact)
    requires AllNumbers(numbers)
    ensures x in multiset(ExactsOf(numbers)) <==> HasExact(multiset(numbers), x)
  {
    hide ExactOf;
    var xs := ExactsOf(numbers);
    if x in multiset(xs) {
      var i :| 0 <= i < |xs| && xs[i] == x;
      assert numbers[i] in numbers && numbers[i] in multiset(numbers) && ExactOf(numbers[i]) == x;
    }
    if HasExact(multiset(numbers), x) {
      var d :| d in multiset(numbers) && IsNumber(d) && ExactOf(d) == x;
      assert d in numbers;
      var i :| 0 <= i < |numbers| && numbers[i] == d;
      assert xs[i] == x;
      assert x in xs;
    }
  }

  lemma SumGivesNaN(numbers: seq<Document>)
    requires AllNumbers(numbers)
    ensures GivesNaN(multiset(ExactsOf(numbers))) <==> CellGivesNaN(SumOfAll(multiset(numbers)))
  {
    hide ExactsOf, HasExact;
    ExactsHave(numbers, NaN);
    ExactsHave(numbers, Infinite(true));
    ExactsHave(numbers, Infinite(false));
  }

  /** There is one, or it is NaN: whatever the order the numbers were added in, and for
      a mean whether a whole number came as an integer or as a float. */
  lemma HandedOutIsOne(cell: Cell, a: Document, b: Document)
    requires HandedOut(cell, a) && HandedOut(cell, b)
    ensures Alike(a, b) && (!CellGivesNaN(cell) ==> a == b)
  {
    hide SumIs, MeanIs, ExactsOf, SameFloat;
    match cell
    case SumOfAll(numbers) =>
      var s :| AllNumbers(s) && multiset(s) == numbers && SumIs(s, a);
      var t :| AllNumbers(t) && multiset(t) == numbers && SumIs(t, b);
      SumGivesNaN(s);
      hide GivesNaN, CellGivesNaN;
      SumIgnoresOrder(s, t, a, b);
    case MeanOfAll(exacts) =>
      var s :| AllNumbers(s) && multiset(ExactsOf(s)) == exacts && MeanIs(s, a);
      var t :| AllNumbers(t) && multiset(ExactsOf(t)) == exacts && MeanIs(t, b);
      hide GivesNaN;
      MeanIgnoresKind(s, t, a, b);
    case _ =>
  }

  /** And just there it may be any NaN. */
  lemma HandedOutIsAnyNaN(cell: Cell, a: Document, bits: u64)
    requires HandedOut(cell, a) && CellGivesNaN(cell) && ExactOf(Float(bits)).NaN?
    ensures HandedOut(cell, Float(bits))
  {
    hide ExactOf, ExactsOf;
    match cell
    case SumOfAll(numbers) =>
      var s :| AllNumbers(s) && multiset(s) == numbers && SumIs(s, a);
      SumGivesNaN(s);
      NaNIsTotal(s, bits);
      hide SumIs, GivesNaN;
    case MeanOfAll(exacts) =>
      var s :| AllNumbers(s) && multiset(ExactsOf(s)) == exacts && MeanIs(s, a);
      NaNIsTotal(s, bits);
      hide MeanIs, GivesNaN;
  }

  lemma NaNIsTotal(numbers: seq<Document>, bits: u64)
    requires AllNumbers(numbers) && GivesNaN(multiset(ExactsOf(numbers))) && ExactOf(Float(bits)).NaN?
    ensures SumIs(numbers, Float(bits)) && MeanIs(numbers, Float(bits))
  {
    SpecialOfThem(ExactsOf(numbers));
    NaNNeedsFloat(numbers);
    hide SpecialOf, ExactOf, SumOf, IntSum, ExactsOf;
  }

  lemma NaNNeedsFloat(numbers: seq<Document>)
    requires AllNumbers(numbers) && GivesNaN(multiset(ExactsOf(numbers)))
    ensures numbers != [] && AnyFloat(numbers)
  {
    var xs := ExactsOf(numbers);
    var x := if NaN in multiset(xs) then NaN else Infinite(true);
    assert x in xs;
    var i :| 0 <= i < |xs| && xs[i] == x;
    IntIsFinite(numbers[i]);
    hide ExactOf;
  }

  lemma {:induction false} AllAreIn(numbers: seq<Document>)
    requires AllNumbers(numbers)
    ensures NumbersIn(numbers) == numbers
  {
    if numbers != [] {
      var n := |numbers| - 1;
      AllAreIn(numbers[..n]);
    }
  }

  /** No more different values than matches. */
  lemma {:induction false} DistinctAtMost(canon: Canon, ms: seq<Match>, key: Key, c: nat)
    ensures |DistinctOf(canon, ms, key, c)| <= |ms|
  {
    if ms == [] {
      assert DistinctOf(canon, ms, key, c) == {};
    } else {
      var n := |ms| - 1;
      DistinctAtMost(canon, ms[..n], key, c);
      DistinctMore(canon, ms[..n], ms[n], key, c);
      assert ms == ms[..n] + [ms[n]];
      hide DistinctOf, Candidate;
    }
  }

  lemma CellIsOf(canon: Canon, ms: seq<Match>, key: Key, c: nat, kind: Kind, cell: Cell)
    requires CellIs(canon, ms, key, c, kind, cell)
    ensures cell.Whole? ==> cell.n <= |ms|
    ensures cell.SumOfAll? ==> cell.numbers == multiset(ColumnNumbers(canon, ms, key, c))
    ensures cell.MeanOfAll? ==> cell.exacts == multiset(ExactsOf(ColumnNumbers(canon, ms, key, c)))
  {
    ColumnTally(canon, ms, key, c);
    DistinctAtMost(canon, ms, key, c);
    hide TallyOf, DistinctOf, ColumnNumbers, ExactsOf, IsBest, IsEdge, Candidate, Taken;
  }

  method HandOut(ieee: Ieee, canon: Canon, ms: seq<Match>, key: Key, c: nat, ghost kind: Kind, cell: Cell) returns (doc: Document)
    requires IeeeOk(ieee) && |ms| < B && CellIs(canon, ms, key, c, kind, cell)
    ensures HandedOut(cell, doc)
  {
    hide SumIs, MeanIs, ExactsOf, CellIs, ColumnNumbers, IeeeOk, SpecialBits;
    CellIsOf(canon, ms, key, c, kind, cell);
    var numbers := ColumnNumbers(canon, ms, key, c);
    AllAreIn(numbers);
    match cell {
      case Whole(n) => doc := CountAs(n);
      case SumOfAll(_) => var sum, _ := SumAll(ieee, numbers); doc := sum;
      case MeanOfAll(_) => var _, avg := SumAll(ieee, numbers); doc := avg;
      case Value(d) => doc := d;
    }
  }

  /** A row as it is handed out: its group's values, and each column's. */
  ghost predicate Shown(row: Row, docs: seq<Document>) {
    |docs| == |row.cells| && forall c :: 0 <= c < |docs| ==> HandedOut(row.cells[c], docs[c])
  }

  method ShowRow(ieee: Ieee, canon: Canon, ms: seq<Match>, ghost kinds: seq<Kind>, key: Key, row: Row)
    returns (docs: seq<Document>)
    requires IeeeOk(ieee) && |ms| < B && IsRow(canon, ms, kinds, key, row)
    ensures Shown(row, docs)
  {
    docs := [];
    for c := 0 to |row.cells|
      invariant |docs| == c && forall j :: 0 <= j < c ==> HandedOut(row.cells[j], docs[j])
    {
      hide HandedOut, CellIs, IsFirst, IeeeOk;
      var doc := HandOut(ieee, canon, ms, key, c, kinds[c], row.cells[c]);
      docs := docs + [doc];
    }
  }

  method ShowAll(
    ieee: Ieee, canon: Canon, ms: seq<Match>, ghost kinds: seq<Kind>, ghost grouped: bool, rows: map<Key, Row>)
    returns (shown: map<Key, seq<Document>>)
    requires IeeeOk(ieee) && |ms| < B && AreRows(canon, ms, kinds, grouped, rows)
    ensures shown.Keys == rows.Keys && forall key <- rows :: Shown(rows[key], shown[key])
  {
    hide Shown, IsRow, InGroup, IeeeOk;
    shown := map[];
    var todo := rows.Keys;
    while todo != {}
      invariant todo <= rows.Keys && shown.Keys == rows.Keys - todo
      invariant forall key <- shown :: Shown(rows[key], shown[key])
      decreases todo
    {
      var key :| key in todo;
      var docs := ShowRow(ieee, canon, ms, kinds, key, rows[key]);
      shown := shown[key := docs];
      todo := todo - {key};
    }
  }

  /** The rows of every feed are those of its matches, and each column hands out its
      one value: whichever matches came from their documents and whichever from
      index entries, and by `RowsIgnoreOrder` in whatever order. */
  method Aggregate(ieee: Ieee, kinds: seq<Kind>, width: nat, fed: seq<Fed>, docs: map<Loc, Match>)
    returns (rows: map<Key, Row>, shown: map<Key, seq<Document>>)
    requires IeeeOk(ieee) && |fed| < B && Apart(Matches(fed)) && Reads(docs, Matches(fed))
    requires forall i :: 0 <= i < |fed| ==> FedOk(ByCanonical, kinds, width, fed, i)
    ensures AreRows(ByCanonical, Matches(fed), kinds, width > 0, rows)
    ensures shown.Keys == rows.Keys && forall key <- rows :: Shown(rows[key], shown[key])
  {
    hide CanonOk, AreRows, FedOk, Reads, Shown, IeeeOk;
    CanonicalIsOk();
    rows := AllRows(ByCanonical, kinds, width, fed, docs);
    shown := ShowAll(ieee, ByCanonical, Matches(fed), kinds, width > 0, rows);
  }

  // ---------------------------------------------------- which `min`, which `first`

  /** No candidate of the group is smaller than the one chosen, nor ordered where that
      is not; and of those not larger either it is the earliest. */
  ghost predicate IsSmallest(ms: seq<Match>, key: Key, c: nat, chosen: Match) {
    && chosen in ms && Candidate(ByCanonical, chosen, key, c)
    && forall m <- ms :: Candidate(ByCanonical, m, key, c) ==>
         var (v, x) := (ValueOf(chosen, c), ValueOf(m, c));
         && !Less(x, v) && (HasNoOrder(v) ==> HasNoOrder(x))
         && (m.order < chosen.order ==> Less(v, x) || (!HasNoOrder(v) && HasNoOrder(x)))
  }

  ghost predicate IsLargest(ms: seq<Match>, key: Key, c: nat, chosen: Match) {
    && chosen in ms && Candidate(ByCanonical, chosen, key, c)
    && forall m <- ms :: Candidate(ByCanonical, m, key, c) ==>
         var (v, x) := (ValueOf(chosen, c), ValueOf(m, c));
         && !Less(v, x) && (HasNoOrder(v) ==> HasNoOrder(x))
         && (m.order < chosen.order ==> Less(x, v) || (!HasNoOrder(v) && HasNoOrder(x)))
  }

  /** By what orders `first` and `last`, then by its place, a match before another. */
  ghost predicate IsEarlier(m: Match, x: Match, c: nat) {
    var (a, b) := (ByOf(m, c), ByOf(x, c));
    ComesFirst(a, b, Asc) || (!ComesFirst(b, a, Asc) && m.order < x.order)
  }

  lemma ExtremeRuns(a: Document, b: Document, kind: Kind)
    requires kind == Min || kind == Max
    ensures ExtremeOrder(a, b, kind) < 0 <==>
              (if kind == Min then Less(a, b) else Less(b, a)) || (!HasNoOrder(a) && HasNoOrder(b))
    ensures ExtremeOrder(a, b, kind) == 0 ==> !Less(a, b) && !Less(b, a) && HasNoOrder(a) == HasNoOrder(b)
    ensures ExtremeOrder(a, b, kind) > 0 <==>
              (if kind == Min then Less(b, a) else Less(a, b)) || (!HasNoOrder(b) && HasNoOrder(a))
  {
    NoOrderIsLast(a);
    NoOrderIsLast(b);
    SortingRuns(a, b, Asc);
    SortingRuns(b, a, Asc);
    SortingIsAntisymmetric(a, b, Asc);
    LessIsOneWay(a, b);
    LessIsOneWay(b, a);
    hide Sorting, Less, HasNoOrder, SortRank;
  }

  lemma LessIsOneWay(a: Document, b: Document)
    ensures !(Less(a, b) && Less(b, a)) && (Less(a, b) ==> !HasNoOrder(a) && !HasNoOrder(b))
  {
    SortingRuns(a, b, Asc);
    SortingRuns(b, a, Asc);
    SortingIsAntisymmetric(a, b, Asc);
    hide Sorting, KindLess, OneKind, ValueLess, HasNoOrder;
  }

  lemma BestIsExtreme(ms: seq<Match>, key: Key, c: nat, kind: Kind, best: Match)
    requires Unmixed(ms) && IsBest(ByCanonical, ms, key, c, kind, best)
    ensures kind == Min ==> IsSmallest(ms, key, c, best)
    ensures kind == Max ==> IsLargest(ms, key, c, best)
  {
    hide ExtremeOrder, Less, HasNoOrder, ByCanonical;
    if kind == Min || kind == Max {
      forall m | m in ms && Candidate(ByCanonical, m, key, c)
        ensures var (v, x) := (ValueOf(best, c), ValueOf(m, c));
                && !(if kind == Min then Less(x, v) else Less(v, x)) && (HasNoOrder(v) ==> HasNoOrder(x))
                && (m.order < best.order ==>
                      (if kind == Min then Less(v, x) else Less(x, v)) || (!HasNoOrder(v) && HasNoOrder(x)))
      {
        ExtremeRuns(ValueOf(best, c), ValueOf(m, c), kind);
        LessIsOneWay(ValueOf(best, c), ValueOf(m, c));
        if m.order == best.order {
          assert m == best;
        }
      }
    }
  }

  /** What a row hands out for `min` is a smallest value, for `max` a largest, of equal
      ones the earliest match's; null where no match has a value. */
  lemma MinIsSmallest(ms: seq<Match>, kinds: seq<Kind>, grouped: bool, rows: map<Key, Row>, key: Key, c: nat)
    requires Apart(ms) && AreRows(ByCanonical, ms, kinds, grouped, rows)
    requires key in rows && c < |kinds| && (kinds[c] == Min || kinds[c] == Max)
    ensures |rows[key].cells| == |kinds|
    ensures var cell := rows[key].cells[c];
            if forall m <- ms :: !Candidate(ByCanonical, m, key, c) then cell == Value(Null)
            else exists m <- ms ::
                   && cell == Value(ValueOf(m, c))
                   && (if kinds[c] == Min then IsSmallest(ms, key, c, m) else IsLargest(ms, key, c, m))
  {
    hide Candidate, Better, IsSmallest, IsLargest, IsFirst, InGroup, ByCanonical;
    ApartUnmixed(ms, ms);
    var cell := rows[key].cells[c];
    assert CellIs(ByCanonical, ms, key, c, kinds[c], cell);
    if !forall m <- ms :: !Candidate(ByCanonical, m, key, c) {
      var m :| m in ms && IsBest(ByCanonical, ms, key, c, kinds[c], m) && cell == Value(ValueOf(m, c));
      hide IsBest;
      BestIsExtreme(ms, key, c, kinds[c], m);
    }
  }

  lemma EarlierRuns(m: Match, x: Match, c: nat)
    requires m.order != x.order
    ensures Precedes(ByOf(m, c), m.order, ByOf(x, c), x.order) <==> IsEarlier(m, x, c)
  {
    SortingRuns(ByOf(m, c), ByOf(x, c), Asc);
    hide Sorting, ComesFirst;
  }

  /** What a row hands out for `first` is of the match with the least value that orders
      it, then the least place; for `last` with the greatest. */
  lemma FirstIsEarliest(ms: seq<Match>, kinds: seq<Kind>, grouped: bool, rows: map<Key, Row>, key: Key, c: nat)
    requires AreRows(ByCanonical, ms, kinds, grouped, rows)
    requires key in rows && c < |kinds| && (kinds[c] == First || kinds[c] == Last)
    ensures |rows[key].cells| == |kinds|
    ensures var cell := rows[key].cells[c];
            if forall m <- ms :: !Taken(ByCanonical, m, key, c) then cell == Value(Null)
            else exists m <- ms ::
                   && cell == Value(ValueOf(m, c)) && Taken(ByCanonical, m, key, c)
                   && forall x <- ms :: Taken(ByCanonical, x, key, c) && x.order != m.order ==>
                        if kinds[c] == First then IsEarlier(m, x, c) else IsEarlier(x, m, c)
  {
    hide Taken, IsFirst, InGroup, ByCanonical, Precedes, IsEarlier;
    var cell := rows[key].cells[c];
    assert CellIs(ByCanonical, ms, key, c, kinds[c], cell);
    if !forall m <- ms :: !Taken(ByCanonical, m, key, c) {
      var m :| m in ms && IsEdge(ByCanonical, ms, key, c, kinds[c], m) && cell == Value(ValueOf(m, c));
      forall x | x in ms && Taken(ByCanonical, x, key, c) && x.order != m.order
        ensures if kinds[c] == First then IsEarlier(m, x, c) else IsEarlier(x, m, c)
      {
        EarlierRuns(m, x, c);
        EarlierRuns(x, m, c);
      }
    }
  }

  /** So what is handed out does not depend on the order matches come in, but for which
      NaN a sum or a mean is that is one. */
  lemma ShownIgnoresOrder(
    a: seq<Match>, b: seq<Match>, kinds: seq<Kind>, grouped: bool, x: map<Key, Row>, y: map<Key, Row>, key: Key,
    docs: seq<Document>, others: seq<Document>)
    requires Apart(a) && multiset(a) == multiset(b)
    requires AreRows(ByCanonical, a, kinds, grouped, x) && AreRows(ByCanonical, b, kinds, grouped, y)
    requires key in x && Shown(x[key], docs)
    ensures key in y && x[key] == y[key]
    ensures Shown(y[key], others) ==>
              && |docs| == |others| == |x[key].cells|
              && forall c :: 0 <= c < |docs| ==>
                   Alike(docs[c], others[c]) && (!CellGivesNaN(x[key].cells[c]) ==> docs[c] == others[c])
  {
    hide AreRows, HandedOut, Alike, CellGivesNaN;
    RowsIgnoreOrder(ByCanonical, a, b, kinds, grouped, x, y);
    if Shown(y[key], others) {
      forall c | 0 <= c < |docs|
        ensures Alike(docs[c], others[c]) && (!CellGivesNaN(x[key].cells[c]) ==> docs[c] == others[c])
      {
        HandedOutIsOne(x[key].cells[c], docs[c], others[c]);
      }
    }
  }
}
