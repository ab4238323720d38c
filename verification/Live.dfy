/** Live queries (`src/live.rs`): a watcher keeps what matches a filter, with a
    sort as the first `limit` matches in order, and reports each commit as
    events that carry a reader's copy from the old list to the new one. */
module Live {
  import opened Values
  import C = Changes

  /** A sort field, by what a document holds at its path (`Null` if missing). */
  datatype Sort = Sort(field: Document -> Document, order: SortOrder)

  /** A sort by a key of the application's: a float, or nothing. */
  datatype KeySort = KeySort(key: Document -> Option<u64>, order: SortOrder)

  datatype Filter = Filter(
    matches: Document -> bool,
    byKey: Option<KeySort>,
    sort: seq<Sort>,
    limit: Option<nat>,
    select: Document -> Document)
  {
    predicate Sorted() {
      byKey.Some? || sort != []
    }
  }

  /** A collection's documents, by id. */
  type Docs = map<DocId, Document>

  /** A document's place in a sorted live query: its sort values, then its id. */
  datatype Member = Member(key: seq<Document>, id: DocId)

  function SortValues(sort: seq<Sort>, doc: Document): (values: seq<Document>)
    ensures |values| == |sort|
  {
    seq(|sort|, i requires 0 <= i < |sort| => sort[i].field(doc))
  }

  /** `Member::of`: nothing where the filter's key leaves the document out. */
  function MemberOf(f: Filter, id: DocId, doc: Document): (m: Option<Member>)
    ensures m.Some? ==> m.value.id == id && |m.value.key| == |Orders(f)|
  {
    match f.byKey
    case None => Some(Member(SortValues(f.sort, doc), id))
    case Some(ranking) =>
      match ranking.key(doc)
      case None => None
      case Some(bits) =>
        if ExactOf(Float(bits)).NaN? then None
        else Some(Member([Float(bits)] + SortValues(f.sort, doc), id))
  }

  function Orders(f: Filter): (orders: seq<SortOrder>) {
    (if f.byKey.Some? then [f.byKey.value.order] else [])
    + seq(|f.sort|, i requires 0 <= i < |f.sort| => f.sort[i].order)
  }

  // ------------------------------------------------------- the members' order

  function CompareKeys(orders: seq<SortOrder>, a: seq<Document>, b: seq<Document>): (r: int) {
    if orders == [] || a == [] || b == [] then 0
    else
      var ord := Sorting(a[0], b[0], orders[0]);
      if ord != 0 then ord else CompareKeys(orders[1..], a[1..], b[1..])
  }

  /** `order`: by the sort values, then by id. */
  function Order(orders: seq<SortOrder>, a: Member, b: Member): (r: int) {
    var ord := CompareKeys(orders, a.key, b.key);
    if ord != 0 then ord else CompareBytes(a.id, b.id)
  }

  predicate Before(orders: seq<SortOrder>, a: Member, b: Member) {
    Order(orders, a, b) < 0
  }

  lemma {:induction false} KeysAreAntisymmetric(orders: seq<SortOrder>, a: seq<Document>, b: seq<Document>)
    ensures CompareKeys(orders, b, a) == -CompareKeys(orders, a, b)
  {
    if orders != [] && a != [] && b != [] {
      SortingIsAntisymmetric(a[0], b[0], orders[0]);
      KeysAreAntisymmetric(orders[1..], a[1..], b[1..]);
    }
  }

  lemma {:induction false} KeysAreTransitive(
    orders: seq<SortOrder>, a: seq<Document>, b: seq<Document>, c: seq<Document>)
    requires |a| == |b| == |c| == |orders|
    requires CompareKeys(orders, a, b) <= 0 && CompareKeys(orders, b, c) <= 0
    ensures CompareKeys(orders, a, c) <= 0
    ensures CompareKeys(orders, a, c) == 0 ==>
              CompareKeys(orders, a, b) == 0 && CompareKeys(orders, b, c) == 0
  {
    if orders != [] {
      var order := orders[0];
      SortingIsTransitive(a[0], b[0], c[0], order);
      SortingIsAntisymmetric(a[0], b[0], order);
      SortingIsAntisymmetric(b[0], c[0], order);
      SortingIsAntisymmetric(a[0], c[0], order);
      if Sorting(a[0], c[0], order) == 0 {
        SortingIsTransitive(b[0], c[0], a[0], order);
        SortingIsTransitive(c[0], a[0], b[0], order);
        KeysAreTransitive(orders[1..], a[1..], b[1..], c[1..]);
      }
    }
  }

  /** Of two members with different ids, one comes before the other. */
  lemma OrderIsTotal(orders: seq<SortOrder>, a: Member, b: Member)
    ensures Order(orders, b, a) == -Order(orders, a, b)
    ensures Order(orders, a, b) == 0 ==> a.id == b.id
  {
    KeysAreAntisymmetric(orders, a.key, b.key);
    BytesAreTotal(a.id, b.id);
  }

  lemma OrderIsTransitive(orders: seq<SortOrder>, a: Member, b: Member, c: Member)
    requires |a.key| == |b.key| == |c.key| == |orders|
    requires Before(orders, a, b) && Before(orders, b, c)
    ensures Before(orders, a, c)
  {
    KeysAreTransitive(orders, a.key, b.key, c.key);
    if CompareKeys(orders, a.key, c.key) == 0 {
      BytesAreTransitive(a.id, b.id, c.id);
      BytesAreTotal(a.id, b.id);
      BytesAreTotal(a.id, c.id);
      BytesAreTotal(b.id, c.id);
    }
  }

  // ------------------------------------------------------- which way the order runs

  /** Neither value is to come first. */
  ghost predicate Ties(a: Document, b: Document, order: SortOrder) {
    !ComesFirst(a, b, order) && !ComesFirst(b, a, order)
  }

  /** The first key that tells the two apart puts `a` first. */
  ghost predicate DecidedAt(orders: seq<SortOrder>, a: seq<Document>, b: seq<Document>, k: int)
    requires |a| == |b| == |orders|
  {
    && 0 <= k < |orders| && ComesFirst(a[k], b[k], orders[k])
    && forall j :: 0 <= j < k ==> Ties(a[j], b[j], orders[j])
  }

  ghost predicate AllTie(orders: seq<SortOrder>, a: seq<Document>, b: seq<Document>)
    requires |a| == |b| == |orders|
  {
    forall j :: 0 <= j < |orders| ==> Ties(a[j], b[j], orders[j])
  }

  lemma {:induction false} KeysRun(orders: seq<SortOrder>, a: seq<Document>, b: seq<Document>)
    requires |a| == |b| == |orders|
    ensures CompareKeys(orders, a, b) < 0 <==> exists k :: DecidedAt(orders, a, b, k)
    ensures CompareKeys(orders, a, b) == 0 <==> AllTie(orders, a, b)
  {
    hide ComesFirst, Sorting;
    if orders != [] {
      var (os, x, y) := (orders[1..], a[1..], b[1..]);
      SortingRuns(a[0], b[0], orders[0]);
      KeysRun(os, x, y);
      forall k | DecidedAt(os, x, y, k) && Ties(a[0], b[0], orders[0]) ensures DecidedAt(orders, a, b, k + 1) {
        assert forall j :: 0 < j < k + 1 ==> a[j] == x[j - 1] && b[j] == y[j - 1] && orders[j] == os[j - 1];
      }
      forall k | DecidedAt(orders, a, b, k) && k > 0 ensures DecidedAt(os, x, y, k - 1) {
        forall j | 0 <= j < k - 1 ensures Ties(x[j], y[j], os[j]) { assert Ties(a[j + 1], b[j + 1], orders[j + 1]); }
      }
      assert ComesFirst(a[0], b[0], orders[0]) ==> DecidedAt(orders, a, b, 0);
      assert AllTie(orders, a, b) <==> Ties(a[0], b[0], orders[0]) && AllTie(os, x, y) by {
        if Ties(a[0], b[0], orders[0]) && AllTie(os, x, y) {
          forall j | 0 <= j < |orders| ensures Ties(a[j], b[j], orders[j]) {
            if j > 0 { assert Ties(x[j - 1], y[j - 1], os[j - 1]); }
          }
        }
        if AllTie(orders, a, b) {
          forall j | 0 <= j < |os| ensures Ties(x[j], y[j], os[j]) { assert Ties(a[j + 1], b[j + 1], orders[j + 1]); }
        }
      }
    }
  }

  /** A member is to come before another: by the first key that tells them apart, or by
      the smaller id if none does. */
  ghost predicate GoesBefore(orders: seq<SortOrder>, a: Member, b: Member)
    requires |a.key| == |b.key| == |orders|
  {
    || (exists k :: DecidedAt(orders, a.key, b.key, k))
    || (AllTie(orders, a.key, b.key) && BytesLess(a.id, b.id))
  }

  lemma OrderRuns(orders: seq<SortOrder>, a: Member, b: Member)
    requires |a.key| == |b.key| == |orders|
    ensures Before(orders, a, b) <==> GoesBefore(orders, a, b)
  {
    KeysRun(orders, a.key, b.key);
    BytesRun(a.id, b.id);
    hide CompareKeys, CompareBytes, DecidedAt, AllTie, BytesLess;
  }

  // ---------------------------------------------------------------- the view

  /** `m` is a match of the state `docs`, with its place in it. */
  ghost predicate IsMatch(f: Filter, docs: Docs, m: Member) {
    m.id in docs && f.matches(docs[m.id]) && MemberOf(f, m.id, docs[m.id]) == Some(m)
  }

  /** Strictly in order, each document once. */
  ghost predicate Ordered(orders: seq<SortOrder>, list: seq<Member>) {
    && (forall i :: 0 <= i < |list| ==> |list[i].key| == |orders|)
    && (forall i, j :: 0 <= i < j < |list| ==>
          list[i].id != list[j].id && Before(orders, list[i], list[j]))
  }

  /** What a sorted live query is: the matches in order, all of them, or the
      first `limit`. This says nothing of how it is found. */
  ghost predicate IsView(f: Filter, docs: Docs, list: seq<Member>) {
    && Ordered(Orders(f), list)
    && (forall m <- list :: IsMatch(f, docs, m))
    && (f.limit.Some? ==> |list| <= f.limit.value)
    && (forall m | IsMatch(f, docs, m) && m !in list ::
          && f.limit.Some? && |list| == f.limit.value
          && forall k <- list :: Before(Orders(f), k, m))
  }

  /** The list runs that way, and all it leaves out comes after all it has. */
  lemma ViewRuns(f: Filter, docs: Docs, list: seq<Member>)
    requires IsView(f, docs, list)
    ensures forall i, j :: 0 <= i < j < |list| ==>
              && |list[i].key| == |list[j].key| == |Orders(f)| && GoesBefore(Orders(f), list[i], list[j])
    ensures forall m, k :: IsMatch(f, docs, m) && m !in list && k in list && |m.key| == |k.key| == |Orders(f)| ==>
              GoesBefore(Orders(f), k, m)
  {
    hide IsMatch, GoesBefore, Orders;
    forall i, j | 0 <= i < j < |list|
      ensures |list[i].key| == |list[j].key| == |Orders(f)| && GoesBefore(Orders(f), list[i], list[j])
    {
      OrderRuns(Orders(f), list[i], list[j]);
    }
    forall m, k | IsMatch(f, docs, m) && m !in list && k in list && |m.key| == |k.key| == |Orders(f)|
      ensures GoesBefore(Orders(f), k, m)
    {
      OrderRuns(Orders(f), k, m);
    }
  }

  /** Two lists in order with the same members are the same list. */
  lemma {:induction false} OrderedIsUnique(orders: seq<SortOrder>, a: seq<Member>, b: seq<Member>)
    requires Ordered(orders, a) && Ordered(orders, b)
    requires forall m :: m in a <==> m in b
    ensures a == b
  {
    assert a != [] ==> a[0] in a;
    assert b != [] ==> b[0] in b;
    if a != [] {
      SameFirst(orders, a, b);
      RestHolds(orders, a);
      RestHolds(orders, b);
      OrderedIsUnique(orders, a[1..], b[1..]);
    }
  }

  lemma SameFirst(orders: seq<SortOrder>, a: seq<Member>, b: seq<Member>)
    requires Ordered(orders, a) && Ordered(orders, b) && a != [] && b != []
    requires a[0] in b && b[0] in a
    ensures a[0] == b[0]
  {
    var i :| 0 <= i < |a| && a[i] == b[0];
    var j :| 0 <= j < |b| && b[j] == a[0];
    OrderIsTotal(orders, a[0], b[0]);
  }

  lemma RestHolds(orders: seq<SortOrder>, list: seq<Member>)
    requires Ordered(orders, list) && list != []
    ensures Ordered(orders, list[1..])
    ensures forall m :: m in list[1..] <==> m in list && m != list[0]
  {
  }

  ghost function MembersOf(list: seq<Member>): (members: set<Member>) {
    set m | m in list
  }

  lemma {:induction false} DistinctCount(orders: seq<SortOrder>, list: seq<Member>)
    requires Ordered(orders, list)
    ensures |MembersOf(list)| == |list|
  {
    if list != [] {
      RestHolds(orders, list);
      DistinctCount(orders, list[1..]);
      hide Ordered;
      assert MembersOf(list) == {list[0]} + MembersOf(list[1..]);
    }
  }

  /** A state has one view: the list is all there is to know of it. */
  lemma ViewIsUnique(f: Filter, docs: Docs, a: seq<Member>, b: seq<Member>)
    requires IsView(f, docs, a) && IsView(f, docs, b)
    ensures a == b
  {
    forall m ensures m in a <==> m in b {
      if m in a { ViewHolds(f, docs, a, b, m); }
      if m in b { ViewHolds(f, docs, b, a, m); }
    }
    OrderedIsUnique(Orders(f), a, b);
  }

  lemma ViewHolds(f: Filter, docs: Docs, a: seq<Member>, b: seq<Member>, m: Member)
    requires IsView(f, docs, a) && IsView(f, docs, b) && m in a
    ensures m in b
  {
    if m !in b {
      // `b` is full and comes before `m`, so all of it is in `a`, with `m`.
      forall k | k in b ensures k in a {
        assert Before(Orders(f), k, m);
        OrderIsTotal(Orders(f), k, m);
      }
      FewerMembers(Orders(f), b, a, m);
    }
  }

  lemma FewerMembers(orders: seq<SortOrder>, some: seq<Member>, more: seq<Member>, extra: Member)
    requires Ordered(orders, some) && Ordered(orders, more)
    requires (forall m <- some :: m in more) && extra in more && extra !in some
    ensures |some| < |more|
  {
    DistinctCount(orders, some);
    DistinctCount(orders, more);
    var (ss, ms) := (MembersOf(some), MembersOf(more));
    assert ss <= ms && extra in ms - ss;
    assert |ms| == |ss| + |ms - ss|;
  }

  // ------------------------------------------------------ the reader's events

  /** What a live query reports. With a sort each event says where in the list;
      without one the places are `None`. */
  datatype Live =
    | Entered(id: DocId, doc: Document, at: Option<nat>)
    | Left(id: DocId, gone: Option<Document>, from: Option<nat>)
    | Changed(id: DocId, doc: Document, from: Option<nat>, at: Option<nat>)

  datatype Row = Row(id: DocId, doc: Document)

  /** A reader's copy of the query: the list a sorted one is, or the documents
      that match, by id. */
  datatype Copy = Listed(rows: seq<Row>) | Keyed(docs: Docs)

  function TakeOut<T>(list: seq<T>, from: nat): (rest: seq<T>)
    requires from < |list|
  {
    list[..from] + list[from + 1..]
  }

  function PutIn<T>(list: seq<T>, at: nat, x: T): (longer: seq<T>)
    requires at <= |list|
  {
    list[..at] + [x] + list[at..]
  }

  /** One event applied: take out at `from`, put in at `at`. Nothing if a place
      is out of range, or holds another document than the event names. */
  function Replay(copy: Copy, e: Live): (after: Option<Copy>) {
    match (copy, e)
    case (Listed(rows), Entered(id, doc, Some(at))) =>
      if at <= |rows| then Some(Listed(PutIn(rows, at, Row(id, doc)))) else None
    case (Listed(rows), Left(id, _, Some(from))) =>
      if from < |rows| && rows[from].id == id then Some(Listed(TakeOut(rows, from))) else None
    case (Listed(rows), Changed(id, doc, Some(from), Some(at))) =>
      if from < |rows| && rows[from].id == id && at < |rows|
      then Some(Listed(PutIn(TakeOut(rows, from), at, Row(id, doc))))
      else None
    case (Keyed(docs), Entered(id, doc, None)) =>
      if id !in docs then Some(Keyed(docs[id := doc])) else None
    case (Keyed(docs), Left(id, _, None)) =>
      if id in docs then Some(Keyed(docs - {id})) else None
    case (Keyed(docs), Changed(id, doc, None, None)) =>
      if id in docs then Some(Keyed(docs[id := doc])) else None
    case _ => None
  }

  function ReplayAll(copy: Copy, events: seq<Live>): (after: Option<Copy>) {
    if events == [] then Some(copy)
    else
      var before := ReplayAll(copy, events[..|events| - 1]);
      if before.None? then None else Replay(before.value, events[|events| - 1])
  }

  lemma {:induction false} ReplayAppend(copy: Copy, first: seq<Live>, more: seq<Live>)
    requires ReplayAll(copy, first).Some?
    ensures ReplayAll(copy, first + more) == ReplayAll(ReplayAll(copy, first).value, more)
  {
    if more == [] {
      assert first + more == first;
    } else {
      var n := |more| - 1;
      assert (first + more)[..|first + more| - 1] == first + more[..n];
      ReplayAppend(copy, first, more[..n]);
    }
  }

  lemma ReplayOneMore(copy: Copy, events: seq<Live>, e: Live)
    requires ReplayAll(copy, events).Some?
    ensures ReplayAll(copy, events + [e]) == Replay(ReplayAll(copy, events).value, e)
  {
    assert (events + [e])[..|events + [e]| - 1] == events;
  }

  // ------------------------------------------------- what a commit has written

  /** A document of a state, or nothing. */
  function Lookup(docs: Docs, id: DocId): (doc: Option<Document>) {
    if id in docs then Some(docs[id]) else None
  }

  /** The document an id has in a state; `Null` stands in where it has none. */
  function DocAt(docs: Docs, id: DocId): (doc: Document) {
    if id in docs then docs[id] else Null
  }

  function Put(docs: Docs, id: DocId, now: Option<Document>): (after: Docs) {
    if now.Some? then docs[id := now.value] else docs - {id}
  }

  type Pending = seq<(DocId, Option<Document>)>

  /** The state after a commit's writes, one after another. */
  function Written(docs: Docs, pending: Pending): (after: Docs) {
    if pending == [] then docs
    else
      var last := pending[|pending| - 1];
      Put(Written(docs, pending[..|pending| - 1]), last.0, last.1)
  }

  /** The commit's documents by id, a later write in place of an earlier. */
  function Collected(pending: Pending): (byId: map<DocId, Option<Document>>) {
    if pending == [] then map[]
    else
      var last := pending[|pending| - 1];
      Collected(pending[..|pending| - 1])[last.0 := last.1]
  }

  /** `after` is `before` with the documents of `byId` written. */
  ghost predicate Wrote(before: Docs, after: Docs, byId: map<DocId, Option<Document>>) {
    forall id :: Lookup(after, id) == if id in byId then byId[id] else Lookup(before, id)
  }

  lemma {:induction false} CollectedWrote(docs: Docs, pending: Pending)
    ensures Wrote(docs, Written(docs, pending), Collected(pending))
  {
    if pending != [] {
      CollectedWrote(docs, pending[..|pending| - 1]);
    }
  }

  // ------------------------------------------------------------- the new list

  /** A match known without reading again, and its document if it was read. */
  datatype Known = Known(member: Member, doc: Option<Document>)

  function Places(known: seq<Known>): (list: seq<Member>)
    ensures |list| == |known|
  {
    seq(|known|, i requires 0 <= i < |known| => known[i].member)
  }

  /** The only matches left out were not written, and were left out before. */
  ghost predicate OnlyOldLeftOut(
    f: Filter, docs: Docs, byId: map<DocId, Option<Document>>, members: seq<Member>, list: seq<Member>)
  {
    forall m | IsMatch(f, docs, m) && m !in list :: m.id !in byId && m !in members
  }

  /** How many entries at the start come no later than `last`. */
  function UpTo(orders: seq<SortOrder>, last: Member, list: seq<Member>): (n: nat)
    ensures n <= |list|
    ensures forall i :: 0 <= i < n ==> Order(orders, list[i], last) <= 0
  {
    if list == [] || Order(orders, list[0], last) > 0 then 0
    else
      var n := UpTo(orders, last, list[1..]);
      assert forall i :: 0 < i <= n ==> list[i] == list[1..][i - 1];
      n + 1
  }

  predicate Full(f: Filter, members: seq<Member>) {
    f.limit.Some? && f.limit.value > 0 && |members| >= f.limit.value
  }

  lemma OldMatch(f: Filter, base: Docs, docs: Docs, byId: map<DocId, Option<Document>>, m: Member)
    requires Wrote(base, docs, byId) && m.id !in byId
    ensures IsMatch(f, docs, m) <==> IsMatch(f, base, m)
  {
    assert Lookup(docs, m.id) == Lookup(base, m.id);
  }

  /** The certain prefix: what is known up to a full list's old last member is
      the start of the new list, so `limit` of it is the new list. */
  lemma CertainPrefix(
    f: Filter, base: Docs, docs: Docs, byId: map<DocId, Option<Document>>,
    members: seq<Member>, list: seq<Member>, limit: nat)
    requires IsView(f, base, members) && Wrote(base, docs, byId)
    requires Full(f, members) && limit == f.limit.value
    requires Ordered(Orders(f), list) && (forall m <- list :: IsMatch(f, docs, m))
    requires OnlyOldLeftOut(f, docs, byId, members, list)
    requires UpTo(Orders(f), members[|members| - 1], list) >= limit
    ensures IsView(f, docs, list[..limit])
  {
    var orders := Orders(f);
    var last := members[|members| - 1];
    forall m | IsMatch(f, docs, m) && m !in list[..limit]
      ensures forall k <- list[..limit] :: Before(orders, k, m)
    {
      forall k | k in list[..limit] ensures Before(orders, k, m) {
        var i :| 0 <= i < limit && list[i] == k;
        if m in list {
          var j :| 0 <= j < |list| && list[j] == m;
          assert j >= limit;
        } else {
          OldMatch(f, base, docs, byId, m);
          assert Before(orders, last, m);
          AtMostThenBefore(orders, k, last, m);
        }
      }
    }
  }

  lemma AtMostThenBefore(orders: seq<SortOrder>, a: Member, b: Member, c: Member)
    requires |a.key| == |b.key| == |c.key| == |orders|
    requires Order(orders, a, b) <= 0 && Before(orders, b, c)
    ensures Before(orders, a, c)
  {
    if Order(orders, a, b) < 0 {
      OrderIsTransitive(orders, a, b, c);
    } else {
      OrderIsTotal(orders, a, b);
      KeysAreTransitive(orders, a.key, b.key, c.key);
    }
  }

  /** The list's length once cut to the limit. */
  function Taken(f: Filter, n: nat): (taken: nat)
    ensures taken <= n
  {
    if f.limit.Some? && f.limit.value < n then f.limit.value else n
  }

  lemma AllThenTake(f: Filter, docs: Docs, list: seq<Member>)
    requires Ordered(Orders(f), list) && (forall m <- list :: IsMatch(f, docs, m))
    requires forall m | IsMatch(f, docs, m) :: m in list
    ensures IsView(f, docs, list[..Taken(f, |list|)])
  {
    var n := Taken(f, |list|);
    assert forall i :: 0 <= i < n ==> list[i] in list[..n];
    forall m | IsMatch(f, docs, m) && m !in list[..n]
      ensures n < |list| && forall k <- list[..n] :: Before(Orders(f), k, m)
    {
      var j :| 0 <= j < |list| && list[j] == m;
      assert j >= n;
    }
  }

  /** A list that is not full held every match, so what is known is all. */
  lemma NotFullHoldsAll(
    f: Filter, base: Docs, docs: Docs, byId: map<DocId, Option<Document>>,
    members: seq<Member>, list: seq<Member>)
    requires IsView(f, base, members) && Wrote(base, docs, byId) && !Full(f, members)
    requires Ordered(Orders(f), list) && (forall m <- list :: IsMatch(f, docs, m))
    requires OnlyOldLeftOut(f, docs, byId, members, list)
    ensures IsView(f, docs, list[..Taken(f, |list|)])
  {
    if f.limit != Some(0) {
      forall m | IsMatch(f, docs, m) ensures m in list {
        if m.id !in byId { OldMatch(f, base, docs, byId, m); }
      }
      AllThenTake(f, docs, list);
    }
  }

  // ------------------------------------------------------- places in the list

  /** `partition_point`: how many members at the start come before `m`. */
  function Place(orders: seq<SortOrder>, list: seq<Member>, m: Member): (at: nat)
    ensures at <= |list|
    ensures forall i :: 0 <= i < at ==> Before(orders, list[i], m)
    ensures at < |list| ==> !Before(orders, list[at], m)
  {
    if list == [] || !Before(orders, list[0], m) then 0
    else
      var at := Place(orders, list[1..], m);
      assert forall i :: 0 < i <= at ==> list[i] == list[1..][i - 1];
      at + 1
  }

  lemma TakeOutKeepsOrder(orders: seq<SortOrder>, list: seq<Member>, from: nat)
    requires Ordered(orders, list) && from < |list|
    ensures Ordered(orders, TakeOut(list, from))
    ensures forall m :: m in TakeOut(list, from) <==> m in list && m != list[from]
    ensures forall m <- TakeOut(list, from) :: m.id != list[from].id
  {
    var rest := TakeOut(list, from);
    assert forall i :: 0 <= i < from ==> rest[i] == list[i];
    assert forall i :: from < i < |list| ==> rest[i - 1] == list[i];
  }

  /** Put in where `partition_point` says, the list stays in order. */
  lemma PutInKeepsOrder(orders: seq<SortOrder>, list: seq<Member>, m: Member)
    requires Ordered(orders, list) && |m.key| == |orders|
    requires forall k <- list :: k.id != m.id
    ensures var longer := PutIn(list, Place(orders, list, m), m);
            Ordered(orders, longer) && forall k :: k in longer <==> k in list || k == m
  {
    hide Order;
    var at := Place(orders, list, m);
    var longer := PutIn(list, at, m);
    PutInHolds(list, at, m);
    hide PutIn;
    forall i | at <= i < |list| ensures Before(orders, m, list[i]) {
      OrderIsTotal(orders, m, list[at]);
      if i > at { OrderIsTransitive(orders, m, list[at], list[i]); }
    }
    forall i, j | 0 <= i < j < |longer|
      ensures longer[i].id != longer[j].id && Before(orders, longer[i], longer[j])
    {
      var x, y := longer[i], longer[j];
      assert x == if i < at then list[i] else if i == at then m else list[i - 1];
      assert y == if j < at then list[j] else if j == at then m else list[j - 1];
    }
  }

  lemma PutInHolds<T>(list: seq<T>, at: nat, x: T)
    requires at <= |list|
    ensures |PutIn(list, at, x)| == |list| + 1
    ensures forall i {:trigger PutIn(list, at, x)[i]} :: 0 <= i <= |list| ==>
              PutIn(list, at, x)[i] == if i < at then list[i] else if i == at then x else list[i - 1]
    ensures forall k :: k in PutIn(list, at, x) <==> k in list || k == x
  {
    assert list == list[..at] + list[at..];
  }

  /** A sort of what is known, by its places. */
  function Sorted(orders: seq<SortOrder>, known: seq<Known>): (sorted: seq<Known>)
    requires forall k <- known :: |k.member.key| == |orders|
    requires DistinctIds(known)
    ensures Ordered(orders, Places(sorted))
    ensures forall k :: k in sorted <==> k in known
  {
    if known == [] then []
    else
      var rest := Sorted(orders, known[1..]);
      var at := Place(orders, Places(rest), known[0].member);
      SortedStep(orders, rest, known[0]);
      PutIn(rest, at, known[0])
  }

  lemma SortedStep(orders: seq<SortOrder>, rest: seq<Known>, k: Known)
    requires Ordered(orders, Places(rest)) && |k.member.key| == |orders|
    requires forall r <- rest :: r.member.id != k.member.id
    ensures var sorted := PutIn(rest, Place(orders, Places(rest), k.member), k);
            Ordered(orders, Places(sorted)) && forall x :: x in sorted <==> x in rest || x == k
  {
    var at := Place(orders, Places(rest), k.member);
    PutInKeepsOrder(orders, Places(rest), k.member);
    PutInHolds(rest, at, k);
    PlacesOfPutIn(rest, at, k);
    hide PutIn, Ordered, Places;
  }

  lemma PlacesOfPutIn(rest: seq<Known>, at: nat, k: Known)
    requires at <= |rest|
    ensures Places(PutIn(rest, at, k)) == PutIn(Places(rest), at, k.member)
  {
  }

  // --------------------------------------------------- the copy at each step

  /** A list as a reader has it: each member's document, cut to the select. */
  function Rows(f: Filter, docs: Docs, list: seq<Member>): (rows: seq<Row>)
    ensures |rows| == |list|
  {
    seq(|list|, i requires 0 <= i < |list| => Row(list[i].id, f.select(DocAt(docs, list[i].id))))
  }

  /** An event as it is sent: its document cut to the filter's select. */
  function Cut(f: Filter, e: Live): (cut: Live) {
    match e
    case Entered(id, doc, at) => Entered(id, f.select(doc), at)
    case Changed(id, doc, from, at) => Changed(id, f.select(doc), from, at)
    case Left(id, None, from) => e
    case Left(id, Some(doc), from) => Left(id, Some(f.select(doc)), from)
  }

  lemma ReplayLeft(f: Filter, shown: Docs, list: seq<Member>, i: nat, gone: Option<Document>)
    requires i < |list|
    ensures Replay(Listed(Rows(f, shown, list)), Cut(f, Left(list[i].id, gone, Some(i))))
         == Some(Listed(Rows(f, shown, TakeOut(list, i))))
  {
    assert TakeOut(Rows(f, shown, list), i) == Rows(f, shown, TakeOut(list, i));
  }

  lemma RowsPutIn(f: Filter, shown: Docs, list: seq<Member>, at: nat, m: Member, doc: Document)
    requires at <= |list| && forall k <- list :: k.id != m.id
    ensures PutIn(Rows(f, shown, list), at, Row(m.id, f.select(doc)))
         == Rows(f, shown[m.id := doc], PutIn(list, at, m))
  {
    PutInHolds(list, at, m);
    PutInHolds(Rows(f, shown, list), at, Row(m.id, f.select(doc)));
    hide PutIn;
    var was := PutIn(Rows(f, shown, list), at, Row(m.id, f.select(doc)));
    var now := Rows(f, shown[m.id := doc], PutIn(list, at, m));
    forall i | 0 <= i < |was| ensures was[i] == now[i] {
      if i == at {
        assert PutIn(list, at, m)[i] == m;
        assert DocAt(shown[m.id := doc], m.id) == doc;
        assert was[i] == Row(m.id, f.select(doc));
        assert now[i] == Row(m.id, f.select(doc));
      } else {
        var j := if i < at then i else i - 1;
        assert list[j] in list;
        assert was[i] == Rows(f, shown, list)[j];
        assert PutIn(list, at, m)[i] == list[j];
        assert DocAt(shown[m.id := doc], list[j].id) == DocAt(shown, list[j].id);
        assert was[i] == Row(list[j].id, f.select(DocAt(shown, list[j].id)));
        assert now[i] == Row(list[j].id, f.select(DocAt(shown, list[j].id)));
      }
    }
  }

  lemma ReplayEntered(f: Filter, shown: Docs, list: seq<Member>, at: nat, m: Member, doc: Document)
    requires at <= |list| && forall k <- list :: k.id != m.id
    ensures Replay(Listed(Rows(f, shown, list)), Cut(f, Entered(m.id, doc, Some(at))))
         == Some(Listed(Rows(f, shown[m.id := doc], PutIn(list, at, m))))
  {
    RowsPutIn(f, shown, list, at, m, doc);
  }

  lemma ReplayChanged(
    f: Filter, shown: Docs, list: seq<Member>, from: nat, at: nat, m: Member, doc: Document)
    requires from < |list| && list[from].id == m.id && at < |list|
    requires forall k <- TakeOut(list, from) :: k.id != m.id
    ensures Replay(Listed(Rows(f, shown, list)), Cut(f, Changed(m.id, doc, Some(from), Some(at))))
         == Some(Listed(Rows(f, shown[m.id := doc], PutIn(TakeOut(list, from), at, m))))
  {
    assert TakeOut(Rows(f, shown, list), from) == Rows(f, shown, TakeOut(list, from));
    RowsPutIn(f, shown, TakeOut(list, from), at, m, doc);
  }

  /** One step of the list itself, as an event says it. */
  ghost predicate Moves(before: seq<Member>, e: Live, after: seq<Member>) {
    match e
    case Left(id, _, Some(from)) =>
      from < |before| && before[from].id == id && after == TakeOut(before, from)
    case Entered(id, _, Some(at)) =>
      at <= |before| && at < |after| && after[at].id == id && after == PutIn(before, at, after[at])
    case Changed(id, _, Some(from), Some(at)) =>
      && from < |before| && before[from].id == id
      && at < |before| && at < |after| && after[at].id == id
      && after == PutIn(TakeOut(before, from), at, after[at])
    case _ => false
  }

  /** The lists `events` pass through, each strictly in order. */
  ghost predicate Steps(orders: seq<SortOrder>, events: seq<Live>, lists: seq<seq<Member>>) {
    && |lists| == |events| + 1
    && (forall k :: 0 <= k < |lists| ==> Ordered(orders, lists[k]))
    && (forall k :: 0 <= k < |events| ==> Moves(lists[k], events[k], lists[k + 1]))
  }

  lemma OneMoreStep(
    orders: seq<SortOrder>, events: seq<Live>, lists: seq<seq<Member>>, e: Live, after: seq<Member>)
    requires Steps(orders, events, lists) && Ordered(orders, after)
    requires Moves(lists[|events|], e, after)
    ensures Steps(orders, events + [e], lists + [after])
  {
    hide Moves, Ordered;
  }

  // ------------------------------------------------------------- the watcher

  /** `find_at`: the filter's matches in order, at most `limit`, read from the
      state itself. */
  method FindAt(f: Filter, docs: Docs) returns (found: seq<Known>)
    ensures IsView(f, docs, Places(found))
    ensures forall k <- found :: k.member.id in docs && k.doc == Some(docs[k.member.id])
  {
    var orders := Orders(f);
    found := [];
    var todo := docs.Keys;
    while todo != {}
      invariant todo <= docs.Keys
      invariant Ordered(orders, Places(found))
      invariant forall k <- found ::
        IsMatch(f, docs, k.member) && k.member.id !in todo && k.doc == Some(docs[k.member.id])
      invariant forall m | IsMatch(f, docs, m) && m.id !in todo :: Known(m, Some(docs[m.id])) in found
      decreases todo
    {
      var id :| id in todo;
      todo := todo - {id};
      var member := MemberOf(f, id, docs[id]);
      if f.matches(docs[id]) && member.Some? {
        var k := Known(member.value, Some(docs[id]));
        SortedStep(orders, found, k);
        hide PutIn, Ordered, Places;
        found := PutIn(found, Place(orders, Places(found), k.member), k);
      }
    }
    PlacesHold(found);
    hide Ordered;
    AllThenTake(f, docs, Places(found));
    var n := Taken(f, |found|);
    assert Places(found[..n]) == Places(found)[..n];
    found := found[..n];
  }

  lemma PlacesHold(known: seq<Known>)
    ensures forall m :: m in Places(known) <==> exists k <- known :: k.member == m
  {
    forall k | k in known ensures k.member in Places(known) {
      var i :| 0 <= i < |known| && known[i] == k;
      assert Places(known)[i] == k.member;
    }
  }

  /** Entries as `reorder` takes them: matches of the state, a written or a new
      one with its document, any other a member of the list before. */
  ghost predicate Fresh(
    f: Filter, docs: Docs, byId: map<DocId, Option<Document>>, members: seq<Member>, known: seq<Known>)
  {
    forall k <- known ::
      && IsMatch(f, docs, k.member)
      && (k.doc.Some? ==> k.doc == Some(docs[k.member.id]))
      && (k.doc.None? ==> k.member in members && k.member.id !in byId)
  }

  predicate DistinctIds(known: seq<Known>) {
    forall i, j :: 0 <= i < j < |known| ==> known[i].member.id != known[j].member.id
  }

  /** The list's documents not written, as they were. */
  method Unwritten(members: seq<Member>, byId: map<DocId, Option<Document>>) returns (known: seq<Known>)
    requires forall i, j :: 0 <= i < j < |members| ==> members[i].id != members[j].id
    ensures DistinctIds(known)
    ensures forall k :: k in known <==> k.doc.None? && k.member in members && k.member.id !in byId
  {
    known := [];
    for i := 0 to |members|
      invariant forall k :: k in known <==> k.doc.None? && k.member in members[..i] && k.member.id !in byId
      invariant DistinctIds(known)
    {
      if members[i].id !in byId {
        known := known + [Known(members[i], None)];
      }
      assert members[..i + 1] == members[..i] + [members[i]];
    }
    assert members[..|members|] == members;
  }

  /** What is known to match now: the list's documents not written, as they
      were, and the written ones that match. */
  method KnownNow(
    f: Filter, members: seq<Member>, byId: map<DocId, Option<Document>>, ghost base: Docs, ghost docs: Docs)
    returns (known: seq<Known>)
    requires IsView(f, base, members) && Wrote(base, docs, byId)
    ensures Ordered(Orders(f), Places(known))
    ensures Fresh(f, docs, byId, members, known)
    ensures OnlyOldLeftOut(f, docs, byId, members, Places(known))
  {
    known := Unwritten(members, byId);
    forall m | m in members && m.id !in byId ensures IsMatch(f, docs, m) {
      OldMatch(f, base, docs, byId, m);
    }
    hide Ordered, IsView;
    var todo := byId.Keys;
    while todo != {}
      invariant todo <= byId.Keys
      invariant Fresh(f, docs, byId, members, known)
      invariant forall k <- known :: k.member.id !in todo
      invariant forall m <- members :: m.id !in byId ==> Known(m, None) in known
      invariant forall m | IsMatch(f, docs, m) && m.id in byId && m.id !in todo ::
        Known(m, Some(docs[m.id])) in known
      invariant DistinctIds(known)
      decreases todo
    {
      var id :| id in todo;
      todo := todo - {id};
      assert Lookup(docs, id) == byId[id];
      if byId[id].Some? && f.matches(byId[id].value) {
        var member := MemberOf(f, id, byId[id].value);
        if member.Some? {
          assert IsMatch(f, docs, member.value);
          known := known + [Known(member.value, byId[id])];
        }
      }
    }
    known := SortKnown(f, members, byId, known, docs);
  }

  /** Sorted, what is known is the same. */
  method SortKnown(
    f: Filter, members: seq<Member>, byId: map<DocId, Option<Document>>, all: seq<Known>, ghost docs: Docs)
    returns (known: seq<Known>)
    requires Fresh(f, docs, byId, members, all) && DistinctIds(all)
    requires forall m <- members :: m.id !in byId ==> Known(m, None) in all
    requires forall m | IsMatch(f, docs, m) && m.id in byId :: Known(m, Some(docs[m.id])) in all
    ensures Ordered(Orders(f), Places(known))
    ensures Fresh(f, docs, byId, members, known)
    ensures OnlyOldLeftOut(f, docs, byId, members, Places(known))
  {
    known := Sorted(Orders(f), all);
    PlacesHold(known);
  }

  /** The list after a commit: what is certain if that is enough, everything
      known where the list held every match, and else read again. */
  method NewList(
    f: Filter, members: seq<Member>, byId: map<DocId, Option<Document>>, ghost base: Docs, docs: Docs)
    returns (list: seq<Known>)
    requires IsView(f, base, members) && Wrote(base, docs, byId)
    ensures IsView(f, docs, Places(list))
    ensures Fresh(f, docs, byId, members, list)
  {
    var known := KnownNow(f, members, byId, base, docs);
    var places := Places(known);
    assert forall m <- places :: IsMatch(f, docs, m) by { PlacesHold(known); }
    if Full(f, members) {
      var limit := f.limit.value;
      var certain := UpTo(Orders(f), members[|members| - 1], places);
      if certain >= limit {
        CertainPrefix(f, base, docs, byId, members, places, limit);
        list := known[..limit];
        assert Places(list) == places[..limit];
      } else {
        list := FindAt(f, docs);
        PlacesHold(list);
      }
    } else {
      NotFullHoldsAll(f, base, docs, byId, members, places);
      var n := Taken(f, |known|);
      list := known[..n];
      assert Places(list) == places[..n];
    }
  }

  /** The steps from the list before to the one after, the events that say
      them, and what a reader's copy shows on the way. */
  ghost predicate Underway(
    f: Filter, members: seq<Member>, events: seq<Live>, lists: seq<seq<Member>>, start: Copy,
    list: seq<Member>, shown: Docs)
  {
    && Steps(Orders(f), events, lists)
    && lists[0] == members && lists[|events|] == list
    && ReplayAll(start, events) == Some(Listed(Rows(f, shown, list)))
  }

  lemma UnderwayStart(f: Filter, members: seq<Member>, shown: Docs)
    requires Ordered(Orders(f), members)
    ensures Underway(f, members, [], [members], Listed(Rows(f, shown, members)), members, shown)
  {
  }

  lemma LeaveOne(
    f: Filter, members: seq<Member>, events: seq<Live>, lists: seq<seq<Member>>, start: Copy,
    list: seq<Member>, shown: Docs, i: nat, doc: Option<Document>)
    requires Underway(f, members, events, lists, start, list, shown)
    requires Ordered(Orders(f), list) && i < |list|
    ensures var rest := TakeOut(list, i);
            var e := Cut(f, Left(list[i].id, doc, Some(i)));
            Ordered(Orders(f), rest) && Underway(f, members, events + [e], lists + [rest], start, rest, shown)
    ensures |TakeOut(list, i)| == |list| - 1 && forall j :: 0 <= j < i ==> TakeOut(list, i)[j] == list[j]
    ensures forall m :: m in TakeOut(list, i) <==> m in list && m != list[i]
  {
    TakeOutKeepsOrder(Orders(f), list, i);
    ReplayLeft(f, shown, list, i, doc);
    var e := Cut(f, Left(list[i].id, doc, Some(i)));
    UnderwayStep(f, members, events, lists, start, list, shown, e, TakeOut(list, i), shown);
  }

  lemma UnderwayStep(
    f: Filter, members: seq<Member>, events: seq<Live>, lists: seq<seq<Member>>, start: Copy,
    list: seq<Member>, shown: Docs, e: Live, after: seq<Member>, shownAfter: Docs)
    requires Underway(f, members, events, lists, start, list, shown)
    requires Ordered(Orders(f), after) && Moves(list, e, after)
    requires Replay(Listed(Rows(f, shown, list)), e) == Some(Listed(Rows(f, shownAfter, after)))
    ensures Underway(f, members, events + [e], lists + [after], start, after, shownAfter)
  {
    OneMoreStep(Orders(f), events, lists, e, after);
    ReplayOneMore(start, events, e);
    hide Moves, Ordered, Replay, ReplayAll, Rows, Orders;
  }

  /** The list while those gone are taken out, the first `i` looked at. */
  ghost predicate Staying(before: seq<Member>, list: seq<Member>, staying: set<DocId>, i: nat) {
    && i <= |list|
    && (forall j :: 0 <= j < i ==> list[j].id in staying)
    && (forall m <- list :: m in before)
    && (forall m <- before :: m.id in staying ==> m in list)
  }

  lemma AllStay(before: seq<Member>, staying: set<DocId>)
    ensures Staying(before, before, staying, 0)
  {
  }

  lemma StayOne(before: seq<Member>, list: seq<Member>, staying: set<DocId>, i: nat)
    requires Staying(before, list, staying, i) && i < |list|
    ensures if list[i].id in staying then Staying(before, list, staying, i + 1)
            else Staying(before, TakeOut(list, i), staying, i)
  {
    if list[i].id !in staying {
      var rest := TakeOut(list, i);
      forall m | m in before && m.id in staying ensures m in rest {
        var j :| 0 <= j < |list| && list[j] == m;
        assert if j < i then rest[j] == m else rest[j - 1] == m;
      }
    }
  }

  lemma AllStayed(before: seq<Member>, list: seq<Member>, staying: set<DocId>)
    requires Staying(before, list, staying, |list|)
    ensures forall m :: m in list <==> m in before && m.id in staying
  {
  }

  /** The list while the new entries go in, `n` of them done: those, and the
      members before whose turn comes later. */
  ghost predicate Merging(before: seq<Member>, places: seq<Member>, n: nat, list: seq<Member>)
    requires n <= |places|
  {
    && (forall m <- list :: m in places[..n] || (m in before && exists j :: n <= j < |places| && places[j].id == m.id))
    && (forall j :: 0 <= j < n ==> places[j] in list)
    && (forall m, j :: m in before && n <= j < |places| && places[j].id == m.id ==> m in list)
  }

  lemma MergeOne(
    orders: seq<SortOrder>, before: seq<Member>, places: seq<Member>, n: nat,
    list: seq<Member>, after: seq<Member>)
    requires Ordered(orders, places) && n < |places| && Merging(before, places, n, list)
    requires forall k :: k in after <==> (k in list && k.id != places[n].id) || k == places[n]
    ensures Merging(before, places, n + 1, after)
  {
    assert places[..n + 1] == places[..n] + [places[n]];
    assert forall j :: n < j < |places| ==> places[n].id != places[j].id;
    assert forall j :: 0 <= j < n ==> places[j].id != places[n].id;
    hide Ordered;
  }

  lemma MergeDone(orders: seq<SortOrder>, before: seq<Member>, places: seq<Member>, list: seq<Member>)
    requires Ordered(orders, places) && Ordered(orders, list)
    requires Merging(before, places, |places|, list)
    ensures list == places
  {
    assert places[..|places|] == places;
    OrderedIsUnique(orders, list, places);
  }

  /** What the copy shows is the state after, but for those still to be moved. */
  ghost predicate Showing(
    docs: Docs, byId: map<DocId, Option<Document>>, done: seq<Member>, list: seq<Member>, shown: Docs)
  {
    forall m <- list :: m.id !in byId || m in done ==> DocAt(shown, m.id) == DocAt(docs, m.id)
  }

  lemma ShowOne(
    orders: seq<SortOrder>, docs: Docs, byId: map<DocId, Option<Document>>,
    places: seq<Member>, n: nat, list: seq<Member>, after: seq<Member>, shown: Docs)
    requires Ordered(orders, places) && n < |places| && places[n].id in docs
    requires Showing(docs, byId, places[..n], list, shown)
    requires forall k :: k in after <==> (k in list && k.id != places[n].id) || k == places[n]
    ensures Showing(docs, byId, places[..n + 1], after, shown[places[n].id := docs[places[n].id]])
  {
    assert places[..n + 1] == places[..n] + [places[n]];
  }

  /** `position`: where the list has `id`. */
  function Position(list: seq<Member>, id: DocId): (at: nat)
    requires exists m <- list :: m.id == id
    ensures at < |list| && list[at].id == id
  {
    if list[0].id == id then 0 else 1 + Position(list[1..], id)
  }

  /** The state of the second pass, `n` entries done. */
  ghost predicate Passing(
    f: Filter, docs: Docs, byId: map<DocId, Option<Document>>, before: seq<Member>, places: seq<Member>,
    n: nat, start: Copy, events: seq<Live>, lists: seq<seq<Member>>, list: seq<Member>, shown: Docs)
    requires n <= |places|
  {
    && Ordered(Orders(f), list) && Merging(before, places, n, list)
    && Underway(f, before, events, lists, start, list, shown)
    && Showing(docs, byId, places[..n], list, shown)
  }

  /** A member before, not written, is in the list as it is in the new one. */
  lemma UnwrittenStays(
    f: Filter, base: Docs, docs: Docs, byId: map<DocId, Option<Document>>,
    before: seq<Member>, places: seq<Member>, n: nat, list: seq<Member>)
    requires IsView(f, base, before) && Wrote(base, docs, byId) && Ordered(Orders(f), list)
    requires n < |places| && IsMatch(f, docs, places[n]) && Merging(before, places, n, list)
    requires places[n].id !in byId && exists m <- before :: m.id == places[n].id
    ensures forall k :: k in list <==> (k in list && k.id != places[n].id) || k == places[n]
  {
    var m :| m in before && m.id == places[n].id;
    OldMatch(f, base, docs, byId, places[n]);
    assert m == places[n] && m in list;
  }

  /** A document not in the list before is not in it until its turn. */
  lemma NewIsAbsent(
    orders: seq<SortOrder>, before: seq<Member>, places: seq<Member>, n: nat, list: seq<Member>)
    requires Ordered(orders, places) && n < |places| && Merging(before, places, n, list)
    requires forall m <- before :: m.id != places[n].id
    ensures forall k <- list :: k.id != places[n].id
  {
    assert forall i :: 0 <= i < n ==> places[i].id != places[n].id;
  }

  /** A member before that stays is in the list until its turn. */
  lemma StayingIsPresent(before: seq<Member>, places: seq<Member>, n: nat, list: seq<Member>)
    requires n < |places| && Merging(before, places, n, list)
    requires exists m <- before :: m.id == places[n].id
    ensures exists m <- list :: m.id == places[n].id
  {
  }

  class Watcher {
    const filter: Filter
    /** Without a sort: the ids that match. */
    var matching: set<DocId>
    /** With a sort: the list, and the commit's documents not settled yet. */
    var members: seq<Member>
    var pending: Pending
    /** Everything sent so far. */
    var sent: seq<Live>

    /** The commits up to `base` are settled, and the writes since have made it
        `docs`; what was sent, replayed from nothing, is the query. */
    ghost predicate Holds(base: Docs, docs: Docs)
      reads this
    {
      if filter.Sorted() then
        && IsView(filter, base, members)
        && docs == Written(base, pending)
        && ReplayAll(Listed([]), sent) == Some(Listed(Rows(filter, base, members)))
      else
        && matching == MatchingIds(filter, docs)
        && ReplayAll(Keyed(map[]), sent) == Some(Keyed(KeyedView(filter, docs)))
    }

    /** Those no longer in the list taken out, first to last. */
    method TakeOutGone(
      staying: set<DocId>, byId: map<DocId, Option<Document>>, docs: Docs, ghost base: Docs)
      returns (events: seq<Live>, ghost lists: seq<seq<Member>>)
      requires IsView(filter, base, members) && Wrote(base, docs, byId)
      modifies this`members
      ensures Underway(filter, old(members), events, lists, Listed(Rows(filter, base, old(members))), members, base)
      ensures Ordered(Orders(filter), members)
      ensures forall m :: m in members <==> m in old(members) && m.id in staying
    {
      ghost var start := Listed(Rows(filter, base, members));
      events, lists := [], [members];
      UnderwayStart(filter, members, base);
      hide IsView, Underway, Wrote, Orders, Ordered, TakeOut, Staying, Lookup, Cut, Rows;
      assert Staying(members, members, staying, 0) by { AllStay(members, staying); }
      var i := 0;
      while i < |members|
        invariant i <= |members|
        invariant Ordered(Orders(filter), members)
        invariant Underway(filter, old(members), events, lists, start, members, base)
        invariant Staying(old(members), members, staying, i)
        decreases |members| - i
      {
        var id := members[i].id;
        StayOne(old(members), members, staying, i);
        if id in staying {
          i := i + 1;
        } else {
          var doc := if id in byId then byId[id] else Lookup(docs, id);
          LeaveOne(filter, old(members), events, lists, start, members, base, i, doc);
          events := events + [Cut(filter, Left(id, doc, Some(i)))];
          members := TakeOut(members, i);
          lists := lists + [members];
        }
      }
      AllStayed(old(members), members, staying);
    }

    /** Those written or come in, in their new order, each put in its place. */
    method PutInNew(
      list: seq<Known>, was: set<DocId>, byId: map<DocId, Option<Document>>,
      docs: Docs, ghost base: Docs, ghost before: seq<Member>, ghost start: Copy,
      events: seq<Live>, ghost lists: seq<seq<Member>>)
      returns (all: seq<Live>, ghost passed: seq<seq<Member>>, ghost shown: Docs)
      requires IsView(filter, base, before) && Wrote(base, docs, byId)
      requires IsView(filter, docs, Places(list)) && Fresh(filter, docs, byId, before, list)
      requires was == (set m | m in before :: m.id)
      requires Passing(filter, docs, byId, before, Places(list), 0, start, events, lists, members, base)
      modifies this`members
      ensures members == Places(list)
      ensures Underway(filter, before, all, passed, start, members, shown)
      ensures Showing(docs, byId, members, members, shown)
    {
      var orders := Orders(filter);
      ghost var places := Places(list);
      all, passed, shown := events, lists, base;
      assert Ordered(orders, places);
      hide Ordered, Underway, Merging, Showing, IsView, IsMatch;
      for n := 0 to |list|
        invariant Passing(filter, docs, byId, before, places, n, start, all, passed, members, shown)
      {
        var Known(member, doc) := list[n];
        var id := member.id;
        assert list[n] in list && places[n] == member && IsMatch(filter, docs, member);
        if id in was && id !in byId {
          UnwrittenStays(filter, base, docs, byId, before, places, n, members);
          SkipOne(filter, docs, byId, before, places, n, start, all, passed, members, shown);
        } else if id in was {
          StayingIsPresent(before, places, n, members);
          var from := Position(members, id);
          var to := Place(orders, TakeOut(members, from), member);
          var e := Cut(filter, Live.Changed(id, doc.value, Some(from), Some(to)));
          ChangeOne(filter, docs, byId, before, places, n, start, all, passed, members, shown, from);
          members := PutIn(TakeOut(members, from), to, member);
          all, passed := all + [e], passed + [members];
          shown := shown[id := docs[id]];
        } else {
          NewIsAbsent(orders, before, places, n, members);
          var to := Place(orders, members, member);
          var e := Cut(filter, Entered(id, doc.value, Some(to)));
          EnterOne(filter, docs, byId, before, places, n, start, all, passed, members, shown);
          members := PutIn(members, to, member);
          all, passed := all + [e], passed + [members];
          shown := shown[id := docs[id]];
        }
      }
      assert places[..|places|] == places;
      MergeDone(orders, before, places, members);
    }

    /** `reorder`: the list made anew from what the commit wrote, and the
        events that take the old list to it, each list between in order. */
    method Reorder(byId: map<DocId, Option<Document>>, docs: Docs, ghost base: Docs)
      returns (events: seq<Live>, ghost lists: seq<seq<Member>>)
      requires IsView(filter, base, members) && Wrote(base, docs, byId)
      modifies this`members
      ensures IsView(filter, docs, members)
      ensures Steps(Orders(filter), events, lists)
      ensures lists[0] == old(members) && lists[|events|] == members
      ensures ReplayAll(Listed(Rows(filter, base, old(members))), events)
           == Some(Listed(Rows(filter, docs, members)))
    {
      var list := NewList(filter, members, byId, base, docs);
      ghost var before, start := members, Listed(Rows(filter, base, members));
      var staying := set m | m in Places(list) :: m.id;
      var was := set m | m in members :: m.id;
      events, lists := TakeOutGone(staying, byId, docs, base);
      assert Merging(before, Places(list), 0, members) by { hide Ordered; }
      assert Showing(docs, byId, [], members, base) by {
        forall m | m in members && m.id !in byId ensures DocAt(base, m.id) == DocAt(docs, m.id) {
          assert Lookup(docs, m.id) == Lookup(base, m.id);
        }
      }
      assert Places(list)[..0] == [];
      ghost var shown;
      events, lists, shown := PutInNew(list, was, byId, docs, base, before, start, events, lists);
      assert Rows(filter, shown, members) == Rows(filter, docs, members) by {
        assert forall i :: 0 <= i < |members| ==> members[i] in members;
      }
    }

    /** `settle`: the commit seen whole, a sorted query's list is made anew and
        the steps sent. */
    method Settle(docs: Docs, ghost base: Docs)
      requires Holds(base, docs)
      modifies this`members, this`pending, this`sent
      ensures Holds(docs, docs) && old(sent) <= sent
      ensures if filter.Sorted() then pending == [] else sent == old(sent)
    {
      if filter.Sorted() && pending != [] {
        var byId := Collected(pending);
        CollectedWrote(base, pending);
        pending := [];
        ghost var was := sent;
        var events, _ := Reorder(byId, docs, base);
        ReplayAppend(Listed([]), was, events);
        sent := sent + events;
      }
    }

    /** `changed`: one document of the commit, `now` as the commit left it. A
        sorted query only takes note; any other reports at once. */
    method Changed(id: DocId, now: Option<Document>, ghost base: Docs, ghost docs: Docs)
      requires Holds(base, docs)
      modifies this`matching, this`pending, this`sent
      ensures Holds(base, Put(docs, id, now)) && old(sent) <= sent
      ensures if filter.Sorted() then sent == old(sent) else |sent| <= |old(sent)| + 1
    {
      if filter.Sorted() {
        ghost var longer := pending + [(id, now)];
        assert longer[..|longer| - 1] == pending;
        pending := pending + [(id, now)];
        return;
      }
      var was := id in matching;
      var is' := now.Some? && filter.matches(now.value);
      if !was && !is' {
        KeyedUnchanged(filter, docs, id, now);
        return;
      }
      var e := Cut(filter,
                   if !was then Entered(id, now.value, None)
                   else if !is' then Left(id, now, None)
                   else Live.Changed(id, now.value, None, None));
      matching := if is' then matching + {id} else matching - {id};
      KeyedStep(filter, docs, id, now, sent, e);
      sent := sent + [e];
    }

    /** `dropped`: the collection gone, each document that matched has left. */
    method Dropped(ghost docs: Docs)
      requires Holds(docs, docs) && (filter.Sorted() ==> pending == [])
      modifies this`matching, this`members, this`sent
      ensures Holds(map[], map[]) && old(sent) <= sent
      ensures forall e <- sent[|old(sent)|..] :: e.Left?
    {
      if filter.Sorted() {
        for i := 0 to |members|
          invariant members == old(members) && pending == []
          invariant old(sent) <= sent && forall e <- sent[|old(sent)|..] :: e.Left?
          invariant ReplayAll(Listed([]), sent) == Some(Listed(Rows(filter, docs, members[i..])))
        {
          var e := Left(members[i].id, None, Some(0));
          ReplayLeft(filter, docs, members[i..], 0, None);
          ReplayOneMore(Listed([]), sent, e);
          assert TakeOut(members[i..], 0) == members[i + 1..];
          sent := sent + [e];
        }
        members := [];
      } else {
        ghost var gone: Docs := docs;
        while matching != {}
          invariant matching == MatchingIds(filter, gone)
          invariant old(sent) <= sent && forall e <- sent[|old(sent)|..] :: e.Left?
          invariant ReplayAll(Keyed(map[]), sent) == Some(Keyed(KeyedView(filter, gone)))
          decreases matching
        {
          var id :| id in matching;
          var e := Cut(filter, Left(id, None, None));
          matching := matching - {id};
          KeyedStep(filter, gone, id, None, sent, e);
          gone := gone - {id};
          sent := sent + [e];
        }
        assert KeyedView(filter, gone) == map[] == KeyedView(filter, map[]);
      }
    }

    /** `start`: what matches when the query is made, each sent as entered. */
    constructor (f: Filter, docs: Docs)
      ensures filter == f && Holds(docs, docs) && pending == []
    {
      filter := f;
      matching, members, pending, sent := {}, [], [], [];
      new;
      if f.Sorted() {
        EnterInOrder(docs);
      } else {
        EnterEach(docs);
      }
    }

    method EnterInOrder(docs: Docs)
      requires filter.Sorted() && members == [] && pending == [] && sent == []
      modifies this`members, this`sent
      ensures Holds(docs, docs)
    {
      var found := FindAt(filter, docs);
      ghost var places := Places(found);
      for i := 0 to |found|
        invariant members == places[..i]
        invariant ReplayAll(Listed([]), sent) == Some(Listed(Rows(filter, docs, members)))
      {
        var Known(m, doc) := found[i];
        var e := Cut(filter, Entered(m.id, doc.value, Some(i)));
        EnterLast(filter, docs, places, i, doc.value);
        ReplayOneMore(Listed([]), sent, e);
        sent := sent + [e];
        members := members + [m];
      }
      assert places[..|found|] == places;
    }

    method EnterEach(docs: Docs)
      requires !filter.Sorted() && matching == {} && sent == []
      modifies this`matching, this`sent
      ensures Holds(docs, docs)
    {
      ghost var seen: Docs := map[];
      var todo := docs.Keys;
      assert KeyedView(filter, seen) == map[] && MatchingIds(filter, seen) == {};
      assert ReplayAll(Keyed(map[]), sent) == Some(Keyed(KeyedView(filter, seen)));
      while todo != {}
        invariant todo <= docs.Keys && seen.Keys == docs.Keys - todo
        invariant forall id <- seen :: seen[id] == docs[id]
        invariant matching == MatchingIds(filter, seen)
        invariant ReplayAll(Keyed(map[]), sent) == Some(Keyed(KeyedView(filter, seen)))
        decreases todo
      {
        hide KeyedView, MatchingIds, ReplayAll, Replay;
        var id :| id in todo;
        todo := todo - {id};
        if filter.matches(docs[id]) {
          var e := Cut(filter, Entered(id, docs[id], None));
          KeyedStep(filter, seen, id, Some(docs[id]), sent, e);
          matching := matching + {id};
          sent := sent + [e];
        } else {
          KeyedUnchanged(filter, seen, id, Some(docs[id]));
        }
        seen := seen[id := docs[id]];
      }
      assert seen == docs;
    }
  }

  /** Which documents of a state match. */
  ghost function MatchingIds(f: Filter, docs: Docs): (ids: set<DocId>) {
    set id | id in docs && f.matches(docs[id])
  }

  /** What an unsorted query shows of a state. */
  ghost function KeyedView(f: Filter, docs: Docs): (view: Docs) {
    map id | id in docs && f.matches(docs[id]) :: f.select(docs[id])
  }

  lemma KeyedUnchanged(f: Filter, docs: Docs, id: DocId, now: Option<Document>)
    requires !(id in docs && f.matches(docs[id])) && !(now.Some? && f.matches(now.value))
    ensures KeyedView(f, Put(docs, id, now)) == KeyedView(f, docs)
    ensures MatchingIds(f, Put(docs, id, now)) == MatchingIds(f, docs)
  {
    var after := Put(docs, id, now);
    assert forall k :: k != id ==> Lookup(after, k) == Lookup(docs, k);
    assert KeyedView(f, after).Keys == KeyedView(f, docs).Keys;
  }

  /** An unsorted query's event carries a copy from one state to the next. */
  lemma KeyedStep(f: Filter, docs: Docs, id: DocId, now: Option<Document>, events: seq<Live>, e: Live)
    requires ReplayAll(Keyed(map[]), events) == Some(Keyed(KeyedView(f, docs)))
    requires var was := id in docs && f.matches(docs[id]);
             var is' := now.Some? && f.matches(now.value);
             && (was || is')
             && e == Cut(f, if !was then Entered(id, now.value, None)
                            else if !is' then Left(id, now, None)
                            else Changed(id, now.value, None, None))
    ensures ReplayAll(Keyed(map[]), events + [e]) == Some(Keyed(KeyedView(f, Put(docs, id, now))))
    ensures MatchingIds(f, Put(docs, id, now))
         == if now.Some? && f.matches(now.value) then MatchingIds(f, docs) + {id} else MatchingIds(f, docs) - {id}
  {
    ReplayOneMore(Keyed(map[]), events, e);
    var was := KeyedView(f, docs);
    var after := Put(docs, id, now);
    assert forall k :: k != id ==> Lookup(after, k) == Lookup(docs, k);
    if now.Some? && f.matches(now.value) {
      assert KeyedView(f, after) == was[id := f.select(now.value)];
    } else {
      assert KeyedView(f, after) == was - {id};
    }
  }

  lemma EnterLast(f: Filter, docs: Docs, places: seq<Member>, i: nat, doc: Document)
    requires i < |places| && places[i].id in docs && docs[places[i].id] == doc
    requires forall j :: 0 <= j < i ==> places[j].id != places[i].id
    ensures Replay(Listed(Rows(f, docs, places[..i])), Cut(f, Entered(places[i].id, doc, Some(i))))
         == Some(Listed(Rows(f, docs, places[..i] + [places[i]])))
    ensures places[..i] + [places[i]] == places[..i + 1]
  {
    ReplayEntered(f, docs, places[..i], i, places[i], doc);
    assert docs[places[i].id := doc] == docs;
    assert PutIn(places[..i], i, places[i]) == places[..i] + [places[i]];
  }

  lemma SkipOne(
    f: Filter, docs: Docs, byId: map<DocId, Option<Document>>, before: seq<Member>, places: seq<Member>,
    n: nat, start: Copy, events: seq<Live>, lists: seq<seq<Member>>, list: seq<Member>, shown: Docs)
    requires Ordered(Orders(f), places) && n < |places| && places[n].id !in byId
    requires Passing(f, docs, byId, before, places, n, start, events, lists, list, shown)
    requires forall k :: k in list <==> (k in list && k.id != places[n].id) || k == places[n]
    ensures Passing(f, docs, byId, before, places, n + 1, start, events, lists, list, shown)
  {
    MergeOne(Orders(f), before, places, n, list, list);
    hide Ordered, Underway, Merging;
    assert places[..n + 1] == places[..n] + [places[n]];
  }

  lemma ChangeOne(
    f: Filter, docs: Docs, byId: map<DocId, Option<Document>>, before: seq<Member>, places: seq<Member>,
    n: nat, start: Copy, events: seq<Live>, lists: seq<seq<Member>>, list: seq<Member>, shown: Docs, from: nat)
    requires Ordered(Orders(f), places) && n < |places| && places[n].id in docs
    requires Passing(f, docs, byId, before, places, n, start, events, lists, list, shown)
    requires from < |list| && list[from].id == places[n].id
    ensures var to := Place(Orders(f), TakeOut(list, from), places[n]);
            var after := PutIn(TakeOut(list, from), to, places[n]);
            var doc := docs[places[n].id];
            var e := Cut(f, Changed(places[n].id, doc, Some(from), Some(to)));
            Passing(f, docs, byId, before, places, n + 1, start, events + [e], lists + [after], after,
                    shown[places[n].id := doc])
  {
    var m, orders := places[n], Orders(f);
    var rest := TakeOut(list, from);
    var to := Place(orders, rest, m);
    var after := PutIn(rest, to, m);
    TakeOutKeepsOrder(orders, list, from);
    PutInKeepsOrder(orders, rest, m);
    MergeOne(orders, before, places, n, list, after);
    ShowOne(orders, docs, byId, places, n, list, after, shown);
    ReplayChanged(f, shown, list, from, to, m, docs[m.id]);
    var e := Cut(f, Changed(m.id, docs[m.id], Some(from), Some(to)));
    assert after[to] == m;
    UnderwayStep(f, before, events, lists, start, list, shown, e, after, shown[m.id := docs[m.id]]);
  }

  lemma EnterOne(
    f: Filter, docs: Docs, byId: map<DocId, Option<Document>>, before: seq<Member>, places: seq<Member>,
    n: nat, start: Copy, events: seq<Live>, lists: seq<seq<Member>>, list: seq<Member>, shown: Docs)
    requires Ordered(Orders(f), places) && n < |places| && places[n].id in docs
    requires Passing(f, docs, byId, before, places, n, start, events, lists, list, shown)
    requires forall k <- list :: k.id != places[n].id
    ensures var to := Place(Orders(f), list, places[n]);
            var after := PutIn(list, to, places[n]);
            var doc := docs[places[n].id];
            var e := Cut(f, Entered(places[n].id, doc, Some(to)));
            Passing(f, docs, byId, before, places, n + 1, start, events + [e], lists + [after], after,
                    shown[places[n].id := doc])
  {
    var m, orders := places[n], Orders(f);
    var to := Place(orders, list, m);
    var after := PutIn(list, to, m);
    PutInKeepsOrder(orders, list, m);
    MergeOne(orders, before, places, n, list, after);
    ShowOne(orders, docs, byId, places, n, list, after, shown);
    ReplayEntered(f, shown, list, to, m, docs[m.id]);
    var e := Cut(f, Entered(m.id, docs[m.id], Some(to)));
    assert after[to] == m;
    UnderwayStep(f, before, events, lists, start, list, shown, e, after, shown[m.id := docs[m.id]]);
  }

  // --------------------------------------------------------- commits in a row

  /** A collection's documents in a state of the database. */
  function DocsOf(state: C.State, c: C.Name): (docs: Docs)
    ensures forall id :: Lookup(docs, id) == if C.Key(c, id) in state then Some(state[C.Key(c, id)]) else None
  {
    map key | key in state && key.collection == c :: key.id := state[key]
  }

  /** One change told to a collection: a document as the commit left it, or
      the whole collection gone. */
  function Tell(docs: Docs, c: C.Name, change: C.Change, after: Docs): (now: Docs) {
    match C.About(change)
    case Whole(name) => if name == c then map[] else docs
    case Doc(key) => if key.collection == c then Put(docs, key.id, Lookup(after, key.id)) else docs
  }

  /** A collection's documents as the changes tell them one after another. */
  function Follow(docs: Docs, c: C.Name, changes: seq<C.Change>, after: Docs): (now: Docs) {
    if changes == [] then docs
    else Tell(Follow(docs, c, changes[..|changes| - 1], after), c, changes[|changes| - 1], after)
  }

  ghost predicate DropsFirst(c: C.Name, changes: seq<C.Change>) {
    forall i, j :: 0 <= i < j < |changes| && changes[j] == C.Dropped(c) ==> !C.IsOf(C.About(changes[i]), c)
  }

  /** `check`, for one live query: each change of its collection seen, then the
      whole commit settled. */
  method Check(w: Watcher, c: C.Name, changes: seq<C.Change>, at: C.State, ghost before: Docs)
    requires w.Holds(before, before) && (w.filter.Sorted() ==> w.pending == [])
    requires DropsFirst(c, changes) && Follow(before, c, changes, DocsOf(at, c)) == DocsOf(at, c)
    modifies w
    ensures w.Holds(DocsOf(at, c), DocsOf(at, c)) && (w.filter.Sorted() ==> w.pending == [])
    ensures old(w.sent) <= w.sent
  {
    var docs := DocsOf(at, c);
    ghost var base := before;
    assert changes[..0] == [] && Follow(before, c, [], docs) == before;
    hide Put, Follow, DocsOf;
    for i := 0 to |changes|
      invariant w.Holds(base, Follow(before, c, changes[..i], docs)) && old(w.sent) <= w.sent
      invariant (forall j :: 0 <= j < i ==> !C.IsOf(C.About(changes[j]), c)) ==>
        base == Follow(before, c, changes[..i], docs) && (w.filter.Sorted() ==> w.pending == [])
    {
      ghost var seen := Follow(before, c, changes[..i], docs);
      FollowOne(before, c, changes, i, docs);
      match C.About(changes[i]) {
        case Whole(name) =>
          if name == c {
            w.Dropped(seen);
            base := map[];
          }
        case Doc(key) =>
          if key.collection == c {
            w.Changed(key.id, Lookup(docs, key.id), base, seen);
          }
      }
    }
    assert changes[..|changes|] == changes;
    w.Settle(docs, base);
  }

  lemma FollowOne(docs: Docs, c: C.Name, changes: seq<C.Change>, i: nat, after: Docs)
    requires i < |changes|
    ensures Follow(docs, c, changes[..i + 1], after)
         == Tell(Follow(docs, c, changes[..i], after), c, changes[i], after)
  {
    assert changes[..i + 1][..i] == changes[..i];
  }

  /** What is known of a document once the first `n` items are told. */
  ghost predicate TellsAt(
    c: C.Name, items: seq<C.Item>, n: nat, before: C.State, after: C.State, now: Docs, id: DocId)
    requires n <= |items|
  {
    Lookup(now, id) == if C.Doc(C.Key(c, id)) in items[..n] then Lookup(DocsOf(after, c), id)
                       else if C.Whole(c) in items[..n] then None
                       else Lookup(DocsOf(before, c), id)
  }

  lemma TellsOne(
    c: C.Name, items: seq<C.Item>, n: nat, before: C.State, after: C.State, now: Docs, id: DocId)
    requires C.InTurn(items) && n < |items| && TellsAt(c, items, n, before, after, now, id)
    ensures |C.Net(items[n], items, before, after)| <= 1
    ensures var step := C.Net(items[n], items, before, after);
            TellsAt(c, items, n + 1, before, after,
                    if step == [] then now else Tell(now, c, step[0], DocsOf(after, c)), id)
  {
    assert items[..n + 1] == items[..n] + [items[n]];
    match items[n]
    case Doc(key) =>
      C.WholeComesFirst(items, n);
      assert items[n] !in items[..n];
    case Whole(name) =>
      if name == c { assert forall item <- items[..n] :: !C.IsOf(item, c); }
  }

  /** What a batch reports tells the collection's documents: those not named
      are as they were, or gone with the collection. */
  lemma {:induction false} NetTells(
    c: C.Name, items: seq<C.Item>, n: nat, before: C.State, after: C.State, id: DocId)
    requires C.InTurn(items) && n <= |items|
    ensures var changes := C.NetOf(items[..n], items, before, after);
            TellsAt(c, items, n, before, after, Follow(DocsOf(before, c), c, changes, DocsOf(after, c)), id)
  {
    if n == 0 {
      assert items[..0] == [];
    } else {
      hide TellsAt, Tell, Follow, DocsOf, C.InTurn, C.Net;
      NetTells(c, items, n - 1, before, after, id);
      var first := C.NetOf(items[..n - 1], items, before, after);
      var step := C.Net(items[n - 1], items, before, after);
      assert C.NetOf(items[..n], items, before, after) == first + step by {
        assert items[..n][..n - 1] == items[..n - 1];
      }
      TellsOne(c, items, n - 1, before, after, Follow(DocsOf(before, c), c, first, DocsOf(after, c)), id);
      FollowNet(DocsOf(before, c), c, first, step, DocsOf(after, c));
    }
  }

  lemma FollowNet(docs: Docs, c: C.Name, first: seq<C.Change>, step: seq<C.Change>, after: Docs)
    requires |step| <= 1
    ensures Follow(docs, c, first + step, after)
         == if step == [] then Follow(docs, c, first, after)
            else Tell(Follow(docs, c, first, after), c, step[0], after)
  {
    if step == [] {
      assert first + step == first;
    } else {
      assert (first + step)[..|first|] == first;
      FollowOne(docs, c, first + step, |first|, after);
      assert (first + step)[..|first| + 1] == first + step;
    }
  }

  /** Every batch tells every collection, so `check` may rely on its report. */
  lemma BatchTells(c: C.Name, before: C.State, ops: seq<C.Op>)
    requires C.Run(before, ops).Some?
    ensures var after := C.Run(before, ops).value;
            var changes := C.NetOf(C.Touches(ops), C.Touches(ops), before, after);
            && DropsFirst(c, changes)
            && Follow(DocsOf(before, c), c, changes, DocsOf(after, c)) == DocsOf(after, c)
  {
    var after := C.Run(before, ops).value;
    var items := C.Touches(ops);
    var changes := C.NetOf(items, items, before, after);
    var now := Follow(DocsOf(before, c), c, changes, DocsOf(after, c));
    C.TouchesAreInTurn(ops);
    assert items[..|items|] == items;
    hide Follow, C.Touches, C.Run, C.NetOf;
    forall id ensures Lookup(now, id) == Lookup(DocsOf(after, c), id) {
      NetTells(c, items, |items|, before, after, id);
      if C.Doc(C.Key(c, id)) !in items { C.UntouchedIsAsBefore(before, ops, C.Key(c, id)); }
    }
    SameLookups(now, DocsOf(after, c));
    forall i, j | 0 <= i < j < |changes| && changes[j] == C.Dropped(c)
      ensures !C.IsOf(C.About(changes[i]), c)
    {
      C.ReportedOnce(before, ops, after, i, j);
    }
  }

  lemma SameLookups(a: Docs, b: Docs)
    requires forall id :: Lookup(a, id) == Lookup(b, id)
    ensures a == b
  {
    forall id ensures id in a <==> id in b { assert Lookup(a, id) == Lookup(b, id); }
    forall id | id in a ensures a[id] == b[id] { assert Lookup(a, id) == Lookup(b, id); }
  }

  /** The state after a run of batches, those that fail leaving it as it was. */
  function RunAll(state: C.State, batches: seq<seq<C.Op>>): (after: C.State) {
    if batches == [] then state
    else Next(RunAll(state, batches[..|batches| - 1]), batches[|batches| - 1])
  }

  function Next(state: C.State, ops: seq<C.Op>): (after: C.State) {
    var after := C.Run(state, ops);
    if after.Some? then after.value else state
  }

  /** What a live query is to show of a state: with a sort its first matches in
      order, else every match by id. */
  ghost predicate Shows(f: Filter, docs: Docs, copy: Copy) {
    if f.Sorted() then exists list :: IsView(f, docs, list) && copy == Listed(Rows(f, docs, list))
    else copy == Keyed(KeyedView(f, docs))
  }

  /** There is only one such. */
  lemma ShowsOne(f: Filter, docs: Docs, a: Copy, b: Copy)
    requires Shows(f, docs, a) && Shows(f, docs, b)
    ensures a == b
  {
    hide IsView;
    if f.Sorted() {
      var x :| IsView(f, docs, x) && a == Listed(Rows(f, docs, x));
      var y :| IsView(f, docs, y) && b == Listed(Rows(f, docs, y));
      ViewIsUnique(f, docs, x, y);
    }
  }

  function Nothing(f: Filter): (copy: Copy) {
    if f.Sorted() then Listed([]) else Keyed(map[])
  }

  /** What a reader of a query that holds has. */
  lemma HoldsShows(w: Watcher, docs: Docs)
    requires w.Holds(docs, docs) && (w.filter.Sorted() ==> w.pending == [])
    ensures ReplayAll(Nothing(w.filter), w.sent).Some?
    ensures Shows(w.filter, docs, ReplayAll(Nothing(w.filter), w.sent).value)
  {
    hide IsView, MatchingIds;
  }

  /** Once `i` batches are committed: what was `told` of the last takes a reader's
      copy from what the query showed before to what it is to show now; of a
      batch that failed nothing is told. */
  ghost predicate TracksAt(
    f: Filter, c: C.Name, before: C.State, batches: seq<seq<C.Op>>, told: seq<seq<Live>>, copies: seq<Copy>, i: nat)
    requires |told| == |copies| == |batches| + 1 && i <= |batches|
  {
    && Shows(f, DocsOf(RunAll(before, batches[..i]), c), copies[i])
    && ReplayAll(if i == 0 then Nothing(f) else copies[i - 1], told[i]) == Some(copies[i])
    && (i > 0 && C.Run(RunAll(before, batches[..i - 1]), batches[i - 1]).None? ==> told[i] == [])
  }

  /** Before the first batch and after each. */
  ghost predicate Tracks(
    f: Filter, c: C.Name, before: C.State, batches: seq<seq<C.Op>>, told: seq<seq<Live>>, copies: seq<Copy>)
  {
    && |told| == |copies| == |batches| + 1
    && forall i :: 0 <= i <= |batches| ==> TracksAt(f, c, before, batches, told, copies, i)
  }

  function AllOf<T>(told: seq<seq<T>>): (sent: seq<T>) {
    if told == [] then [] else AllOf(told[..|told| - 1]) + told[|told| - 1]
  }

  lemma TracksOneMore(
    f: Filter, c: C.Name, before: C.State, batches: seq<seq<C.Op>>, told: seq<seq<Live>>, copies: seq<Copy>,
    ops: seq<C.Op>, events: seq<Live>, copy: Copy)
    requires Tracks(f, c, before, batches, told, copies)
    requires Shows(f, DocsOf(RunAll(before, batches + [ops]), c), copy)
    requires ReplayAll(copies[|batches|], events) == Some(copy)
    requires C.Run(RunAll(before, batches), ops).None? ==> events == []
    ensures Tracks(f, c, before, batches + [ops], told + [events], copies + [copy])
  {
    hide Shows, DocsOf, RunAll, ReplayAll, C.Run;
    var (more, longer, after) := (batches + [ops], told + [events], copies + [copy]);
    assert more[..|batches|] == batches && more[..|more|] == more;
    forall i | 0 <= i <= |more| ensures TracksAt(f, c, before, more, longer, after, i) {
      if i <= |batches| {
        assert TracksAt(f, c, before, batches, told, copies, i);
        assert more[..i] == batches[..i];
        if i > 0 { assert more[..i - 1] == batches[..i - 1]; }
      }
    }
  }

  lemma TracksFirst(f: Filter, c: C.Name, before: C.State, events: seq<Live>, copy: Copy)
    requires ReplayAll(Nothing(f), events) == Some(copy) && Shows(f, DocsOf(before, c), copy)
    ensures Tracks(f, c, before, [], [events], [copy])
  {
    hide Shows, DocsOf, ReplayAll, C.Run;
  }

  /** The whole run's events, from a copy of nothing. */
  lemma AllOfMore<T>(told: seq<seq<T>>, events: seq<T>)
    ensures AllOf(told + [events]) == AllOf(told) + events
  {
    assert (told + [events])[..|told|] == told;
  }

  /** Every run: a live query made on any state and checked at each commit sends,
      batch by batch, what takes a reader's copy from the first matches of each
      state to those of the next; and shows what its filter finds at the last. */
  method Watch(f: Filter, c: C.Name, before: C.State, batches: seq<seq<C.Op>>)
    returns (w: Watcher, after: C.State, told: seq<seq<Live>>, ghost copies: seq<Copy>)
    ensures after == RunAll(before, batches) && w.filter == f
    ensures w.Holds(DocsOf(after, c), DocsOf(after, c))
    ensures Tracks(f, c, before, batches, told, copies) && w.sent == AllOf(told)
  {
    w := new Watcher(f, DocsOf(before, c));
    after, told := before, [w.sent];
    hide *;
    assert RunAll(before, []) == before by { RunNone(before); }
    assert w.sent == [] + w.sent && AllOf<Live>([]) == [] by { NoneOf<Live>(); }
    AllOfMore([], w.sent);
    assert [] + [w.sent] == [w.sent];
    ReplayNone(Nothing(f));
    ghost var copy := NextCopy(w, DocsOf(before, c), [], w.sent, Nothing(f));
    copies := [copy];
    TracksFirst(f, c, before, w.sent, copy);
    assert batches[..0] == [];
    for i := 0 to |batches|
      invariant after == RunAll(before, batches[..i]) && w.filter == f && fresh(w)
      invariant w.Holds(DocsOf(after, c), DocsOf(after, c)) && (f.Sorted() ==> w.pending == [])
      invariant |told| == |copies| == i + 1 && Tracks(f, c, before, batches[..i], told, copies)
      invariant w.sent == AllOf(told) && ReplayAll(Nothing(f), w.sent) == Some(copies[i])
    {
      var events;
      after, events, copy := WatchOne(w, c, after, batches[i], copies[i]);
      RunOneMore(before, batches, i);
      TracksOneMore(f, c, before, batches[..i], told, copies, batches[i], events, copy);
      AllOfMore(told, events);
      told, copies := told + [events], copies + [copy];
    }
    assert batches[..|batches|] == batches;
  }

  method WatchOne(w: Watcher, c: C.Name, before: C.State, ops: seq<C.Op>, ghost was: Copy)
    returns (after: C.State, events: seq<Live>, ghost copy: Copy)
    requires w.Holds(DocsOf(before, c), DocsOf(before, c)) && (w.filter.Sorted() ==> w.pending == [])
    requires ReplayAll(Nothing(w.filter), w.sent) == Some(was)
    modifies w
    ensures after == Next(before, ops) && w.sent == old(w.sent) + events
    ensures w.Holds(DocsOf(after, c), DocsOf(after, c)) && (w.filter.Sorted() ==> w.pending == [])
    ensures Shows(w.filter, DocsOf(after, c), copy) && ReplayAll(was, events) == Some(copy)
    ensures ReplayAll(Nothing(w.filter), w.sent) == Some(copy)
    ensures C.Run(before, ops).None? ==> events == []
  {
    hide *;
    var sent := w.sent;
    after := CommitAndCheck(w, c, before, ops);
    events := w.sent[|sent|..];
    assert w.sent == sent + events;
    copy := NextCopy(w, DocsOf(after, c), sent, events, was);
  }

  lemma NoneOf<T>()
    ensures AllOf<T>([]) == []
  {
  }

  lemma ReplayNone(copy: Copy)
    ensures ReplayAll(copy, []) == Some(copy)
  {
  }

  lemma RunNone(before: C.State)
    ensures RunAll(before, []) == before
  {
  }

  lemma RunOneMore(before: C.State, batches: seq<seq<C.Op>>, i: nat)
    requires i < |batches|
    ensures batches[..i + 1] == batches[..i] + [batches[i]]
    ensures RunAll(before, batches[..i + 1]) == Next(RunAll(before, batches[..i]), batches[i])
  {
    hide C.Run;
    assert batches[..i + 1][..i] == batches[..i];
  }

  /** What was sent since takes a reader's copy to what the query shows now. */
  lemma NextCopy(w: Watcher, docs: Docs, sent: seq<Live>, events: seq<Live>, was: Copy) returns (copy: Copy)
    requires w.Holds(docs, docs) && (w.filter.Sorted() ==> w.pending == [])
    requires w.sent == sent + events && ReplayAll(Nothing(w.filter), sent) == Some(was)
    ensures Shows(w.filter, docs, copy) && ReplayAll(was, events) == Some(copy)
    ensures ReplayAll(Nothing(w.filter), w.sent) == Some(copy)
  {
    hide ReplayAll, Shows, Watcher.Holds;
    HoldsShows(w, docs);
    ReplayAppend(Nothing(w.filter), sent, events);
    copy := ReplayAll(Nothing(w.filter), w.sent).value;
  }

  /** A batch committed, and the live query checked with its report; or refused. */
  method CommitAndCheck(w: Watcher, c: C.Name, before: C.State, ops: seq<C.Op>) returns (after: C.State)
    requires w.Holds(DocsOf(before, c), DocsOf(before, c)) && (w.filter.Sorted() ==> w.pending == [])
    modifies w
    ensures after == Next(before, ops)
    ensures w.Holds(DocsOf(after, c), DocsOf(after, c)) && (w.filter.Sorted() ==> w.pending == [])
    ensures old(w.sent) <= w.sent && (C.Run(before, ops).None? ==> w.sent == old(w.sent))
  {
    after := before;
    var changes, next := C.Batch(before, ops);
    if changes.Some? {
      BatchTells(c, before, ops);
      Check(w, c, changes.value, next, DocsOf(before, c));
      after := next;
    }
  }
}
