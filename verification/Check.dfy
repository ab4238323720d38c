/** The consistency check of a secondary index (`src/check.rs`): one pass over its
    entries and a count decide whether it holds exactly what the documents call
    for. */
module Check {
  import opened Values
  import I = IndexKeys

  type Part = seq<byte>
  type Tuple = seq<Document>

  /** An index key: the encoded values, then the document's id. */
  datatype Key = Key(part: Part, id: DocId)

  datatype Loc = Loc(page: nat, slot: nat)

  datatype Entry = Entry(key: Key, loc: Loc)

  /** What an index has to know of a document: the keys it calls for, and for a
      unique index the values compared, each with the part of its key. */
  datatype Doc = Doc(keys: seq<Key>, tuples: seq<(Part, Tuple)>)

  /** The primary index and the records it leads to; the documents that cannot be
      read are left alone. */
  datatype Files = Files(primary: map<DocId, Loc>, records: map<Loc, (DocId, Doc)>, unreadable: set<DocId>)

  datatype Problem = OutOfOrder(id: DocId) | Mismatch(id: DocId) | Shared(a: DocId, b: DocId) | Lacks(id: DocId)

  /** The order of keys: by part, then id. */
  predicate Before(a: Key, b: Key) {
    var c := CompareBytes(a.part, b.part);
    c < 0 || (c == 0 && CompareBytes(a.id, b.id) < 0)
  }

  lemma BeforeIsStrict(a: Key, b: Key, c: Key)
    requires Before(a, b) && Before(b, c)
    ensures Before(a, c) && a != b && a != c
  {
    BytesAreTransitive(a.part, b.part, c.part);
    BytesAreTotal(a.part, b.part);
    BytesAreTotal(b.part, c.part);
    BytesAreTotal(a.part, c.part);
    BytesAreTotal(a.id, b.id);
    BytesAreTotal(b.id, c.id);
    BytesAreTotal(a.id, c.id);
    if a.part == b.part == c.part {
      BytesAreTransitive(a.id, b.id, c.id);
    }
  }

  /** The order runs by the smaller part, then by the smaller id. */
  lemma BeforeRuns(a: Key, b: Key)
    ensures Before(a, b) <==> BytesLess(a.part, b.part) || (a.part == b.part && BytesLess(a.id, b.id))
  {
    BytesRun(a.part, b.part);
    BytesRun(a.id, b.id);
    BytesAreTotal(a.part, b.part);
    hide CompareBytes, BytesLess;
  }

  /** As no part begins with another, that is the order of the bytes of the whole keys. */
  lemma BeforeIsByBytes(a: Key, b: Key)
    requires I.ApartOrSame(a.part, b.part)
    ensures Before(a, b) <==> CompareBytes(a.part + a.id, b.part + b.id) < 0
  {
    I.JoinedOrder(a.part, b.part, a.id, b.id);
    BytesAreTotal(a.part, b.part);
    hide CompareBytes;
  }

  lemma BeforeIsIrreflexive(a: Key)
    ensures !Before(a, a)
  {
    BytesAreTotal(a.part, a.part);
    BytesAreTotal(a.id, a.id);
  }

  ghost predicate Ascending(entries: seq<Entry>) {
    forall i, j :: 0 <= i < j < |entries| ==> Before(entries[i].key, entries[j].key)
  }

  // -------------------------------------------------------------------- documents

  /** The documents the check can read. */
  predicate IsRead(f: Files, id: DocId) {
    id in f.primary && id !in f.unreadable
  }

  ghost predicate DocOk(id: DocId, doc: Doc) {
    && (forall i, j :: 0 <= i < j < |doc.keys| ==> doc.keys[i] != doc.keys[j])
    && (forall k <- doc.keys :: k.id == id)
    && (forall t <- doc.tuples :: Key(t.0, id) in doc.keys)
  }

  /** Every document not said to be unreadable is where the primary index has it. */
  ghost predicate Readable(f: Files) {
    forall id <- f.primary :: id !in f.unreadable ==>
      && f.primary[id] in f.records
      && f.records[f.primary[id]].0 == id
      && DocOk(id, f.records[f.primary[id]].1)
  }

  function DocOf(f: Files, id: DocId): (doc: Doc) {
    if id in f.primary && f.primary[id] in f.records then f.records[f.primary[id]].1 else Doc([], [])
  }

  /** `entry_is_right`: its document where the primary index has it, under its own
      id, and giving the entry's key. */
  predicate EntryIsRight(f: Files, e: Entry) {
    && e.key.id in f.primary && f.primary[e.key.id] == e.loc
    && e.loc in f.records && f.records[e.loc].0 == e.key.id
    && e.key in f.records[e.loc].1.keys
  }

  /** The entries the documents call for. */
  ghost predicate CalledFor(f: Files, e: Entry) {
    IsRead(f, e.key.id) && e.loc == f.primary[e.key.id] && e.key in DocOf(f, e.key.id).keys
  }

  lemma RightIsCalledFor(f: Files, e: Entry)
    requires Readable(f) && e.key.id !in f.unreadable
    ensures EntryIsRight(f, e) <==> CalledFor(f, e)
  {
  }

  /** Two values of two documents are equal. */
  ghost predicate Equal(same: (Tuple, Tuple) -> bool, x: Doc, y: Doc, part: Part) {
    exists i, j :: 0 <= i < |x.tuples| && 0 <= j < |y.tuples|
      && x.tuples[i].0 == part && y.tuples[j].0 == part && same(x.tuples[i].1, y.tuples[j].1)
  }

  /** Two documents share a value. */
  ghost predicate Share(f: Files, same: (Tuple, Tuple) -> bool, x: DocId, y: DocId) {
    && IsRead(f, x) && IsRead(f, y) && x != y
    && exists t <- DocOf(f, x).tuples, u <- DocOf(f, y).tuples :: same(t.1, u.1)
  }

  ghost predicate AllUnique(f: Files, same: (Tuple, Tuple) -> bool) {
    forall x, y :: !Share(f, same, x, y)
  }

  /** Equal values have equal value parts in their keys. */
  ghost predicate PartsAgree(f: Files, same: (Tuple, Tuple) -> bool) {
    forall x, y :: IsRead(f, x) && IsRead(f, y) ==>
      forall t <- DocOf(f, x).tuples, u <- DocOf(f, y).tuples :: same(t.1, u.1) ==> t.0 == u.0
  }

  /** What the check decides. */
  ghost predicate IndexIsRight(f: Files, same: (Tuple, Tuple) -> bool, unique: bool, entries: seq<Entry>) {
    && Ascending(entries)
    && (forall e :: CalledFor(f, e) <==> e in entries && e.key.id !in f.unreadable)
    && (unique ==> AllUnique(f, same))
  }

  // -------------------------------------------------------------------- the count

  /** The entries called for by the documents `ids`. */
  ghost function Called(f: Files, ids: set<DocId>): (called: set<Entry>) {
    set id, k | id in ids && IsRead(f, id) && k in DocOf(f, id).keys :: Entry(k, f.primary[id])
  }

  lemma CalledOne(f: Files, id: DocId)
    requires Readable(f) && IsRead(f, id)
    ensures |Called(f, {id})| == |DocOf(f, id).keys|
  {
    CalledKeys(DocOf(f, id).keys, f.primary[id]);
    var keys := DocOf(f, id).keys;
    assert Called(f, {id}) == set k | k in keys :: Entry(k, f.primary[id]);
  }

  lemma {:induction false} CalledKeys(keys: seq<Key>, loc: Loc)
    requires forall i, j :: 0 <= i < j < |keys| ==> keys[i] != keys[j]
    ensures |set k | k in keys :: Entry(k, loc)| == |keys|
  {
    if keys != [] {
      var n := |keys| - 1;
      CalledKeys(keys[..n], loc);
      assert keys == keys[..n] + [keys[n]];
      assert (set k | k in keys :: Entry(k, loc)) == (set k | k in keys[..n] :: Entry(k, loc)) + {Entry(keys[n], loc)};
    }
  }

  /** How many entries the documents call for, counted one document at a time. */
  method Expected(f: Files) returns (expected: nat)
    requires Readable(f)
    ensures expected == |Called(f, f.primary.Keys)|
  {
    hide Called, Readable, DocOf;
    assert Called(f, {}) == {} by { CalledNone(f); }
    expected := 0;
    var todo: set<DocId>, done: set<DocId> := f.primary.Keys, {};
    while todo != {}
      invariant todo + done == f.primary.Keys && todo !! done && expected == |Called(f, done)|
      decreases todo
    {
      var id :| id in todo;
      CalledMore(f, done, id);
      if id !in f.unreadable {
        expected := expected + |DocOf(f, id).keys|;
      }
      todo, done := todo - {id}, done + {id};
    }
    assert done == f.primary.Keys;
  }

  lemma CalledNone(f: Files)
    ensures Called(f, {}) == {}
  {
  }

  lemma CalledMore(f: Files, ids: set<DocId>, id: DocId)
    requires Readable(f) && id in f.primary && id !in ids
    ensures |Called(f, ids + {id})| == |Called(f, ids)| + if IsRead(f, id) then |DocOf(f, id).keys| else 0
  {
    if IsRead(f, id) {
      CalledOne(f, id);
      CalledIds(f, ids);
      CalledIds(f, {id});
      CalledJoin(f, ids, {id});
    } else {
      assert Called(f, ids + {id}) == Called(f, ids);
    }
  }

  lemma CalledJoin(f: Files, a: set<DocId>, b: set<DocId>)
    ensures Called(f, a + b) == Called(f, a) + Called(f, b)
  {
    hide DocOf;
  }

  lemma CalledIds(f: Files, ids: set<DocId>)
    requires Readable(f)
    ensures forall e <- Called(f, ids) :: e.key.id in ids
  {
  }

  /** An entry is called for exactly if it is one of those counted. */
  lemma CalledHas(f: Files, e: Entry)
    requires Readable(f)
    ensures e in Called(f, f.primary.Keys) <==> CalledFor(f, e)
  {
  }

  // --------------------------------------------------------------------- the walk

  /** Right entries seen so far, in order. */
  function Rights(f: Files, entries: seq<Entry>): (rights: seq<Entry>) {
    if entries == [] then []
    else
      var n := |entries| - 1;
      var rest := Rights(f, entries[..n]);
      if entries[n].key.id !in f.unreadable && EntryIsRight(f, entries[n]) then rest + [entries[n]] else rest
  }

  ghost predicate AllRight(f: Files, entries: seq<Entry>) {
    forall i :: 0 <= i < |entries| ==> entries[i].key.id in f.unreadable || EntryIsRight(f, entries[i])
  }

  lemma {:induction false} RightsHas(f: Files, entries: seq<Entry>)
    ensures forall e :: e in Rights(f, entries) <==> e in entries && e.key.id !in f.unreadable && EntryIsRight(f, e)
    ensures Ascending(entries) ==> Ascending(Rights(f, entries))
  {
    if entries != [] {
      var n := |entries| - 1;
      RightsHas(f, entries[..n]);
      assert entries == entries[..n] + [entries[n]];
      hide EntryIsRight;
      if Ascending(entries) {
        AscendingBack(entries[..n], Rights(f, entries[..n]), entries[n]);
      }
    }
  }

  lemma AscendingBack(all: seq<Entry>, some: seq<Entry>, e: Entry)
    requires Ascending(all + [e]) && Ascending(some) && forall x <- some :: x in all
    ensures Ascending(some + [e])
  {
    hide Before;
    forall x | x in some ensures Before(x.key, e.key) {
      var i :| 0 <= i < |all| && all[i] == x;
      assert (all + [e])[i] == x && (all + [e])[|all|] == e;
    }
  }

  /** As many right entries as are called for, all distinct, are all of them. */
  lemma CountDecides(f: Files, entries: seq<Entry>)
    requires Readable(f) && Ascending(entries)
    ensures |Rights(f, entries)| <= |Called(f, f.primary.Keys)|
    ensures |Rights(f, entries)| == |Called(f, f.primary.Keys)| <==> forall e :: CalledFor(f, e) ==> e in entries
  {
    var rights, called := Rights(f, entries), Called(f, f.primary.Keys);
    RightsHas(f, entries);
    forall e ensures e in called <==> CalledFor(f, e) { CalledHas(f, e); }
    forall e: Entry | e.key.id !in f.unreadable ensures EntryIsRight(f, e) <==> CalledFor(f, e) { RightIsCalledFor(f, e); }
    hide Called, EntryIsRight, CalledFor, Rights, Readable;
    var found := set e | e in rights;
    DistinctCount(rights);
    assert found <= called;
    SubsetCount(found, called);
    assert forall e :: CalledFor(f, e) ==> e.key.id !in f.unreadable by { CalledIsRead(f); }
    if found == called {
      assert forall e :: CalledFor(f, e) ==> e in rights;
    } else {
      var e :| e in called && e !in found;
      assert CalledFor(f, e) && e !in entries;
    }
  }

  lemma CalledIsRead(f: Files)
    ensures forall e :: CalledFor(f, e) ==> e.key.id !in f.unreadable
  {
  }

  lemma {:induction false} SubsetCount<T>(a: set<T>, b: set<T>)
    requires a <= b
    ensures |a| <= |b| && (|a| == |b| <==> a == b)
  {
    if a != b {
      var x :| x in b && x !in a;
      var rest := b - {x};
      assert a <= rest;
      assert |rest| == |b| - 1;
      if a != rest { SubsetCount(a, rest); }
    }
  }

  lemma {:induction false} DistinctCount(entries: seq<Entry>)
    requires Ascending(entries)
    ensures |set e | e in entries| == |entries|
  {
    if entries != [] {
      var n := |entries| - 1;
      DistinctCount(entries[..n]);
      assert entries == entries[..n] + [entries[n]];
      assert (set e | e in entries) == (set e | e in entries[..n]) + {entries[n]};
      BeforeIsIrreflexive(entries[n].key);
      assert entries[n] !in entries[..n];
    }
  }

  // ------------------------------------------------------------- what is reported

  /** Records of two documents have equal values under one part. */
  ghost predicate Records(f: Files, same: (Tuple, Tuple) -> bool, a: DocId, b: DocId, x: Loc, y: Loc, part: Part) {
    && a != b && x in f.records && y in f.records && f.records[x].0 == a && f.records[y].0 == b
    && Equal(same, f.records[x].1, f.records[y].1, part)
  }

  ghost predicate HaveEqual(f: Files, same: (Tuple, Tuple) -> bool, a: DocId, b: DocId) {
    exists x, y, part :: Records(f, same, a, b, x, y, part)
  }

  /** A key called for is not found. */
  ghost predicate Lost(f: Files, lookup: Key -> Option<Loc>, id: DocId) {
    exists e: Entry :: e.key.id == id && CalledFor(f, e) && lookup(e.key) != Some(e.loc)
  }

  /** A problem reported is one: an entry not after the one before, an entry that is
      not right, two documents that share a value, a document with a key not found. */
  ghost predicate IsTrue(f: Files, same: (Tuple, Tuple) -> bool, entries: seq<Entry>, lookup: Key -> Option<Loc>, p: Problem) {
    match p
    case OutOfOrder(id) =>
      exists i :: 0 < i < |entries| && entries[i].key.id == id && !Before(entries[i - 1].key, entries[i].key)
    case Mismatch(id) => id !in f.unreadable && exists e <- entries :: e.key.id == id && !EntryIsRight(f, e)
    case Shared(a, b) => HaveEqual(f, same, a, b)
    case Lacks(id) => Lost(f, lookup, id)
  }

  ghost predicate AllTrue(
    f: Files, same: (Tuple, Tuple) -> bool, entries: seq<Entry>, lookup: Key -> Option<Loc>, problems: seq<Problem>)
  {
    forall p <- problems :: IsTrue(f, same, entries, lookup, p)
  }

  lemma TrueOfMore(
    f: Files, same: (Tuple, Tuple) -> bool, entries: seq<Entry>, lookup: Key -> Option<Loc>, e: Entry, p: Problem)
    requires IsTrue(f, same, entries, lookup, p)
    ensures IsTrue(f, same, entries + [e], lookup, p)
  {
    hide HaveEqual, Lost, Before, EntryIsRight;
    var more := entries + [e];
    match p
    case OutOfOrder(id) =>
      var i :| 0 < i < |entries| && entries[i].key.id == id && !Before(entries[i - 1].key, entries[i].key);
      assert more[i] == entries[i] && more[i - 1] == entries[i - 1];
    case Mismatch(id) =>
      var x :| x in entries && x.key.id == id && !EntryIsRight(f, x);
      assert x in more;
    case _ =>
  }

  /** Pairs of documents seen where they have their records. */
  ghost predicate SeenAt(f: Files, part: Part, seen: seq<Seen>) {
    forall s <- seen :: exists x :: x in f.records && f.records[x].0 == s.0 && (part, s.1) in f.records[x].1.tuples
  }

  lemma PairIsTrue(
    f: Files, same: (Tuple, Tuple) -> bool, part: Part, seen: seq<Seen>, entries: seq<Entry>, lookup: Key -> Option<Loc>,
    p: Problem)
    requires SeenAt(f, part, seen) && OfPair(same, seen, p)
    ensures IsTrue(f, same, entries, lookup, p)
  {
    var i, j :| Pair(same, seen, i, j) && p == Shared(seen[i].0, seen[j].0);
    var s, u := seen[i], seen[j];
    assert s in seen && u in seen;
    var x :| x in f.records && f.records[x].0 == s.0 && (part, s.1) in f.records[x].1.tuples;
    var y :| y in f.records && f.records[y].0 == u.0 && (part, u.1) in f.records[y].1.tuples;
    EqualBy(same, f.records[x].1, f.records[y].1, part, s.1, u.1);
    hide Equal, SeenAt, OfPair;
    assert Records(f, same, s.0, u.0, x, y, part);
  }

  lemma PairsAreTrue(
    f: Files, same: (Tuple, Tuple) -> bool, part: Part, seen: seq<Seen>, entries: seq<Entry>, lookup: Key -> Option<Loc>,
    problems: seq<Problem>, more: seq<Problem>)
    requires SeenAt(f, part, seen) && AllTrue(f, same, entries, lookup, problems) && problems <= more
    requires forall p <- more[|problems|..] :: OfPair(same, seen, p)
    ensures AllTrue(f, same, entries, lookup, more)
  {
    hide IsTrue, SeenAt, OfPair;
    assert more == problems + more[|problems|..];
    forall p | p in more ensures IsTrue(f, same, entries, lookup, p) {
      if p in more[|problems|..] { PairIsTrue(f, same, part, seen, entries, lookup, p); }
    }
  }

  lemma RunIsSeen(f: Files, part: Part, run: seq<Entry>, seen: seq<Seen>)
    requires SeenOf(f, part, run, seen) && forall e <- run :: EntryIsRight(f, e)
    ensures SeenAt(f, part, seen)
  {
    forall s | s in seen ensures exists x :: x in f.records && f.records[x].0 == s.0 && (part, s.1) in f.records[x].1.tuples {
      var e :| e in run && e.key.id == s.0 && (part, s.1) in DocAt(f, e.loc).tuples;
      assert EntryIsRight(f, e);
      assert f.records[e.loc].0 == s.0 && (part, s.1) in f.records[e.loc].1.tuples;
    }
  }

  // ---------------------------------------------------------------- equal values

  type Seen = (DocId, Tuple)

  /** Two of those seen are of two documents and equal. */
  ghost predicate Pair(same: (Tuple, Tuple) -> bool, seen: seq<Seen>, i: int, j: int) {
    0 <= i < j < |seen| && seen[i].0 != seen[j].0 && same(seen[i].1, seen[j].1)
  }

  /** Two documents named have a pair among those seen. */
  ghost predicate OfPair(same: (Tuple, Tuple) -> bool, seen: seq<Seen>, p: Problem) {
    p.Shared? && exists i, j :: Pair(same, seen, i, j) && p == Shared(seen[i].0, seen[j].0)
  }

  /** `report_equal_values`: each pair once over the whole index. */
  method ReportEqual(
    same: (Tuple, Tuple) -> bool, seen: seq<Seen>, reported: set<(DocId, DocId)>, problems: seq<Problem>)
    returns (reported': set<(DocId, DocId)>, problems': seq<Problem>)
    ensures problems <= problems' && (reported' == reported ==> problems' == problems)
    ensures (forall i, j :: !Pair(same, seen, i, j)) ==> reported' == reported
    ensures reported == {} && (exists i, j :: Pair(same, seen, i, j)) ==> |problems'| > |problems| && reported' != {}
    ensures reported <= reported' && (reported' != reported ==> |problems'| > |problems|)
    ensures forall p <- problems'[|problems|..] :: OfPair(same, seen, p)
  {
    reported', problems' := reported, problems;
    for i := 0 to |seen|
      invariant problems <= problems' && forall p <- problems'[|problems|..] :: OfPair(same, seen, p)
      invariant problems <= problems' && reported <= reported'
      invariant reported' == reported ==> problems' == problems
      invariant reported' != reported ==> |problems'| > |problems|
      invariant (forall a, b :: a < i ==> !Pair(same, seen, a, b)) ==> reported' == reported
      invariant reported == {} && (exists a, b :: a < i && Pair(same, seen, a, b)) ==> reported' != {}
    {
      var j := i + 1;
      while j < |seen| && !(seen[j].0 != seen[i].0 && same(seen[i].1, seen[j].1))
        invariant i < j <= |seen| && forall b :: b < j ==> !Pair(same, seen, i, b)
      {
        j := j + 1;
      }
      if j < |seen| {
        assert Pair(same, seen, i, j);
        var a, b := seen[i].0, seen[j].0;
        var pair := if CompareBytes(a, b) <= 0 then (a, b) else (b, a);
        if pair !in reported' {
          assert OfPair(same, seen, Shared(a, b));
          reported' := reported' + {pair};
          problems' := problems' + [Shared(a, b)];
        }
      }
    }
    assert forall a, b :: Pair(same, seen, a, b) ==> a < |seen|;
  }

  /** The values a document has under a part. */
  function Under(id: DocId, tuples: seq<(Part, Tuple)>, part: Part): (seen: seq<Seen>)
    ensures forall s :: s in seen <==> s.0 == id && (part, s.1) in tuples
  {
    if tuples == [] then []
    else
      var rest := Under(id, tuples[1..], part);
      assert tuples == [tuples[0]] + tuples[1..];
      if tuples[0].0 == part then [(id, tuples[0].1)] + rest else rest
  }

  function DocAt(f: Files, loc: Loc): (doc: Doc) {
    if loc in f.records then f.records[loc].1 else Doc([], [])
  }

  /** Two entries of two documents with equal values under their part. */
  ghost predicate Clash(f: Files, same: (Tuple, Tuple) -> bool, a: Entry, b: Entry) {
    a.key.id != b.key.id && a.key.part == b.key.part && Equal(same, DocAt(f, a.loc), DocAt(f, b.loc), a.key.part)
  }

  ghost predicate NoClash(f: Files, same: (Tuple, Tuple) -> bool, entries: seq<Entry>) {
    forall a <- entries, b <- entries :: !Clash(f, same, a, b)
  }

  ghost predicate SeenOf(f: Files, part: Part, run: seq<Entry>, seen: seq<Seen>) {
    forall s :: s in seen <==> exists e <- run :: e.key.id == s.0 && (part, s.1) in DocAt(f, e.loc).tuples
  }

  ghost predicate Symmetric(same: (Tuple, Tuple) -> bool) {
    forall a, b :: same(a, b) ==> same(b, a)
  }

  lemma PairIsClash(f: Files, same: (Tuple, Tuple) -> bool, part: Part, run: seq<Entry>, seen: seq<Seen>, i: int, j: int)
    requires SeenOf(f, part, run, seen) && Pair(same, seen, i, j) && forall e <- run :: e.key.part == part
    ensures !NoClash(f, same, run)
  {
    var s, t := seen[i], seen[j];
    assert s in seen && t in seen;
    var a :| a in run && a.key.id == s.0 && (part, s.1) in DocAt(f, a.loc).tuples;
    var b :| b in run && b.key.id == t.0 && (part, t.1) in DocAt(f, b.loc).tuples;
    EqualBy(same, DocAt(f, a.loc), DocAt(f, b.loc), part, s.1, t.1);
    hide SeenOf, Equal;
    assert Clash(f, same, a, b);
  }

  lemma ClashIsPair(f: Files, same: (Tuple, Tuple) -> bool, part: Part, run: seq<Entry>, seen: seq<Seen>, a: Entry, b: Entry)
    requires SeenOf(f, part, run, seen) && Symmetric(same) && a.key.part == part
    requires a in run && b in run && Clash(f, same, a, b)
    ensures exists i, j :: Pair(same, seen, i, j)
  {
    var x, y := DocAt(f, a.loc), DocAt(f, b.loc);
    var k, l :| 0 <= k < |x.tuples| && 0 <= l < |y.tuples|
      && x.tuples[k].0 == part && y.tuples[l].0 == part && same(x.tuples[k].1, y.tuples[l].1);
    var s, t := (a.key.id, x.tuples[k].1), (b.key.id, y.tuples[l].1);
    assert x.tuples[k] == (part, s.1) && y.tuples[l] == (part, t.1);
    assert s in seen && t in seen;
    hide SeenOf, Clash;
    var i :| 0 <= i < |seen| && seen[i] == s;
    var j :| 0 <= j < |seen| && seen[j] == t;
    assert if i < j then Pair(same, seen, i, j) else Pair(same, seen, j, i);
  }

  lemma SeenDecides(f: Files, same: (Tuple, Tuple) -> bool, part: Part, run: seq<Entry>, seen: seq<Seen>)
    requires SeenOf(f, part, run, seen) && Symmetric(same) && forall e <- run :: e.key.part == part
    ensures NoClash(f, same, run) <==> forall i, j :: !Pair(same, seen, i, j)
  {
    hide SeenOf, Clash, Symmetric, Pair;
    if i, j :| Pair(same, seen, i, j) {
      PairIsClash(f, same, part, run, seen, i, j);
    } else {
      forall a, b | a in run && b in run ensures !Clash(f, same, a, b) {
        if Clash(f, same, a, b) { ClashIsPair(f, same, part, run, seen, a, b); }
      }
    }
  }

  lemma EqualBy(same: (Tuple, Tuple) -> bool, x: Doc, y: Doc, part: Part, t: Tuple, u: Tuple)
    requires (part, t) in x.tuples && (part, u) in y.tuples && same(t, u)
    ensures Equal(same, x, y, part)
  {
    var i :| 0 <= i < |x.tuples| && x.tuples[i] == (part, t);
    var j :| 0 <= j < |y.tuples| && y.tuples[j] == (part, u);
  }

  /** `same_in_run`: a run of a unique index's entries with one value part. */
  method SameInRun(
    f: Files, same: (Tuple, Tuple) -> bool, part: Part, run: seq<Entry>,
    reported: set<(DocId, DocId)>, problems: seq<Problem>, ghost entries: seq<Entry>, ghost lookup: Key -> Option<Loc>)
    returns (reported': set<(DocId, DocId)>, problems': seq<Problem>)
    requires Symmetric(same) && forall e <- run :: e.key.part == part && EntryIsRight(f, e)
    requires (reported != {} ==> problems != []) && AllTrue(f, same, entries, lookup, problems)
    ensures AllTrue(f, same, entries, lookup, problems')
    ensures problems <= problems' && (reported' != {} ==> problems' != [])
    ensures problems' == [] <==> problems == [] && NoClash(f, same, run)
  {
    hide Symmetric, Pair, Clash, EntryIsRight, AllTrue, SeenAt, OfPair;
    if |run| < 2 {
      OneAlone(f, same, run);
      return reported, problems;
    }
    var seen: seq<Seen> := [];
    for i := 0 to |run|
      invariant SeenOf(f, part, run[..i], seen)
    {
      hide SeenOf;
      var more := Under(run[i].key.id, DocAt(f, run[i].loc).tuples, part);
      SeenMore(f, part, run[..i], run[i], seen, more);
      assert run[..i + 1] == run[..i] + [run[i]];
      seen := seen + more;
    }
    assert run[..|run|] == run;
    SeenDecides(f, same, part, run, seen);
    RunIsSeen(f, part, run, seen);
    hide SeenOf;
    reported', problems' := ReportEqual(same, seen, reported, problems);
    PairsAreTrue(f, same, part, seen, entries, lookup, problems, problems');
  }

  lemma SeenMore(f: Files, part: Part, run: seq<Entry>, e: Entry, seen: seq<Seen>, more: seq<Seen>)
    requires SeenOf(f, part, run, seen)
    requires forall s :: s in more <==> s.0 == e.key.id && (part, s.1) in DocAt(f, e.loc).tuples
    ensures SeenOf(f, part, run + [e], seen + more)
  {
    forall s ensures s in seen + more <==> exists x <- run + [e] :: x.key.id == s.0 && (part, s.1) in DocAt(f, x.loc).tuples {
      if s in more { assert e in run + [e]; }
      if s in seen {
        var x :| x in run && x.key.id == s.0 && (part, s.1) in DocAt(f, x.loc).tuples;
        assert x in run + [e];
      }
    }
  }

  lemma OneAlone(f: Files, same: (Tuple, Tuple) -> bool, run: seq<Entry>)
    requires |run| < 2
    ensures NoClash(f, same, run)
  {
    forall a, b | a in run && b in run ensures !Clash(f, same, a, b) {
      assert a == run[0] && b == run[0];
    }
  }

  // -------------------------------------------------------------- the whole check

  /** Where the walk stands: the order kept so far, the right entries counted, the
      run of those with one value part, and what was reported. */
  datatype Walk = Walk(
    last: Option<Key>, broken: bool, right: nat, run: seq<Entry>, runPart: Part,
    reported: set<(DocId, DocId)>, problems: seq<Problem>)

  /** The right entries before the run. */
  ghost function Finished(f: Files, entries: seq<Entry>, w: Walk): (done: seq<Entry>) {
    var rights := Rights(f, entries);
    if |w.run| <= |rights| then rights[..|rights| - |w.run|] else []
  }

  ghost predicate RunOk(f: Files, unique: bool, entries: seq<Entry>, w: Walk) {
    && w.right == |Rights(f, entries)|
    && (!unique ==> w.run == [])
    && (unique ==> Rights(f, entries) == Finished(f, entries, w) + w.run && (Rights(f, entries) != [] ==> w.run != []))
    && (forall e <- w.run :: e.key.part == w.runPart)
    && (unique && Ascending(entries) ==> forall e <- Finished(f, entries, w) :: e.key.part != w.runPart)
  }

  /** Nothing is reported of the entries so far exactly if they are in order and
      right, and the runs done share no value. */
  ghost predicate Walked(f: Files, same: (Tuple, Tuple) -> bool, unique: bool, entries: seq<Entry>, w: Walk) {
    && w.last == (if entries == [] then None else Some(entries[|entries| - 1].key))
    && (w.broken <==> !Ascending(entries))
    && RunOk(f, unique, entries, w)
    && (w.reported != {} ==> w.problems != [])
    && (w.problems == [] <==>
          Ascending(entries) && AllRight(f, entries) && (unique ==> NoClash(f, same, Finished(f, entries, w))))
  }

  lemma AscendingMore(entries: seq<Entry>, e: Entry)
    ensures Ascending(entries + [e]) <==>
              Ascending(entries) && (entries == [] || Before(entries[|entries| - 1].key, e.key))
  {
    var all := entries + [e];
    var n := |entries|;
    if Ascending(all) {
      forall i, j | 0 <= i < j < n ensures Before(entries[i].key, entries[j].key) {
        assert all[i] == entries[i] && all[j] == entries[j];
      }
      if n > 0 { assert all[n - 1] == entries[n - 1] && all[n] == e; }
    }
    if Ascending(entries) && (n == 0 || Before(entries[n - 1].key, e.key)) {
      forall i, j | 0 <= i < j < |all| ensures Before(all[i].key, all[j].key) {
        if j == n && i < n - 1 { BeforeIsStrict(entries[i].key, entries[n - 1].key, e.key); }
      }
    }
  }

  lemma RightsMore(f: Files, entries: seq<Entry>, e: Entry)
    ensures Rights(f, entries + [e])
         == if e.key.id !in f.unreadable && EntryIsRight(f, e) then Rights(f, entries) + [e] else Rights(f, entries)
    ensures AllRight(f, entries + [e]) <==> AllRight(f, entries) && (e.key.id in f.unreadable || EntryIsRight(f, e))
  {
    var all := entries + [e];
    assert all[..|entries|] == entries && all[|entries|] == e;
    hide EntryIsRight;
    assert forall i :: 0 <= i < |entries| ==> all[i] == entries[i];
  }

  lemma NoClashJoin(f: Files, same: (Tuple, Tuple) -> bool, a: seq<Entry>, b: seq<Entry>)
    requires forall x <- a, y <- b :: x.key.part != y.key.part
    ensures NoClash(f, same, a + b) <==> NoClash(f, same, a) && NoClash(f, same, b)
  {
    hide Equal;
    if NoClash(f, same, a + b) {
      assert forall x <- a :: x in a + b;
      assert forall x <- b :: x in a + b;
    }
  }

  /** In order, a new value part is past all before. */
  lemma NewPart(f: Files, entries: seq<Entry>, w: Walk, e: Entry)
    requires RunOk(f, true, entries, w) && Ascending(entries + [e]) && e.key.part != w.runPart
    requires e.key.id !in f.unreadable && EntryIsRight(f, e)
    ensures forall x <- Rights(f, entries) :: x.key.part != e.key.part
  {
    hide Rights, EntryIsRight, Ascending;
    RightsMore(f, entries, e);
    RightsHas(f, entries + [e]);
    var rights := Rights(f, entries);
    if rights != [] {
      assert rights[|rights| - 1] == w.run[|w.run| - 1] && w.run[|w.run| - 1] in w.run;
      PartPastAll(rights, e);
    }
  }

  lemma PartPastAll(rights: seq<Entry>, e: Entry)
    requires rights != [] && Ascending(rights + [e]) && rights[|rights| - 1].key.part != e.key.part
    ensures forall x <- rights :: x.key.part != e.key.part
  {
    hide Before;
    var n := |rights| - 1;
    var all := rights + [e];
    assert all[n] == rights[n] && all[n + 1] == e;
    forall x | x in rights ensures x.key.part != e.key.part {
      var i :| 0 <= i < |rights| && rights[i] == x;
      assert all[i] == x;
      if i < n { Between(x.key, rights[n].key, e.key); }
    }
  }

  lemma Between(a: Key, b: Key, c: Key)
    requires Before(a, b) && Before(b, c) && b.part != c.part
    ensures a.part != c.part
  {
    BytesAreTotal(a.part, b.part);
    BytesAreTotal(b.part, c.part);
  }

  /** What an entry may add to what was reported. */
  lemma NextTrue(
    f: Files, same: (Tuple, Tuple) -> bool, entries: seq<Entry>, lookup: Key -> Option<Loc>, e: Entry,
    problems: seq<Problem>)
    requires AllTrue(f, same, entries, lookup, problems)
    ensures AllTrue(f, same, entries + [e], lookup, problems)
    ensures entries != [] && !Before(entries[|entries| - 1].key, e.key) ==>
              IsTrue(f, same, entries + [e], lookup, OutOfOrder(e.key.id))
    ensures e.key.id !in f.unreadable && !EntryIsRight(f, e) ==>
              IsTrue(f, same, entries + [e], lookup, Mismatch(e.key.id))
  {
    var more := entries + [e];
    assert more[|entries|] == e && e in more;
    assert entries != [] ==> more[|entries| - 1] == entries[|entries| - 1];
    forall p | p in problems ensures IsTrue(f, same, more, lookup, p) {
      TrueOfMore(f, same, entries, lookup, e, p);
    }
    hide EntryIsRight, Before;
  }

  /** One entry of the walk. */
  method Step(
    f: Files, same: (Tuple, Tuple) -> bool, unique: bool, w: Walk, e: Entry, ghost entries: seq<Entry>,
    ghost lookup: Key -> Option<Loc>)
    returns (w': Walk)
    requires Symmetric(same) && Walked(f, same, unique, entries, w) && AllTrue(f, same, entries, lookup, w.problems)
    ensures Walked(f, same, unique, entries + [e], w') && AllTrue(f, same, entries + [e], lookup, w'.problems)
  {
    hide Ascending, Rights, AllRight, NoClash, EntryIsRight, Before, Symmetric, IsTrue;
    NextTrue(f, same, entries, lookup, e, w.problems);
    AscendingMore(entries, e);
    RightsMore(f, entries, e);
    // `Order::see`.
    var broken := w.broken || (w.last.Some? && !Before(w.last.value, e.key));
    var problems := if broken && !w.broken then w.problems + [OutOfOrder(e.key.id)] else w.problems;
    w' := w.(last := Some(e.key), broken := broken, problems := problems);
    if e.key.id in f.unreadable {
      return;
    }
    if !EntryIsRight(f, e) {
      w' := w'.(problems := problems + [Mismatch(e.key.id)]);
      return;
    }
    w' := w'.(right := w.right + 1);
    if unique {
      w' := InRun(f, same, w', e, entries, w, lookup);
    }
  }

  /** A right entry of a unique index joins the run of its value part, or ends it
      and begins the next. */
  method InRun(
    f: Files, same: (Tuple, Tuple) -> bool, w: Walk, e: Entry, ghost entries: seq<Entry>, ghost before: Walk,
    ghost lookup: Key -> Option<Loc>)
    returns (w': Walk)
    requires Symmetric(same) && Walked(f, same, true, entries, before)
    requires AllTrue(f, same, entries + [e], lookup, w.problems)
    ensures AllTrue(f, same, entries + [e], lookup, w'.problems)
    requires e.key.id !in f.unreadable && EntryIsRight(f, e)
    requires w == before.(last := Some(e.key), broken := w.broken, problems := w.problems, right := before.right + 1)
    requires w.broken <==> !Ascending(entries + [e])
    requires w.problems == [] <==> before.problems == [] && Ascending(entries + [e])
    ensures Walked(f, same, true, entries + [e], w')
  {
    hide Ascending, Rights, AllRight, NoClash, EntryIsRight, Before, Symmetric, AllTrue;
    AscendingMore(entries, e);
    RightsMore(f, entries, e);
    ghost var rights := Rights(f, entries);
    RightsHas(f, entries);
    assert forall x <- before.run :: x in rights;
    if e.key.part == w.runPart {
      w' := w.(run := w.run + [e]);
      assert Finished(f, entries + [e], w') == Finished(f, entries, before);
      assert rights + [e] == Finished(f, entries, before) + w'.run;
      return;
    }
    var reported, problems := SameInRun(f, same, w.runPart, w.run, w.reported, w.problems, entries + [e], lookup);
    w' := w.(run := [e], runPart := e.key.part, reported := reported, problems := problems);
    assert Finished(f, entries + [e], w') == rights;
    if Ascending(entries + [e]) {
      NewPart(f, entries, before, e);
      NoClashJoin(f, same, Finished(f, entries, before), before.run);
    }
  }

  /** Index lookups, for keys of an index in order. */
  ghost predicate LooksUp(entries: seq<Entry>, lookup: Key -> Option<Loc>) {
    Ascending(entries) ==> forall e: Entry :: lookup(e.key) == Some(e.loc) <==> e in entries
  }

  /** Another document has an entry under the part of a value of this one's, and an
      equal value. */
  ghost predicate MeetsUnder(f: Files, same: (Tuple, Tuple) -> bool, under: Part -> seq<Entry>, id: DocId, e: Entry) {
    && IsRead(f, id) && e.key.id != id && e in under(e.key.part)
    && e.loc in f.records && f.records[e.loc].0 == e.key.id
    && Equal(same, DocOf(f, id), f.records[e.loc].1, e.key.part)
  }

  /** Those whose entries are under a part, with their values there. */
  function SeenUnder(f: Files, id: DocId, part: Part, entries: seq<Entry>): (seen: seq<Seen>) {
    if entries == [] then []
    else
      var n := |entries| - 1;
      SeenUnder(f, id, part, entries[..n]) + SeenIn(f, id, part, entries[n])
  }

  function SeenIn(f: Files, id: DocId, part: Part, e: Entry): (seen: seq<Seen>)
    ensures forall s :: s in seen <==> IsSeen(f, id, part, e, s)
  {
    if e.key.id != id && e.loc in f.records && f.records[e.loc].0 == e.key.id
    then Under(e.key.id, f.records[e.loc].1.tuples, part) else []
  }

  lemma {:induction false} SeenUnderHas(f: Files, id: DocId, part: Part, entries: seq<Entry>, s: Seen)
    ensures s in SeenUnder(f, id, part, entries) <==> exists e <- entries :: IsSeen(f, id, part, e, s)
  {
    hide IsSeen, SeenIn;
    if entries != [] {
      var n := |entries| - 1;
      SeenUnderHas(f, id, part, entries[..n], s);
      assert entries == entries[..n] + [entries[n]];
      if e :| e in entries && IsSeen(f, id, part, e, s) { assert e in entries[..n] || e == entries[n]; }
      assert entries[n] in entries;
    }
  }

  predicate IsSeen(f: Files, id: DocId, part: Part, e: Entry, s: Seen) {
    && e.key.id != id && e.loc in f.records && f.records[e.loc].0 == e.key.id == s.0
    && (part, s.1) in f.records[e.loc].1.tuples
  }

  function PutById(s: Seen, sorted: seq<Seen>): (more: seq<Seen>)
    ensures multiset(more) == multiset(sorted) + multiset{s}
  {
    if sorted == [] || CompareBytes(s.0, sorted[0].0) < 0 then [s] + sorted
    else
      assert sorted == [sorted[0]] + sorted[1..];
      [sorted[0]] + PutById(s, sorted[1..])
  }

  function SortById(seen: seq<Seen>): (sorted: seq<Seen>)
    ensures multiset(sorted) == multiset(seen)
  {
    if seen == [] then []
    else
      assert seen == seen[..|seen| - 1] + [seen[|seen| - 1]];
      PutById(seen[|seen| - 1], SortById(seen[..|seen| - 1]))
  }

  /** Each value of a document's compared with those of the entries under its part. */
  method CompareUnder(
    f: Files, same: (Tuple, Tuple) -> bool, under: Part -> seq<Entry>, id: DocId, reported: set<(DocId, DocId)>,
    problems: seq<Problem>, ghost entries: seq<Entry>, ghost lookup: Key -> Option<Loc>)
    returns (reported': set<(DocId, DocId)>, problems': seq<Problem>)
    requires Readable(f) && Symmetric(same) && IsRead(f, id) && AllTrue(f, same, entries, lookup, problems)
    ensures problems <= problems' && reported <= reported' && AllTrue(f, same, entries, lookup, problems')
    ensures reported == {} && (exists e :: MeetsUnder(f, same, under, id, e)) ==> reported' != {}
    ensures forall p <- problems'[|problems|..] :: p.Shared?
  {
    hide *;
    reported', problems' := reported, problems;
    var tuples := DocOf(f, id).tuples;
    for i := 0 to |tuples|
      invariant problems <= problems' && reported <= reported' && AllTrue(f, same, entries, lookup, problems')
      invariant forall p <- problems'[|problems|..] :: p.Shared?
      invariant reported == {} ==> forall k, e :: 0 <= k < i && MeetsBy(f, same, under, id, tuples[k], e) ==> reported' != {}
    {
      ghost var was := problems';
      assert tuples[i] in tuples;
      reported', problems' := CompareValue(f, same, under, id, tuples[i], reported', problems', entries, lookup);
      assert problems'[|problems|..] == was[|problems|..] + problems'[|was|..];
    }
    MeetsSome(f, same, under, id);
  }

  method CompareValue(
    f: Files, same: (Tuple, Tuple) -> bool, under: Part -> seq<Entry>, id: DocId, t: (Part, Tuple),
    reported: set<(DocId, DocId)>, problems: seq<Problem>, ghost entries: seq<Entry>, ghost lookup: Key -> Option<Loc>)
    returns (reported': set<(DocId, DocId)>, problems': seq<Problem>)
    requires Readable(f) && Symmetric(same) && IsRead(f, id) && t in DocOf(f, id).tuples
    requires AllTrue(f, same, entries, lookup, problems)
    ensures problems <= problems' && reported <= reported' && AllTrue(f, same, entries, lookup, problems')
    ensures reported == {} && (exists e :: MeetsBy(f, same, under, id, t, e)) ==> reported' != {}
    ensures forall p <- problems'[|problems|..] :: p.Shared?
  {
    hide AllTrue, Readable, Symmetric, Pair, MeetsBy, SeenUnder, SortById, SeenAt, DocOf, IsRead;
    var (part, values) := t;
    var seen := SortById([(id, values)] + SeenUnder(f, id, part, under(part)));
    SeenIsRecorded(f, id, part, values, under(part), seen);
    MeetingIsPair(f, same, under, id, part, values, seen);
    reported', problems' := ReportEqual(same, seen, reported, problems);
    PairsAreTrue(f, same, part, seen, entries, lookup, problems, problems');
  }

  ghost predicate MeetsBy(
    f: Files, same: (Tuple, Tuple) -> bool, under: Part -> seq<Entry>, id: DocId, t: (Part, Tuple), e: Entry)
  {
    && e in under(t.0) && exists s: Seen :: IsSeen(f, id, t.0, e, s) && same(t.1, s.1)
  }

  lemma MeetsSome(f: Files, same: (Tuple, Tuple) -> bool, under: Part -> seq<Entry>, id: DocId)
    ensures forall e :: MeetsUnder(f, same, under, id, e) ==>
              exists k :: 0 <= k < |DocOf(f, id).tuples| && MeetsBy(f, same, under, id, DocOf(f, id).tuples[k], e)
  {
    forall e | MeetsUnder(f, same, under, id, e)
      ensures exists k :: 0 <= k < |DocOf(f, id).tuples| && MeetsBy(f, same, under, id, DocOf(f, id).tuples[k], e)
    {
      var (x, y) := (DocOf(f, id), f.records[e.loc].1);
      var i, j :| 0 <= i < |x.tuples| && 0 <= j < |y.tuples|
        && x.tuples[i].0 == e.key.part && y.tuples[j].0 == e.key.part && same(x.tuples[i].1, y.tuples[j].1);
      assert y.tuples[j] == (e.key.part, y.tuples[j].1);
      assert IsSeen(f, id, x.tuples[i].0, e, (e.key.id, y.tuples[j].1));
    }
  }

  lemma SeenIsRecorded(f: Files, id: DocId, part: Part, values: Tuple, entries: seq<Entry>, seen: seq<Seen>)
    requires Readable(f) && IsRead(f, id) && (part, values) in DocOf(f, id).tuples
    requires seen == SortById([(id, values)] + SeenUnder(f, id, part, entries))
    ensures SeenAt(f, part, seen)
  {
    var all := [(id, values)] + SeenUnder(f, id, part, entries);
    forall s | s in seen ensures exists x :: x in f.records && f.records[x].0 == s.0 && (part, s.1) in f.records[x].1.tuples {
      SortedHas(all, s);
      if s == (id, values) {
        assert f.records[f.primary[id]].0 == id;
      } else {
        SeenUnderHas(f, id, part, entries, s);
        var e :| e in entries && IsSeen(f, id, part, e, s);
      }
    }
  }

  lemma MeetingIsPair(
    f: Files, same: (Tuple, Tuple) -> bool, under: Part -> seq<Entry>, id: DocId, part: Part, values: Tuple, seen: seq<Seen>)
    requires Symmetric(same) && seen == SortById([(id, values)] + SeenUnder(f, id, part, under(part)))
    ensures (exists e :: MeetsBy(f, same, under, id, (part, values), e)) ==> exists i, j :: Pair(same, seen, i, j)
  {
    hide Symmetric, Pair, SeenUnder, SortById;
    if e :| MeetsBy(f, same, under, id, (part, values), e) {
      var s: Seen :| IsSeen(f, id, part, e, s) && same(values, s.1);
      assert e in under(part) && s.0 != id;
      hide IsSeen, MeetsBy;
      SeenUnderHas(f, id, part, under(part), s);
      var all := [(id, values)] + SeenUnder(f, id, part, under(part));
      assert all[0] == (id, values);
      SortedHas(all, (id, values));
      SortedHas(all, s);
      PairAmong(same, seen, (id, values), s);
    }
  }

  lemma PairAmong(same: (Tuple, Tuple) -> bool, seen: seq<Seen>, a: Seen, b: Seen)
    requires Symmetric(same) && a in seen && b in seen && a.0 != b.0 && same(a.1, b.1)
    ensures exists i, j :: Pair(same, seen, i, j)
  {
    var i :| 0 <= i < |seen| && seen[i] == a;
    var j :| 0 <= j < |seen| && seen[j] == b;
    assert if i < j then Pair(same, seen, i, j) else Pair(same, seen, j, i);
  }

  lemma SortedHas(all: seq<Seen>, s: Seen)
    ensures s in SortById(all) <==> s in all
  {
    assert s in all <==> s in multiset(all);
    assert s in SortById(all) <==> s in multiset(SortById(all));
  }

  /** `name_missing`: every document's keys looked up, each one missing named; and for
      a unique index each document's values compared with those of the entries under
      the same part. */
  method NameMissing(
    f: Files, same: (Tuple, Tuple) -> bool, unique: bool, lookup: Key -> Option<Loc>, under: Part -> seq<Entry>,
    reported: set<(DocId, DocId)>, problems: seq<Problem>, ghost entries: seq<Entry>)
    returns (reported': set<(DocId, DocId)>, problems': seq<Problem>)
    requires Readable(f) && Symmetric(same) && AllTrue(f, same, entries, lookup, problems)
    ensures problems <= problems' && AllTrue(f, same, entries, lookup, problems')
    ensures forall id :: Lost(f, lookup, id) <==> Lacks(id) in problems'[|problems|..]
    ensures unique && reported == {} && (exists id, e :: MeetsUnder(f, same, under, id, e)) ==> reported' != {}
  {
    hide Readable, Symmetric, AllTrue, Lost, MeetsUnder, IsTrue;
    reported', problems' := reported, problems;
    var todo := f.primary.Keys;
    while todo != {}
      invariant todo <= f.primary.Keys && problems <= problems' && reported <= reported'
      invariant AllTrue(f, same, entries, lookup, problems')
      invariant forall id :: id in f.primary.Keys - todo ==> (Lost(f, lookup, id) ==> Lacks(id) in problems'[|problems|..])
      invariant forall id :: Lacks(id) in problems'[|problems|..] ==> Lost(f, lookup, id)
      invariant unique && reported == {} ==>
        forall id, e :: id in f.primary.Keys - todo && MeetsUnder(f, same, under, id, e) ==> reported' != {}
      decreases todo
    {
      var id :| id in todo;
      todo := todo - {id};
      if id in f.unreadable {
        NotRead(f, same, lookup, under, id);
        continue;
      }
      ghost var was := problems';
      problems' := NameLost(f, same, lookup, id, problems', entries);
      assert problems'[|problems|..] == was[|problems|..] + problems'[|was|..];
      if unique {
        ghost var named, before := problems', reported';
        reported', problems' := CompareUnder(f, same, under, id, reported', problems', entries, lookup);
        assert problems'[|problems|..] == named[|problems|..] + problems'[|named|..];
      }
    }
    forall id | Lost(f, lookup, id) ensures id in f.primary {
      LostIsRead(f, lookup, id);
    }
    forall id, e | MeetsUnder(f, same, under, id, e) ensures id in f.primary {
      MeetsIsRead(f, same, under, id, e);
    }
  }

  lemma LostIsRead(f: Files, lookup: Key -> Option<Loc>, id: DocId)
    requires Lost(f, lookup, id)
    ensures IsRead(f, id)
  {
  }

  lemma MeetsIsRead(f: Files, same: (Tuple, Tuple) -> bool, under: Part -> seq<Entry>, id: DocId, e: Entry)
    requires MeetsUnder(f, same, under, id, e)
    ensures IsRead(f, id)
  {
  }

  lemma NotRead(f: Files, same: (Tuple, Tuple) -> bool, lookup: Key -> Option<Loc>, under: Part -> seq<Entry>, id: DocId)
    requires id in f.unreadable
    ensures !Lost(f, lookup, id) && forall e :: !MeetsUnder(f, same, under, id, e)
  {
  }

  /** One document's keys looked up. */
  method NameLost(
    f: Files, same: (Tuple, Tuple) -> bool, lookup: Key -> Option<Loc>, id: DocId, problems: seq<Problem>,
    ghost entries: seq<Entry>)
    returns (problems': seq<Problem>)
    requires Readable(f) && IsRead(f, id) && AllTrue(f, same, entries, lookup, problems)
    ensures problems <= problems' && AllTrue(f, same, entries, lookup, problems')
    ensures forall p <- problems'[|problems|..] :: p == Lacks(id) && Lost(f, lookup, id)
    ensures Lost(f, lookup, id) ==> Lacks(id) in problems'[|problems|..]
  {
    hide Lost, HaveEqual, EntryIsRight, Before;
    problems' := problems;
    var loc := f.primary[id];
    var keys := f.records[loc].1.keys;
    for i := 0 to |keys|
      invariant problems <= problems' && AllTrue(f, same, entries, lookup, problems')
      invariant forall p <- problems'[|problems|..] :: p == Lacks(id) && Lost(f, lookup, id)
      invariant (exists j :: 0 <= j < i && lookup(keys[j]) != Some(loc)) ==> Lacks(id) in problems'[|problems|..]
    {
      if lookup(keys[i]) != Some(loc) {
        LostBy(f, lookup, id, i);
        assert (problems' + [Lacks(id)])[|problems|..] == problems'[|problems|..] + [Lacks(id)];
        problems' := problems' + [Lacks(id)];
      }
    }
    if Lost(f, lookup, id) { LostIf(f, lookup, id); }
  }

  lemma LostBy(f: Files, lookup: Key -> Option<Loc>, id: DocId, i: nat)
    requires Readable(f) && IsRead(f, id) && i < |DocOf(f, id).keys| && lookup(DocOf(f, id).keys[i]) != Some(f.primary[id])
    ensures Lost(f, lookup, id)
  {
    assert DocOk(id, DocOf(f, id));
    var e := Entry(DocOf(f, id).keys[i], f.primary[id]);
    assert e.key in DocOf(f, id).keys;
    assert e.key.id == id && CalledFor(f, e);
  }

  lemma LostIf(f: Files, lookup: Key -> Option<Loc>, id: DocId)
    requires Readable(f) && IsRead(f, id) && Lost(f, lookup, id)
    ensures exists j :: 0 <= j < |DocOf(f, id).keys| && lookup(DocOf(f, id).keys[j]) != Some(f.primary[id])
  {
    var e: Entry :| e.key.id == id && CalledFor(f, e) && lookup(e.key) != Some(e.loc);
    var j :| 0 <= j < |DocOf(f, id).keys| && DocOf(f, id).keys[j] == e.key;
  }

  /** What the walk finds is what makes the index right. */
  lemma Decided(f: Files, same: (Tuple, Tuple) -> bool, unique: bool, entries: seq<Entry>)
    requires Readable(f) && PartsAgree(f, same)
    ensures IndexIsRight(f, same, unique, entries) <==>
              && Ascending(entries) && AllRight(f, entries) && (unique ==> NoClash(f, same, Rights(f, entries)))
              && |Rights(f, entries)| == |Called(f, f.primary.Keys)|
  {
    if Ascending(entries) {
      CountDecides(f, entries);
      RightsHas(f, entries);
      EntriesDecide(f, entries);
      hide Called, Rights, Ascending, AllRight, PartsAgree;
      if forall e :: CalledFor(f, e) <==> e in entries && e.key.id !in f.unreadable {
        UniqueDecides(f, same, entries);
      }
    }
  }

  lemma EntriesDecide(f: Files, entries: seq<Entry>)
    requires Readable(f)
    ensures (forall e :: CalledFor(f, e) <==> e in entries && e.key.id !in f.unreadable)
       <==> AllRight(f, entries) && forall e :: CalledFor(f, e) ==> e in entries
  {
    forall e: Entry | e.key.id !in f.unreadable ensures EntryIsRight(f, e) <==> CalledFor(f, e) { RightIsCalledFor(f, e); }
    CalledIsRead(f);
    hide EntryIsRight, CalledFor, Readable;
    if forall e :: CalledFor(f, e) <==> e in entries && e.key.id !in f.unreadable {
      forall i | 0 <= i < |entries| && entries[i].key.id !in f.unreadable ensures EntryIsRight(f, entries[i]) {
        assert entries[i] in entries;
      }
    }
    if AllRight(f, entries) {
      forall e | e in entries && e.key.id !in f.unreadable ensures EntryIsRight(f, e) {
        var i :| 0 <= i < |entries| && entries[i] == e;
      }
    }
  }

  lemma UniqueDecides(f: Files, same: (Tuple, Tuple) -> bool, entries: seq<Entry>)
    requires Readable(f) && PartsAgree(f, same)
    requires forall e :: e in Rights(f, entries) <==> e in entries && e.key.id !in f.unreadable && EntryIsRight(f, e)
    requires forall e :: CalledFor(f, e) <==> e in entries && e.key.id !in f.unreadable
    ensures NoClash(f, same, Rights(f, entries)) <==> AllUnique(f, same)
  {
    hide Rights, Clash, Share, PartsAgree, Readable, EntryIsRight, CalledFor;
    var rights := Rights(f, entries);
    if a, b :| a in rights && b in rights && Clash(f, same, a, b) {
      ClashShares(f, same, a, b);
    }
    if x, y :| Share(f, same, x, y) {
      var a, b := ShareClashes(f, same, x, y);
      RightIsCalledFor(f, a);
      RightIsCalledFor(f, b);
      assert a in rights && b in rights;
    }
  }

  lemma ClashShares(f: Files, same: (Tuple, Tuple) -> bool, a: Entry, b: Entry)
    requires Clash(f, same, a, b) && EntryIsRight(f, a) && EntryIsRight(f, b)
    requires a.key.id !in f.unreadable && b.key.id !in f.unreadable
    ensures Share(f, same, a.key.id, b.key.id)
  {
    var x, y := DocAt(f, a.loc), DocAt(f, b.loc);
    var i, j :| 0 <= i < |x.tuples| && 0 <= j < |y.tuples|
      && x.tuples[i].0 == a.key.part && y.tuples[j].0 == a.key.part && same(x.tuples[i].1, y.tuples[j].1);
    assert x.tuples[i] in x.tuples && y.tuples[j] in y.tuples;
  }

  lemma ShareClashes(f: Files, same: (Tuple, Tuple) -> bool, x: DocId, y: DocId) returns (a: Entry, b: Entry)
    requires Readable(f) && PartsAgree(f, same) && Share(f, same, x, y)
    ensures CalledFor(f, a) && CalledFor(f, b) && Clash(f, same, a, b)
  {
    var t, u :| t in DocOf(f, x).tuples && u in DocOf(f, y).tuples && same(t.1, u.1);
    a, b := Entry(Key(t.0, x), f.primary[x]), Entry(Key(u.0, y), f.primary[y]);
    assert DocOk(x, DocOf(f, x)) && DocOk(y, DocOf(f, y));
    assert t == (t.0, t.1) && u == (t.0, u.1);
    EqualBy(same, DocOf(f, x), DocOf(f, y), t.0, t.1, u.1);
  }

  /** `check_index`: nothing is reported if and only if the index holds exactly the
      entries the documents call for, in strict order, and for a unique index no
      two documents share a value. */
  method CheckIndex(
    f: Files, same: (Tuple, Tuple) -> bool, unique: bool, entries: seq<Entry>, lookup: Key -> Option<Loc>,
    under: Part -> seq<Entry>, expected: nat)
    returns (problems: seq<Problem>)
    requires Readable(f) && Symmetric(same) && PartsAgree(f, same)
    requires expected == |Called(f, f.primary.Keys)| && LooksUp(entries, lookup)
    ensures problems == [] <==> IndexIsRight(f, same, unique, entries)
    ensures AllTrue(f, same, entries, lookup, problems)
  {
    hide Readable, Symmetric, PartsAgree, Called, LooksUp, IndexIsRight, Walked, IsTrue, EntryIsRight;
    var w := Walk(None, false, 0, [], [], {}, []);
    NothingWalked(f, same, unique, w);
    for i := 0 to |entries|
      invariant Walked(f, same, unique, entries[..i], w) && AllTrue(f, same, entries[..i], lookup, w.problems)
    {
      w := Step(f, same, unique, w, entries[i], entries[..i], lookup);
      assert entries[..i + 1] == entries[..i] + [entries[i]];
    }
    assert entries[..|entries|] == entries;
    WalkedParts(f, same, unique, entries, w);
    var reported;
    reported, problems := SameInRun(f, same, w.runPart, w.run, w.reported, w.problems, entries, lookup);
    WalkEnds(f, same, unique, entries, w);
    Decided(f, same, unique, entries);
    hide NoClash, Rights, AllRight;
    if w.right < expected || w.broken {
      SomethingMissing(f, entries, lookup);
      ghost var was := problems;
      reported, problems := NameMissing(f, same, unique, lookup, under, reported, problems, entries);
    } else {
      CountDecides(f, entries);
    }
  }

  lemma NothingWalked(f: Files, same: (Tuple, Tuple) -> bool, unique: bool, w: Walk)
    requires w == Walk(None, false, 0, [], [], {}, [])
    ensures Walked(f, same, unique, [], w)
  {
  }

  lemma WalkedParts(f: Files, same: (Tuple, Tuple) -> bool, unique: bool, entries: seq<Entry>, w: Walk)
    requires Walked(f, same, unique, entries, w)
    ensures forall e <- w.run :: e.key.part == w.runPart && EntryIsRight(f, e)
    ensures w.reported != {} ==> w.problems != []
  {
    RightsHas(f, entries);
    hide Ascending, Rights, AllRight, NoClash, EntryIsRight;
    assert forall e <- w.run :: e in Rights(f, entries);
  }

  /** The last run compared too. */
  lemma WalkEnds(f: Files, same: (Tuple, Tuple) -> bool, unique: bool, entries: seq<Entry>, w: Walk)
    requires Walked(f, same, unique, entries, w)
    ensures w.right == |Rights(f, entries)| && (w.broken <==> !Ascending(entries))
    ensures w.problems == [] && NoClash(f, same, w.run) <==>
              Ascending(entries) && AllRight(f, entries) && (unique ==> NoClash(f, same, Rights(f, entries)))
  {
    hide Ascending, Rights, AllRight;
    if unique && Ascending(entries) {
      hide NoClash;
      NoClashJoin(f, same, Finished(f, entries, w), w.run);
    } else if !unique {
      OneAlone(f, same, w.run);
    }
  }

  /** Fewer right entries than called for, in order: some key called for is not
      found. */
  lemma SomethingMissing(f: Files, entries: seq<Entry>, lookup: Key -> Option<Loc>)
    requires Readable(f) && LooksUp(entries, lookup)
    ensures Ascending(entries) && |Rights(f, entries)| != |Called(f, f.primary.Keys)| ==>
              exists id :: Lost(f, lookup, id)
  {
    hide Called, Rights;
    if Ascending(entries) && |Rights(f, entries)| != |Called(f, f.primary.Keys)| {
      CountDecides(f, entries);
      var e: Entry :| CalledFor(f, e) && lookup(e.key) != Some(e.loc);
      assert Lost(f, lookup, e.key.id);
    }
  }

  // ----------------------------------------------------------------- page owners

  type PageId = nat
  type Owner = nat

  /** A claim: a page and its owner, who may claim it again if `shared`. */
  datatype Claim = Claim(page: PageId, owner: Owner, shared: bool)

  /** A later claim agrees with an earlier: only the later must be shared. */
  predicate Allows(earlier: Claim, later: Claim) {
    earlier.page == later.page ==> earlier.owner == later.owner && later.shared
  }

  /** Nothing is wrong with the claims: every page is in the file, and a page
      claimed again is shared by the owner it has. */
  ghost predicate ClaimsOk(claims: seq<Claim>, pageCount: nat) {
    && (forall i :: 0 <= i < |claims| ==> claims[i].page < pageCount)
    && (forall i, j :: 0 <= i < j < |claims| ==> Allows(claims[i], claims[j]))
  }

  class Claims {
    /** Each page's owner, by page id. */
    const owners: array<Option<Owner>>
    var problems: nat
    ghost var claims: seq<Claim>

    ghost predicate Valid()
      reads this, owners
    {
      && (problems == 0 <==> ClaimsOk(claims, owners.Length))
      && (forall p :: 0 <= p < owners.Length ==> (owners[p].None? <==> forall c <- claims :: c.page != p))
      && (problems == 0 ==> forall c <- claims :: c.page < owners.Length && owners[c.page] == Some(c.owner))
    }

    constructor (pageCount: nat)
      ensures Valid() && claims == [] && owners.Length == pageCount && fresh(owners)
    {
      owners := new Option<Owner>[pageCount](_ => None);
      problems, claims := 0, [];
    }

    /** `claim_as`: a problem if the page is past the end, or somebody else's, or
        the owner's own and not shared. */
    method ClaimAs(page: PageId, owner: Owner, shared: bool)
      requires Valid()
      modifies this, owners
      ensures Valid() && claims == old(claims) + [Claim(page, owner, shared)] && problems >= old(problems)
    {
      ghost var claim := Claim(page, owner, shared);
      ClaimMore(claims, claim, owners.Length);
      if page >= owners.Length {
        problems := problems + 1;
      } else if owners[page].None? {
        owners[page] := Some(owner);
      } else if !(shared && owners[page].value == owner) {
        problems := problems + 1;
      }
      claims := claims + [claim];
    }
  }

  lemma ClaimMore(claims: seq<Claim>, claim: Claim, pageCount: nat)
    ensures ClaimsOk(claims + [claim], pageCount) <==>
              ClaimsOk(claims, pageCount) && claim.page < pageCount && forall c <- claims :: Allows(c, claim)
  {
    var all := claims + [claim];
    var n := |claims|;
    if ClaimsOk(all, pageCount) {
      assert all[n] == claim;
      forall i | 0 <= i < n ensures all[i] == claims[i] && Allows(claims[i], claim) {
      }
      forall i, j | 0 <= i < j < n ensures Allows(claims[i], claims[j]) {
        assert all[i] == claims[i] && all[j] == claims[j];
      }
      forall c | c in claims ensures Allows(c, claim) {
        var i :| 0 <= i < n && claims[i] == c;
      }
    }
    if ClaimsOk(claims, pageCount) && claim.page < pageCount && forall c <- claims :: Allows(c, claim) {
      forall i, j | 0 <= i < j < |all| ensures Allows(all[i], all[j]) {
        if j == n { assert claims[i] in claims; }
      }
    }
  }
}
