/** Live aggregates (`src/live.rs`): after a commit the aggregate runs again, and a
    reader is told which rows left, entered or changed, each by its group. */
module LiveRows {
  import opened Values
  import L = Live
  import C = Changes

  /** A row by the key of its group. */
  type Key = seq<byte>
  type Rows = seq<(Key, Document)>

  /** A row that left comes with what its group has now, if it still has rows. */
  datatype Event = Left(key: Key, row: Option<Document>) | Entered(key: Key, now: Document) | Changed(key: Key, now: Document)

  predicate OneEach(rows: Rows) {
    forall i, j :: 0 <= i < j < |rows| ==> rows[i].0 != rows[j].0
  }

  function Row(rows: Rows, key: Key): (row: Option<Document>) {
    if rows == [] then None else if rows[0].0 == key then Some(rows[0].1) else Row(rows[1..], key)
  }

  /** What a reader who keeps the rows by key has after an event. */
  function Told(kept: map<Key, Document>, event: Event): (after: map<Key, Document>) {
    match event
    case Left(key, _) => kept - {key}
    case Entered(key, row) => kept[key := row]
    case Changed(key, row) => kept[key := row]
  }

  function ToldAll(kept: map<Key, Document>, events: seq<Event>): (after: map<Key, Document>) {
    if events == [] then kept else Told(ToldAll(kept, events[..|events| - 1]), events[|events| - 1])
  }

  lemma {:induction false} ToldJoin(kept: map<Key, Document>, first: seq<Event>, more: seq<Event>)
    ensures ToldAll(kept, first + more) == ToldAll(ToldAll(kept, first), more)
    decreases |more|
  {
    if more == [] {
      assert first + more == first;
    } else {
      var n := |more| - 1;
      assert (first + more)[..|first + more| - 1] == first + more[..n];
      ToldJoin(kept, first, more[..n]);
    }
  }

  lemma ToldMore(kept: map<Key, Document>, events: seq<Event>, event: Event)
    ensures ToldAll(kept, events + [event]) == Told(ToldAll(kept, events), event)
  {
    assert (events + [event])[..|events|] == events;
  }

  lemma {:induction false} RowHas(rows: Rows, key: Key)
    ensures Row(rows, key).Some? <==> exists i :: 0 <= i < |rows| && rows[i].0 == key
    ensures OneEach(rows) ==> forall i :: 0 <= i < |rows| && rows[i].0 == key ==> Row(rows, key) == Some(rows[i].1)
  {
    if rows != [] {
      RowHas(rows[1..], key);
      assert forall i :: 1 <= i < |rows| ==> rows[i] == rows[1..][i - 1];
      if rows[0].0 != key && Row(rows[1..], key).Some? {
        var i :| 0 <= i < |rows[1..]| && rows[1..][i].0 == key;
        assert rows[i + 1].0 == key;
      }
    }
  }

  // ------------------------------------------------------------------- alike

  /** `same`: equal, a float to the bit, an object's fields in any order. */
  predicate Same(a: Document, b: Document)
    decreases a, 0
  {
    if a.Object? && b.Object? then
      |a.fields| == |b.fields| && forall i :: 0 <= i < |a.fields| ==> SameField(a.fields[i], b.fields)
    else if a.Array? && b.Array? then
      |a.items| == |b.items| && forall i :: 0 <= i < |a.items| ==> Same(a.items[i], b.items[i])
    else a == b
  }

  predicate SameField(field: (seq<byte>, Document), fields: seq<(seq<byte>, Document)>)
    decreases field.1, 1
  {
    exists j :: 0 <= j < |fields| && fields[j].0 == field.0 && Same(field.1, fields[j].1)
  }

  lemma {:induction false} SameAsItself(a: Document)
    ensures Same(a, a)
    decreases a
  {
    match a
    case Object(fields) =>
      forall i | 0 <= i < |fields| ensures SameField(fields[i], fields) {
        SameAsItself(fields[i].1);
      }
    case Array(items) =>
      forall i | 0 <= i < |items| ensures Same(items[i], items[i]) {
        SameAsItself(items[i]);
      }
    case _ =>
  }

  /** So what is not told again is not further off than once. */
  lemma {:induction false} SameInTurn(a: Document, b: Document, c: Document)
    requires Same(a, b) && Same(b, c)
    ensures Same(a, c)
    decreases a
  {
    if a.Object? && b.Object? && c.Object? {
      forall i | 0 <= i < |a.fields| ensures SameField(a.fields[i], c.fields) {
        assert SameField(a.fields[i], b.fields);
        var j :| 0 <= j < |b.fields| && b.fields[j].0 == a.fields[i].0 && Same(a.fields[i].1, b.fields[j].1);
        assert SameField(b.fields[j], c.fields);
        var k :| 0 <= k < |c.fields| && c.fields[k].0 == b.fields[j].0 && Same(b.fields[j].1, c.fields[k].1);
        SameInTurn(a.fields[i].1, b.fields[j].1, c.fields[k].1);
      }
    } else if a.Array? && b.Array? && c.Array? {
      forall i | 0 <= i < |a.items| ensures Same(a.items[i], c.items[i]) {
        SameInTurn(a.items[i], b.items[i], c.items[i]);
      }
    }
  }

  // ------------------------------------------------------------------- the watcher

  /** What a reader has of a key is the row there, or one that is the same. */
  ghost predicate AgreesAt(rows: Rows, kept: map<Key, Document>, key: Key) {
    && (key in kept <==> Row(rows, key).Some?)
    && (key in kept ==> Same(kept[key], Row(rows, key).value))
  }

  ghost predicate Agrees(rows: Rows, kept: map<Key, Document>) {
    forall key :: AgreesAt(rows, kept, key)
  }

  /** Nothing is told but what changed: of a row that left what its group has now, of
      one that came or is no longer the same the row. */
  predicate IsChange(was: Rows, now: Rows, all: Rows, e: Event) {
    match e
    case Left(key, row) => Row(was, key).Some? && Row(now, key).None? && row == Row(all, key)
    case Entered(key, row) => Row(was, key).None? && Row(now, key) == Some(row)
    case Changed(key, row) => Row(was, key).Some? && Row(now, key) == Some(row) && !Same(Row(was, key).value, row)
  }

  /** The aggregate of a collection's documents: every group's row, and those of the
      row filter, sort and limit, each by the key of its group. */
  type Query = L.Docs -> (Rows, Rows)

  ghost predicate QueryOk(query: Query) {
    forall docs :: OneEach(query(docs).0) && OneEach(query(docs).1)
  }

  class AggregateWatcher {
    const query: Query
    var rows: Rows
    /** Everything sent so far. */
    var sent: seq<Event>

    /** The rows are those of `docs`, and what was sent comes to them. */
    ghost predicate Holds(docs: L.Docs)
      reads this
    {
      QueryOk(query) && rows == query(docs).1 && Agrees(rows, ToldAll(map[], sent))
    }

    /** `start`: every row sent as entered. */
    constructor (q: Query, docs: L.Docs)
      requires QueryOk(q)
      ensures query == q && Holds(docs)
    {
      query, rows, sent := q, q(docs).1, [];
      new;
      var now := rows;
      AtStart(now);
      for i := 0 to |now|
        invariant rows == now && query == q && AllComing([], now, map[], ToldAll(map[], sent), i)
      {
        hide ToldAll, AllComing, Row;
        var (key, row) := now[i];
        ComeStep([], now, map[], ToldAll(map[], sent), i);
        NoRow(key);
        ToldMore(map[], sent, Entered(key, row));
        sent := sent + [Entered(key, row)];
      }
      CameAll([], now, map[], ToldAll(map[], sent));
    }

    /** `rerun`: the aggregate run again. A reader told the events has the new rows,
        and is told of those alone that changed. */
    method Rerun(docs: L.Docs, ghost before: L.Docs)
      requires Holds(before)
      modifies this`rows, this`sent
      ensures Holds(docs) && old(sent) <= sent
      ensures forall e <- sent[|old(sent)|..] :: IsChange(query(before).1, query(docs).1, query(docs).0, e)
    {
      hide QueryOk, IsChange;
      var (all, now) := query(docs);
      assert OneEach(rows) && OneEach(all) && OneEach(now) by { OneEachOf(query, docs); OneEachOf(query, before); }
      var events := Changes(all, now, ToldAll(map[], sent));
      ToldJoin(map[], sent, events);
      hide ToldAll, Agrees;
      rows, sent := now, sent + events;
    }

    method Changes(all: Rows, now: Rows, ghost kept: map<Key, Document>) returns (events: seq<Event>)
      requires OneEach(rows) && OneEach(now) && OneEach(all) && Agrees(rows, kept)
      ensures Agrees(now, ToldAll(kept, events))
      ensures forall e <- events :: IsChange(rows, now, all, e)
    {
      events := [];
      AtFirst(rows, now, kept);
      for i := 0 to |rows|
        invariant AllGone(rows, now, kept, ToldAll(kept, events), i)
        invariant forall e <- events :: IsChange(rows, now, all, e)
      {
        hide ToldAll, AllGone, Row, Agrees, Same;
        var key := rows[i].0;
        RowHas(rows, key);
        GoneStep(rows, now, kept, ToldAll(kept, events), i, Left(key, Row(all, key)));
        if Row(now, key).None? {
          ToldMore(kept, events, Left(key, Row(all, key)));
          events := events + [Left(key, Row(all, key))];
        }
      }
      LeftAll(rows, now, kept, ToldAll(kept, events));
      for i := 0 to |now|
        invariant AllComing(rows, now, kept, ToldAll(kept, events), i)
        invariant forall e <- events :: IsChange(rows, now, all, e)
      {
        hide ToldAll, AllComing, Row, Agrees, Same;
        var (key, row) := now[i];
        RowHas(now, key);
        ComeStep(rows, now, kept, ToldAll(kept, events), i);
        var was := Row(rows, key);
        if was.None? || !Same(was.value, row) {
          var event := if was.None? then Entered(key, row) else Changed(key, row);
          ToldMore(kept, events, event);
          events := events + [event];
        }
      }
      CameAll(rows, now, kept, ToldAll(kept, events));
    }
  }

  lemma OneEachOf(query: Query, docs: L.Docs)
    requires QueryOk(query)
    ensures OneEach(query(docs).0) && OneEach(query(docs).1)
  {
  }

  lemma NoRow(key: Key)
    ensures Row([], key).None?
  {
  }

  /** Of the first `i` rows those gone are gone; the others are as a reader had them. */
  ghost predicate GoneThrough(
    was: Rows, now: Rows, kept: map<Key, Document>, told: map<Key, Document>, key: Key, i: nat)
  {
    if i <= |was| && Row(was[..i], key).Some? && Row(now, key).None? then key !in told
    else (key in told <==> key in kept) && (key in told ==> told[key] == kept[key])
  }

  /** Of the first `i` new rows all are told; of the others those that were. */
  ghost predicate Coming(
    was: Rows, now: Rows, kept: map<Key, Document>, told: map<Key, Document>, key: Key, i: nat)
  {
    if i <= |now| && Row(now[..i], key).Some? then AgreesAt(now, told, key)
    else (key in told <==> key in kept && Row(now, key).Some?) && (key in told ==> told[key] == kept[key])
  }

  ghost predicate AllGone(was: Rows, now: Rows, kept: map<Key, Document>, told: map<Key, Document>, i: nat) {
    Agrees(was, kept) && forall key :: GoneThrough(was, now, kept, told, key, i)
  }

  ghost predicate AllComing(was: Rows, now: Rows, kept: map<Key, Document>, told: map<Key, Document>, i: nat) {
    Agrees(was, kept) && forall key :: Coming(was, now, kept, told, key, i)
  }

  lemma AtFirst(was: Rows, now: Rows, kept: map<Key, Document>)
    requires Agrees(was, kept)
    ensures AllGone(was, now, kept, kept, 0)
  {
    hide Same;
    forall key ensures GoneThrough(was, now, kept, kept, key, 0) {
      assert was[..0] == [];
    }
  }

  lemma AtStart(now: Rows)
    ensures AllComing([], now, map[], map[], 0)
  {
    hide Same;
    forall key ensures Coming([], now, map[], map[], key, 0) && AgreesAt([], map[], key) {
      assert now[..0] == [];
    }
  }

  lemma {:induction false} RowMore(rows: Rows, i: nat, key: Key)
    requires i < |rows|
    ensures Row(rows[..i + 1], key).Some? <==> Row(rows[..i], key).Some? || rows[i].0 == key
  {
    RowHas(rows[..i + 1], key);
    RowHas(rows[..i], key);
    hide Row;
    assert forall j :: 0 <= j < i ==> rows[..i][j] == rows[j];
    assert forall j :: 0 <= j <= i ==> rows[..i + 1][j] == rows[j];
    if rows[i].0 == key { assert rows[..i + 1][i].0 == key; }
    if Row(rows[..i], key).Some? {
      var j :| 0 <= j < |rows[..i]| && rows[..i][j].0 == key;
      assert rows[..i + 1][j].0 == key;
    }
  }

  lemma GoneStep(was: Rows, now: Rows, kept: map<Key, Document>, told: map<Key, Document>, i: nat, event: Event)
    requires i < |was| && AllGone(was, now, kept, told, i) && event.Left? && event.key == was[i].0
    ensures AllGone(was, now, kept, if Row(now, was[i].0).None? then Told(told, event) else told, i + 1)
  {
    hide Row, Agrees;
    var after := if Row(now, was[i].0).None? then Told(told, event) else told;
    var next := i + 1;
    forall key ensures GoneThrough(was, now, kept, after, key, next) {
      assert GoneThrough(was, now, kept, told, key, i);
      RowMore(was, i, key);
    }
  }

  lemma LeftAll(was: Rows, now: Rows, kept: map<Key, Document>, told: map<Key, Document>)
    requires AllGone(was, now, kept, told, |was|)
    ensures AllComing(was, now, kept, told, 0)
  {
    hide Same;
    assert was[..|was|] == was && now[..0] == [];
    forall key ensures Coming(was, now, kept, told, key, 0) {
      assert GoneThrough(was, now, kept, told, key, |was|) && AgreesAt(was, kept, key);
    }
  }

  lemma ComeStep(was: Rows, now: Rows, kept: map<Key, Document>, told: map<Key, Document>, i: nat)
    requires i < |now| && OneEach(now) && AllComing(was, now, kept, told, i)
    ensures var (key, row) := now[i];
            AllComing(was, now, kept,
                      if Row(was, key).None? || !Same(Row(was, key).value, row) then told[key := row] else told, i + 1)
  {
    var (k, row) := now[i];
    RowHas(now, k);
    EarlierOnce(now, i);
    hide Row, Same;
    var after := if Row(was, k).None? || !Same(Row(was, k).value, row) then told[k := row] else told;
    var next := i + 1;
    forall key ensures Coming(was, now, kept, after, key, next) {
      assert Coming(was, now, kept, told, key, i) && AgreesAt(was, kept, key);
      RowMore(now, i, key);
      if key == k { CameOne(was, now, kept, told, i); }
    }
    hide Agrees;
  }

  lemma CameOne(was: Rows, now: Rows, kept: map<Key, Document>, told: map<Key, Document>, i: nat)
    requires i < |now| && Row(now, now[i].0) == Some(now[i].1) && Row(now[..i], now[i].0).None?
    requires Coming(was, now, kept, told, now[i].0, i) && AgreesAt(was, kept, now[i].0)
    ensures var (key, row) := now[i];
            AgreesAt(now, if Row(was, key).None? || !Same(Row(was, key).value, row) then told[key := row] else told, key)
  {
    hide Row, Same;
    var (key, row) := now[i];
    SameAsItself(row);
    if Row(was, key).Some? && Same(Row(was, key).value, row) {
      SameInTurn(kept[key], Row(was, key).value, row);
    }
  }

  lemma EarlierOnce(rows: Rows, i: nat)
    requires i < |rows| && OneEach(rows)
    ensures Row(rows[..i], rows[i].0).None?
  {
    RowHas(rows[..i], rows[i].0);
  }

  lemma CameAll(was: Rows, now: Rows, kept: map<Key, Document>, told: map<Key, Document>)
    requires AllComing(was, now, kept, told, |now|)
    ensures Agrees(now, told)
  {
    hide Same;
    assert now[..|now|] == now;
    forall key ensures AgreesAt(now, told, key) {
      assert Coming(was, now, kept, told, key, |now|);
    }
  }

  // --------------------------------------------------------------- commits in a row

  /** Changes that name nothing of a collection tell it nothing. */
  lemma {:induction false} NothingToFollow(docs: L.Docs, c: C.Name, changes: seq<C.Change>, after: L.Docs)
    requires forall change <- changes :: !C.IsOf(C.About(change), c)
    ensures L.Follow(docs, c, changes, after) == docs
  {
    if changes != [] {
      var n := |changes| - 1;
      assert changes[n] in changes;
      NothingToFollow(docs, c, changes[..n], after);
    }
  }

  /** `check_aggregates`, for one: run again if a change is of its collection. */
  method CommitAndRerun(w: AggregateWatcher, c: C.Name, before: C.State, ops: seq<C.Op>) returns (after: C.State)
    requires w.Holds(L.DocsOf(before, c))
    modifies w
    ensures after == L.Next(before, ops) && w.Holds(L.DocsOf(after, c)) && old(w.sent) <= w.sent
  {
    hide AggregateWatcher.Holds, L.Follow, L.DocsOf, C.Run, C.NetOf, L.DropsFirst;
    after := before;
    var changes, next := C.Batch(before, ops);
    if changes.Some? {
      after := next;
      L.BatchTells(c, before, ops);
      if exists change <- changes.value :: C.IsOf(C.About(change), c) {
        w.Rerun(L.DocsOf(after, c), L.DocsOf(before, c));
      } else {
        NothingToFollow(L.DocsOf(before, c), c, changes.value, L.DocsOf(after, c));
      }
    }
  }

  /** Before the first batch and after each, what was told so far comes to the rows
      of the aggregate in that state. */
  ghost predicate Tracks(
    query: Query, c: C.Name, before: C.State, batches: seq<seq<C.Op>>, told: seq<seq<Event>>)
  {
    && |told| == |batches| + 1
    && forall i :: 0 <= i <= |batches| ==> TracksAt(query, L.DocsOf(L.RunAll(before, batches[..i]), c), told[..i + 1])
  }

  ghost predicate TracksAt(query: Query, docs: L.Docs, told: seq<seq<Event>>) {
    Agrees(query(docs).1, ToldAll(map[], L.AllOf(told)))
  }

  lemma TracksOneMore(
    query: Query, c: C.Name, before: C.State, batches: seq<seq<C.Op>>, told: seq<seq<Event>>, ops: seq<C.Op>,
    events: seq<Event>)
    requires Tracks(query, c, before, batches, told)
    requires TracksAt(query, L.DocsOf(L.RunAll(before, batches + [ops]), c), told + [events])
    ensures Tracks(query, c, before, batches + [ops], told + [events])
  {
    hide TracksAt, L.RunAll, L.DocsOf;
    var (more, longer) := (batches + [ops], told + [events]);
    forall i | 0 <= i <= |more| ensures TracksAt(query, L.DocsOf(L.RunAll(before, more[..i]), c), longer[..i + 1]) {
      if i <= |batches| {
        assert more[..i] == batches[..i] && longer[..i + 1] == told[..i + 1];
      } else {
        assert more[..i] == more && longer[..i + 1] == longer;
      }
    }
  }

  lemma TracksFirst(query: Query, c: C.Name, before: C.State, events: seq<Event>)
    requires TracksAt(query, L.DocsOf(before, c), [events])
    ensures Tracks(query, c, before, [], [events])
  {
    hide TracksAt, L.DocsOf;
    var told := [events];
    assert told[..1] == told;
  }

  /** Every run: a live aggregate made on any state and run again at each commit that
      changes its collection has told, after each, what its rows then are. */
  method WatchRows(query: Query, c: C.Name, before: C.State, batches: seq<seq<C.Op>>)
    returns (w: AggregateWatcher, after: C.State, told: seq<seq<Event>>)
    requires QueryOk(query)
    ensures w.query == query && after == L.RunAll(before, batches) && w.Holds(L.DocsOf(after, c))
    ensures w.sent == L.AllOf(told) && Tracks(query, c, before, batches, told)
  {
    hide *;
    w := new AggregateWatcher(query, L.DocsOf(before, c));
    after, told := before, [w.sent];
    L.RunNone(before);
    AllOfOne(w.sent);
    HoldsTracks(w, L.DocsOf(before, c), told);
    TracksFirst(query, c, before, w.sent);
    assert batches[..0] == [];
    for i := 0 to |batches|
      invariant fresh(w) && w.query == query && after == L.RunAll(before, batches[..i]) && w.Holds(L.DocsOf(after, c))
      invariant |told| == i + 1 && w.sent == L.AllOf(told) && Tracks(query, c, before, batches[..i], told)
    {
      var sent := w.sent;
      after := CommitAndRerun(w, c, after, batches[i]);
      var events := w.sent[|sent|..];
      assert w.sent == sent + events;
      L.RunOneMore(before, batches, i);
      L.AllOfMore(told, events);
      HoldsTracks(w, L.DocsOf(after, c), told + [events]);
      TracksOneMore(query, c, before, batches[..i], told, batches[i], events);
      told := told + [events];
    }
    assert batches[..|batches|] == batches;
  }

  lemma AllOfOne(events: seq<Event>)
    ensures L.AllOf([events]) == events
  {
    L.AllOfMore([], events);
    assert [] + [events] == [events];
  }

  lemma HoldsTracks(w: AggregateWatcher, docs: L.Docs, told: seq<seq<Event>>)
    requires w.Holds(docs) && w.sent == L.AllOf(told)
    ensures TracksAt(w.query, docs, told)
  {
    hide Agrees, QueryOk, L.AllOf;
  }
}
