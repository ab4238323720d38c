/** What a batch changed (`src/changes.rs`): a log kept while the batch runs,
    folded to each document's net effect, in the order first touched. */
module Changes {
  import opened Values

  type Name = seq<byte>

  datatype Key = Key(collection: Name, id: DocId)

  /** Every document of the database. */
  type State = map<Key, Document>

  /** One operation of a batch: a write, or a collection dropped. */
  datatype Op =
    | Insert(key: Key, doc: Document)
    | Update(key: Key, doc: Document)
    | Delete(key: Key)
    | Drop(collection: Name)

  /** Whether the operation goes through: an insert fails where a document is,
      an update or a delete where none is. */
  predicate Applies(state: State, op: Op) {
    match op
    case Insert(key, _) => key !in state
    case Update(key, _) => key in state
    case Delete(key) => key in state
    case Drop(_) => true
  }

  function Apply(state: State, op: Op): (after: State) {
    match op
    case Insert(key, doc) => state[key := doc]
    case Update(key, doc) => state[key := doc]
    case Delete(key) => state - {key}
    case Drop(c) => map key | key in state && key.collection != c :: state[key]
  }

  /** The batch's operations one after another; nothing if one fails. */
  function Run(state: State, ops: seq<Op>): (after: Option<State>) {
    if ops == [] then Some(state)
    else
      var before := Run(state, ops[..|ops| - 1]);
      var op := ops[|ops| - 1];
      if before.Some? && Applies(before.value, op) then Some(Apply(before.value, op)) else None
  }

  // ------------------------------------------------------------- the net effect

  datatype Change =
    | Inserted(key: Key)
    | Updated(key: Key)
    | Deleted(key: Key)
    | Dropped(collection: Name)

  /** What a change says of which documents are there; nothing if it can't be,
      as an insert of one that is there already. */
  function Effect(there: set<Key>, c: Change): (after: Option<set<Key>>) {
    match c
    case Inserted(key) => if key in there then None else Some(there + {key})
    case Updated(key) => if key in there then Some(there) else None
    case Deleted(key) => if key in there then Some(there - {key}) else None
    case Dropped(name) => Some(set key | key in there && key.collection != name)
  }

  function Replay(there: set<Key>, changes: seq<Change>): (after: Option<set<Key>>) {
    if changes == [] then Some(there)
    else
      var before := Replay(there, changes[..|changes| - 1]);
      if before.None? then None else Effect(before.value, changes[|changes| - 1])
  }

  // ----------------------------------------------------------- the first touch

  /** What a batch touches: a document, or a collection as a whole. */
  datatype Item = Doc(key: Key) | Whole(collection: Name)

  predicate IsOf(item: Item, c: Name) {
    match item
    case Doc(key) => key.collection == c
    case Whole(name) => name == c
  }

  function Without(items: seq<Item>, c: Name): (rest: seq<Item>)
    ensures forall item :: item in rest <==> item in items && !IsOf(item, c)
  {
    if items == [] then []
    else
      var n := |items| - 1;
      Without(items[..n], c) + if IsOf(items[n], c) then [] else [items[n]]
  }

  /** What the batch touched, in the order first touched; a drop ends what was
      touched of its collection before. */
  function Touches(ops: seq<Op>): (items: seq<Item>) {
    if ops == [] then []
    else
      var before := Touches(ops[..|ops| - 1]);
      match ops[|ops| - 1]
      case Drop(c) => Without(before, c) + [Whole(c)]
      case op => if Doc(op.key) in before then before else before + [Doc(op.key)]
  }

  /** Each item once, and a collection's documents after its drop. */
  ghost predicate InTurn(items: seq<Item>) {
    forall i, j :: 0 <= i < j < |items| ==>
      items[i] != items[j] && (items[j].Whole? ==> !IsOf(items[i], items[j].collection))
  }

  lemma OneMoreInTurn(items: seq<Item>, last: Item)
    requires InTurn(items) && last !in items
    requires last.Whole? ==> forall item <- items :: !IsOf(item, last.collection)
    ensures InTurn(items + [last])
  {
    var all := items + [last];
    forall i, j | 0 <= i < j < |all|
      ensures all[i] != all[j] && (all[j].Whole? ==> !IsOf(all[i], all[j].collection))
    {
      assert items[i] in items;
    }
  }

  lemma {:induction false} TouchesAreInTurn(ops: seq<Op>)
    ensures InTurn(Touches(ops))
  {
    if ops != [] {
      var before := Touches(ops[..|ops| - 1]);
      TouchesAreInTurn(ops[..|ops| - 1]);
      match ops[|ops| - 1]
      case Drop(c) =>
        WithoutIsInTurn(before, c);
        OneMoreInTurn(Without(before, c), Whole(c));
      case op =>
        if Doc(op.key) !in before { OneMoreInTurn(before, Doc(op.key)); }
    }
  }

  lemma {:induction false} WithoutIsInTurn(items: seq<Item>, c: Name)
    requires InTurn(items)
    ensures InTurn(Without(items, c))
  {
    if items != [] {
      var n := |items| - 1;
      WithoutIsInTurn(items[..n], c);
      if !IsOf(items[n], c) {
        assert forall item <- Without(items[..n], c) :: item in items[..n];
        OneMoreInTurn(Without(items[..n], c), items[n]);
      } else {
        assert Without(items, c) == Without(items[..n], c);
      }
    }
  }

  /** A document's presence before the batch, as its first touch finds it. */
  predicate Existed(items: seq<Item>, before: State, key: Key) {
    key in before && Whole(key.collection) !in items
  }

  /** What is not touched is as it was, or gone with its collection. */
  lemma {:induction false} UntouchedIsAsBefore(before: State, ops: seq<Op>, key: Key)
    requires Run(before, ops).Some? && Doc(key) !in Touches(ops)
    ensures var now := Run(before, ops).value;
            if Existed(Touches(ops), before, key) then key in now && now[key] == before[key] else key !in now
  {
    if ops != [] {
      var op := ops[|ops| - 1];
      if !(op.Drop? && op.collection == key.collection) {
        UntouchedIsAsBefore(before, ops[..|ops| - 1], key);
      }
    }
  }

  /** The batch's net effect: each item touched, in order, by whether the
      document was there before and is after. */
  function NetOf(items: seq<Item>, all: seq<Item>, before: State, now: State): (changes: seq<Change>) {
    if items == [] then []
    else
      var n := |items| - 1;
      NetOf(items[..n], all, before, now) + Net(items[n], all, before, now)
  }

  function Net(item: Item, all: seq<Item>, before: State, now: State): (change: seq<Change>) {
    match item
    case Whole(c) => [Dropped(c)]
    case Doc(key) =>
      match (Existed(all, before, key), key in now)
      case (false, true) => [Inserted(key)]
      case (true, true) => [Updated(key)]
      case (true, false) => [Deleted(key)]
      case (false, false) => []
  }

  /** Which documents are there once the first `n` items are told. */
  ghost predicate Told(items: seq<Item>, n: nat, before: State, now: State, there: set<Key>)
    requires n <= |items|
  {
    forall key ::
      key in there <==>
        if Doc(key) in items[..n] then key in now
        else key in before && Whole(key.collection) !in items[..n]
  }

  lemma {:induction false} NetReplaysUpTo(items: seq<Item>, n: nat, before: State, now: State)
    requires InTurn(items) && n <= |items|
    ensures var after := Replay(before.Keys, NetOf(items[..n], items, before, now));
            after.Some? && Told(items, n, before, now, after.value)
  {
    if n == 0 {
      assert items[..0] == [];
    } else {
      hide Told, InTurn, Effect, Net, Replay;
      NetReplaysUpTo(items, n - 1, before, now);
      var first := NetOf(items[..n - 1], items, before, now);
      var step := Net(items[n - 1], items, before, now);
      assert NetOf(items[..n], items, before, now) == first + step by {
        assert items[..n][..n - 1] == items[..n - 1];
      }
      NetStep(items, n - 1, before, now, Replay(before.Keys, first).value);
      ReplayStep(before.Keys, first, step);
    }
  }

  lemma ReplayStep(there: set<Key>, first: seq<Change>, step: seq<Change>)
    requires |step| <= 1 && Replay(there, first).Some?
    ensures Replay(there, first + step)
         == if step == [] then Replay(there, first) else Effect(Replay(there, first).value, step[0])
  {
    if step == [] {
      assert first + step == first;
    } else {
      assert (first + step)[..|first + step| - 1] == first;
    }
  }

  lemma NetStep(items: seq<Item>, n: nat, before: State, now: State, there: set<Key>)
    requires InTurn(items) && n < |items| && Told(items, n, before, now, there)
    ensures |Net(items[n], items, before, now)| <= 1
    ensures var step := Net(items[n], items, before, now);
            var after := if step == [] then Some(there) else Effect(there, step[0]);
            after.Some? && Told(items, n + 1, before, now, after.value)
  {
    assert items[..n + 1] == items[..n] + [items[n]];
    assert items[n] !in items[..n];
    match items[n]
    case Doc(key) =>
      // Its collection's drop, if any, comes before it.
      WholeComesFirst(items, n);
    case Whole(c) =>
      assert forall item <- items[..n] :: !IsOf(item, c);
  }

  lemma WholeComesFirst(items: seq<Item>, n: nat)
    requires InTurn(items) && n < |items| && items[n].Doc?
    ensures Whole(items[n].key.collection) in items <==> Whole(items[n].key.collection) in items[..n]
  {
    var whole := Whole(items[n].key.collection);
    if whole in items {
      var j :| 0 <= j < |items| && items[j] == whole;
      assert j < n;
    }
  }

  /** Replaying a batch's net effect on the documents there before gives the
      documents there after, for every batch that goes through. */
  lemma NetEffectReplays(before: State, ops: seq<Op>)
    requires Run(before, ops).Some?
    ensures var now := Run(before, ops).value;
            Replay(before.Keys, NetOf(Touches(ops), Touches(ops), before, now)) == Some(now.Keys)
  {
    var now := Run(before, ops).value;
    var items := Touches(ops);
    TouchesAreInTurn(ops);
    NetReplaysUpTo(items, |items|, before, now);
    assert items[..|items|] == items;
    var there := Replay(before.Keys, NetOf(items, items, before, now)).value;
    hide Replay, NetOf, InTurn, Touches;
    forall key ensures key in there <==> key in now {
      if Doc(key) !in items { UntouchedIsAsBefore(before, ops, key); }
    }
    assert there == now.Keys;
  }

  // ------------------------------------------------------------------- the log

  datatype Entry = Entry(collection: Name, id: Option<DocId>, existed: bool, exists': bool)

  /** What an entry reports: nothing for a document not there before or after. */
  function ChangeOf(e: Entry): (change: seq<Change>) {
    match (e.id, e.existed, e.exists')
    case (None, _, _) => [Dropped(e.collection)]
    case (Some(id), false, true) => [Inserted(Key(e.collection, id))]
    case (Some(id), true, true) => [Updated(Key(e.collection, id))]
    case (Some(id), true, false) => [Deleted(Key(e.collection, id))]
    case (Some(_), false, false) => []
  }

  function FilterMap(entries: seq<Entry>): (changes: seq<Change>) {
    if entries == [] then []
    else FilterMap(entries[..|entries| - 1]) + ChangeOf(entries[|entries| - 1])
  }

  /** The entry an item should have, from the states alone. */
  function EntryOf(item: Item, all: seq<Item>, before: State, now: State): (e: Entry) {
    match item
    case Whole(c) => Entry(c, None, true, false)
    case Doc(key) => Entry(key.collection, Some(key.id), Existed(all, before, key), key in now)
  }

  ghost predicate Matches(entries: seq<Entry>, items: seq<Item>, before: State, now: State) {
    |entries| == |items| && forall i :: 0 <= i < |items| ==> entries[i] == EntryOf(items[i], items, before, now)
  }

  /** Each document's place among the items. */
  ghost predicate Indexes(at: map<Key, nat>, items: seq<Item>) {
    && (forall key :: key in at <==> Doc(key) in items)
    && (forall key :: key in at ==> at[key] < |items| && items[at[key]] == Doc(key))
  }

  lemma {:induction false} FilterMapIsNet(
    entries: seq<Entry>, items: seq<Item>, n: nat, before: State, now: State)
    requires Matches(entries, items, before, now) && n <= |items|
    ensures FilterMap(entries[..n]) == NetOf(items[..n], items, before, now)
  {
    if n > 0 {
      FilterMapIsNet(entries, items, n - 1, before, now);
      assert entries[..n][..n - 1] == entries[..n - 1] && items[..n][..n - 1] == items[..n - 1];
    }
  }

  lemma RunOneMore(before: State, ops: seq<Op>, op: Op)
    requires Run(before, ops).Some? && Applies(Run(before, ops).value, op)
    ensures Run(before, ops + [op]) == Some(Apply(Run(before, ops).value, op))
    ensures var was := Touches(ops);
            Touches(ops + [op]) ==
              if op.Drop? then Without(was, op.collection) + [Whole(op.collection)]
              else if Doc(op.key) in was then was
              else was + [Doc(op.key)]
  {
    assert (ops + [op])[..|ops + [op]| - 1] == ops;
  }

  /** A document touched again: only whether it is there changes. */
  lemma TouchedAgain(entries: seq<Entry>, items: seq<Item>, before: State, now: State, op: Op, i: nat)
    requires Matches(entries, items, before, now) && InTurn(items)
    requires !op.Drop? && i < |items| && items[i] == Doc(op.key)
    ensures Matches(entries[i := entries[i].(exists' := !op.Delete?)], items, before, Apply(now, op))
  {
  }

  lemma TouchedFirst(entries: seq<Entry>, items: seq<Item>, before: State, now: State, op: Op)
    requires !op.Drop? && Matches(entries, items, before, now) && Doc(op.key) !in items
    requires Applies(now, op) && (op.key in now <==> Existed(items, before, op.key))
    ensures Matches(entries + [Entry(op.key.collection, Some(op.key.id), !op.Insert?, !op.Delete?)],
                    items + [Doc(op.key)], before, Apply(now, op))
  {
    var all := items + [Doc(op.key)];
    assert forall c :: Whole(c) in all <==> Whole(c) in items;
    forall i | 0 <= i < |items|
      ensures EntryOf(all[i], all, before, Apply(now, op)) == EntryOf(items[i], items, before, now)
    {
      assert items[i] in items;
    }
  }

  lemma IndexedFirst(at: map<Key, nat>, items: seq<Item>, key: Key)
    requires Indexes(at, items) && Doc(key) !in items
    ensures Indexes(at[key := |items|], items + [Doc(key)])
  {
  }

  /** The entries of what a drop leaves, and the drop's own. */
  lemma DropLeaves(kept: seq<Entry>, items: seq<Item>, before: State, now: State, c: Name)
    requires Follow(kept, Without(items, c), items, before, now)
    ensures Matches(kept + [Entry(c, None, true, false)], Without(items, c) + [Whole(c)], before, Apply(now, Drop(c)))
  {
    var rest := Without(items, c);
    var all := rest + [Whole(c)];
    var after := Apply(now, Drop(c));
    forall i | 0 <= i < |rest|
      ensures EntryOf(all[i], all, before, after) == EntryOf(rest[i], items, before, now)
    {
      assert rest[i] in rest;
      if rest[i].Doc? {
        var whole := Whole(rest[i].key.collection);
        assert whole in all <==> whole in items;
      }
    }
  }

  /** `retain`: the entries of other collections. */
  method Retained(entries: seq<Entry>, c: Name, ghost items: seq<Item>, ghost before: State, ghost now: State)
    returns (kept: seq<Entry>)
    requires Matches(entries, items, before, now)
    ensures Follow(kept, Without(items, c), items, before, now)
  {
    kept := [];
    for i := 0 to |entries|
      invariant Follow(kept, Without(items[..i], c), items, before, now)
    {
      assert items[..i + 1][..i] == items[..i];
      assert entries[i] == EntryOf(items[i], items, before, now);
      if entries[i].collection != c {
        kept := kept + [entries[i]];
      }
    }
    assert items[..|items|] == items;
  }

  /** The entries of `some` of the items. */
  ghost predicate Follow(kept: seq<Entry>, some: seq<Item>, items: seq<Item>, before: State, now: State) {
    |kept| == |some| && forall i :: 0 <= i < |kept| ==> kept[i] == EntryOf(some[i], items, before, now)
  }

  /** Where each document's entry is, counted from the entries. */
  method Counted(
    kept: seq<Entry>, ghost some: seq<Item>, ghost items: seq<Item>, ghost before: State, ghost now: State)
    returns (at: map<Key, nat>)
    requires Follow(kept, some, items, before, now) && InTurn(some)
    ensures Indexes(at, some)
  {
    at := map[];
    for i := 0 to |kept|
      invariant Indexes(at, some[..i])
    {
      assert some[..i + 1] == some[..i] + [some[i]];
      assert some[i] !in some[..i];
      if kept[i].id.Some? {
        at := at[Key(kept[i].collection, kept[i].id.value) := i];
      }
    }
    assert some[..|some|] == some;
  }

  lemma IndexedWhole(at: map<Key, nat>, items: seq<Item>, c: Name)
    requires Indexes(at, items)
    ensures Indexes(at, items + [Whole(c)])
  {
  }

  class ChangeLog {
    /** In the order first touched. */
    var entries: seq<Entry>
    /** Where each document's entry is in `entries`. */
    var at: map<Key, nat>

    /** The log of the operations `ops`, run on `before`. */
    ghost predicate Records(before: State, ops: seq<Op>)
      reads this
    {
      && Run(before, ops).Some?
      && Matches(entries, Touches(ops), before, Run(before, ops).value)
      && Indexes(at, Touches(ops))
    }

    constructor (ghost before: State)
      ensures Records(before, [])
    {
      entries, at := [], map[];
    }

    /** `op`, a write that has just been applied. */
    method Written(op: Op, ghost before: State, ghost ops: seq<Op>)
      requires Records(before, ops) && !op.Drop?
      requires Applies(Run(before, ops).value, op)
      modifies this
      ensures Records(before, ops + [op])
    {
      ghost var items := Touches(ops);
      ghost var now := Run(before, ops).value;
      TouchesAreInTurn(ops);
      RunOneMore(before, ops, op);
      var exists' := !op.Delete?;
      if op.key in at {
        TouchedAgain(entries, items, before, now, op, at[op.key]);
        hide Matches, InTurn, Run, Touches, Apply;
        entries := entries[at[op.key] := entries[at[op.key]].(exists' := exists')];
      } else {
        UntouchedIsAsBefore(before, ops, op.key);
        TouchedFirst(entries, items, before, now, op);
        IndexedFirst(at, items, op.key);
        hide Indexes, InTurn, Run, Touches, Apply;
        at := at[op.key := |entries|];
        entries := entries + [Entry(op.key.collection, Some(op.key.id), !op.Insert?, exists')];
      }
    }

    /** `c` dropped, every document in it with it: what was logged of it goes,
        and the places of the rest are counted anew. */
    method Dropped(c: Name, ghost before: State, ghost ops: seq<Op>)
      requires Records(before, ops)
      modifies this
      ensures Records(before, ops + [Drop(c)])
    {
      ghost var items := Touches(ops);
      ghost var now := Run(before, ops).value;
      RunOneMore(before, ops, Drop(c));
      TouchesAreInTurn(ops);
      WithoutIsInTurn(items, c);
      hide Matches, Indexes, InTurn, Touches, Run, Apply, Follow, Without;
      var kept := Retained(entries, c, items, before, now);
      at := Counted(kept, Without(items, c), items, before, now);
      IndexedWhole(at, Without(items, c), c);
      DropLeaves(kept, items, before, now, c);
      entries := kept + [Entry(c, None, true, false)];
    }

    /** The batch's changes: replayed on the documents before, they give the
        documents after. */
    method Finish(ghost before: State, ghost ops: seq<Op>) returns (changes: seq<Change>)
      requires Records(before, ops)
      ensures changes == NetOf(Touches(ops), Touches(ops), before, Run(before, ops).value)
      ensures Replay(before.Keys, changes) == Some(Run(before, ops).value.Keys)
    {
      changes := FilterMap(entries);
      ghost var items := Touches(ops);
      FilterMapIsNet(entries, items, |items|, before, Run(before, ops).value);
      NetEffectReplays(before, ops);
      assert entries[..|entries|] == entries && items[..|items|] == items;
    }
  }

  /** A whole batch, logged as it runs: nothing is reported of one that fails. */
  method Batch(before: State, ops: seq<Op>) returns (changes: Option<seq<Change>>, after: State)
    ensures changes.Some? <==> Run(before, ops).Some?
    ensures changes.Some? ==> after == Run(before, ops).value
    ensures changes.Some? ==> changes.value == NetOf(Touches(ops), Touches(ops), before, after)
    ensures changes.Some? ==> Replay(before.Keys, changes.value) == Some(after.Keys)
  {
    var log := new ChangeLog(before);
    after := before;
    for i := 0 to |ops|
      invariant log.Records(before, ops[..i]) && after == Run(before, ops[..i]).value
    {
      if !Applies(after, ops[i]) {
        FailsForGood(before, ops, i);
        return None, before;
      }
      assert ops[..i + 1] == ops[..i] + [ops[i]];
      RunOneMore(before, ops[..i], ops[i]);
      match ops[i] {
        case Drop(c) => log.Dropped(c, before, ops[..i]);
        case _ => log.Written(ops[i], before, ops[..i]);
      }
      after := Apply(after, ops[i]);
    }
    assert ops[..|ops|] == ops;
    var told := log.Finish(before, ops);
    changes := Some(told);
  }

  lemma {:induction false} FailsForGood(before: State, ops: seq<Op>, n: nat)
    requires n < |ops| && Run(before, ops[..n]).Some? && !Applies(Run(before, ops[..n]).value, ops[n])
    ensures Run(before, ops).None?
  {
    var last := |ops| - 1;
    if n < last {
      assert ops[..last][..n] == ops[..n];
      FailsForGood(before, ops[..last], n);
    }
  }

  // -------------------------------------------- what the report says, in order

  lemma {:induction false} NetLists(items: seq<Item>, all: seq<Item>, before: State, now: State, key: Key)
    ensures (Inserted(key) in NetOf(items, all, before, now)
          || Updated(key) in NetOf(items, all, before, now)
          || Deleted(key) in NetOf(items, all, before, now))
       <==> Doc(key) in items && (Existed(all, before, key) || key in now)
  {
    if items != [] {
      var n := |items| - 1;
      NetLists(items[..n], all, before, now, key);
      assert Doc(key) in items <==> Doc(key) in items[..n] || items[n] == Doc(key);
    }
  }

  /** What a change is about. */
  function About(c: Change): (item: Item) {
    match c
    case Inserted(key) => Doc(key)
    case Updated(key) => Doc(key)
    case Deleted(key) => Doc(key)
    case Dropped(name) => Whole(name)
  }

  /** Two changes are about two items, touched in the order reported. */
  lemma {:induction false} ReportedInOrder(
    items: seq<Item>, all: seq<Item>, before: State, now: State, i: nat, j: nat)
    returns (p: nat, q: nat)
    requires i < j < |NetOf(items, all, before, now)|
    ensures p < q < |items|
    ensures items[p] == About(NetOf(items, all, before, now)[i])
    ensures items[q] == About(NetOf(items, all, before, now)[j])
    decreases |items|, 1
  {
    var n := |items| - 1;
    var first := NetOf(items[..n], all, before, now);
    if j < |first| {
      p, q := ReportedInOrder(items[..n], all, before, now, i, j);
    } else {
      q := n;
      p := ReportedAt(items[..n], all, before, now, i);
    }
  }

  lemma {:induction false} ReportedAt(items: seq<Item>, all: seq<Item>, before: State, now: State, i: nat)
    returns (p: nat)
    requires i < |NetOf(items, all, before, now)|
    ensures p < |items| && items[p] == About(NetOf(items, all, before, now)[i])
  {
    var n := |items| - 1;
    if i < |NetOf(items[..n], all, before, now)| {
      p := ReportedAt(items[..n], all, before, now, i);
    } else {
      p := n;
    }
  }

  /** No document and no collection is reported twice. */
  lemma ReportedOnce(before: State, ops: seq<Op>, now: State, i: nat, j: nat)
    requires i < j < |NetOf(Touches(ops), Touches(ops), before, now)|
    ensures var changes := NetOf(Touches(ops), Touches(ops), before, now);
            About(changes[i]) != About(changes[j])
    ensures var changes := NetOf(Touches(ops), Touches(ops), before, now);
            changes[j].Dropped? ==> !IsOf(About(changes[i]), changes[j].collection)
  {
    var items := Touches(ops);
    TouchesAreInTurn(ops);
    var p, q := ReportedInOrder(items, items, before, now, i, j);
  }
}
